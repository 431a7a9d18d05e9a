/** What every run of saves and removals keeps on one store. */
module StoreRuns {
  import opened Results
  import opened StoreModel

  datatype Op =
    | RawSave(key: string, path: Bytes, data: Bytes)
    | CompressedSave(key: string, hash: Hash, data: Bytes)
    | Removal(key: string)

  function Apply(c: Codec, st: Store, op: Op): Store {
    match op
    case RawSave(key, path, data) => SaveRaw(c, st, key, path, data).0
    case CompressedSave(key, hash, data) => SaveCompressed(st, key, hash, data).0
    case Removal(key) => RemoveByKey(st, key).0
  }

  function Run(c: Codec, st: Store, ops: seq<Op>): Store
    decreases |ops|
  {
    if ops == [] then st else Apply(c, Run(c, st, ops[..|ops| - 1]), ops[|ops| - 1])
  }

  lemma ApplyKeepsConsistency(c: Codec, st: Store, op: Op)
    requires Consistent(st)
    ensures Consistent(Apply(c, st, op))
  {
    match op
    case RawSave(key, path, data) => SavesKeepConsistency(c, st, key, c.digest([]), path, data);
    case CompressedSave(key, hash, data) => SavesKeepConsistency(c, st, key, hash, [], data);
    case Removal(key) => if key != "" { RemoveByKeyExact(st, key); }
  }

  /** Files, folders and index agree after every run, whatever the operations and whether they succeed. */
  lemma {:induction false} RunsKeepConsistency(c: Codec, st: Store, ops: seq<Op>)
    requires Consistent(st)
    ensures Consistent(Run(c, st, ops))
    decreases |ops|
  {
    if ops != [] {
      RunsKeepConsistency(c, st, ops[..|ops| - 1]);
      ApplyKeepsConsistency(c, Run(c, st, ops[..|ops| - 1]), ops[|ops| - 1]);
    }
  }

  lemma EmptyIsConsistent()
    ensures Consistent(EMPTY)
  {
    assert DirsOf(EMPTY.files) == {};
  }

  /** From an empty store, after any run: a removal of a non-empty key succeeds and leaves exactly the files
      that are not the key's, the rows that are not the key's, and the folders those files need. */
  lemma RemovalAfterAnyRun(c: Codec, ops: seq<Op>, key: string)
    requires key != ""
    ensures var st := Run(c, EMPTY, ops);
      var files := st.files - PathsOf(HashesOf(st.rows, key));
      RemoveByKey(st, key) == (Store(files, DirsOf(files), Without(st.rows, key)), Ok(()))
  {
    EmptyIsConsistent();
    RunsKeepConsistency(c, EMPTY, ops);
    RemoveByKeyExact(Run(c, EMPTY, ops), key);
  }

  // ---------------------------------------------------------------- end-to-end round trip

  /** Every indexed file unpacks. */
  ghost predicate Readable(c: Codec, st: Store) {
    forall r :: r in st.rows ==>
      MakePathFromHash(r.hash) in st.files && c.unpack(st.files[MakePathFromHash(r.hash)]).Ok?
  }

  /** `key` owns `hash`, whose file unpacks to `content`. */
  ghost predicate Holds(c: Codec, st: Store, key: string, hash: Hash, content: Bytes) {
    && Consistent(st)
    && Readable(c, st)
    && Row(key, hash) in st.rows
    && MakePathFromHash(hash) in st.files
    && c.unpack(st.files[MakePathFromHash(hash)]) == Ok(content)
  }

  /** Operations that may follow: any raw save, removal of other keys, and uploads of packed data that
      unpack, and unpack to `content` if they claim `hash`. */
  ghost predicate Harmless(c: Codec, key: string, hash: Hash, content: Bytes, op: Op) {
    match op
    case RawSave(_, _, _) => true
    case CompressedSave(_, h, data) => c.unpack(data).Ok? && (h == hash ==> c.unpack(data) == Ok(content))
    case Removal(k) => k != key
  }

  lemma AddRowKeepsReadable(c: Codec, st: Store, key: string, hash: Hash)
    requires Readable(c, st)
    requires MakePathFromHash(hash) in st.files && c.unpack(st.files[MakePathFromHash(hash)]).Ok?
    ensures Readable(c, AddRow(st, key, hash).0)
  {
  }

  lemma WriteKeepsReadable(c: Codec, st: Store, hash: Hash, data: Bytes)
    requires Readable(c, st) && c.unpack(data).Ok?
    ensures Readable(c, WithFile(WithFolder(st, MakePathFromHash(hash).dir), MakePathFromHash(hash), data))
  {
  }

  /** A raw save never changes a file that is there, and adds one only under a name that was free. */
  lemma RawSaveOverwritesNothing(c: Codec, st: Store, key: string, path: Bytes, data: Bytes)
    ensures var after := SaveRaw(c, st, key, path, data).0;
      forall p :: p in st.files ==> p in after.files && after.files[p] == st.files[p]
  {
  }

  /** What a successful raw save leaves: the key owns the digest, and its file unpacks to the prepared file. */
  lemma RawSaveHolds(c: Codec, st: Store, key: string, path: Bytes, data: Bytes)
    requires RoundTrips(c) && Consistent(st) && Readable(c, st)
    ensures var saved := SaveRaw(c, st, key, path, data);
      Readable(c, saved.0) &&
      (saved.1.Ok? ==>
        saved.1.value == c.digest(PrepareRawFile(path, data)) &&
        Holds(c, saved.0, key, saved.1.value, PrepareRawFile(path, data)))
  {
    var raw := PrepareRawFile(path, data);
    var hash := c.digest(raw);
    var place := MakePathFromHash(hash);
    SavesKeepConsistency(c, st, key, hash, path, data);
    assert c.unpack(c.pack(raw)) == Ok(raw);
    var written := WriteFromRawData(c, st, raw);
    assert Readable(c, written.0);
    if written.1.Ok? {
      AddRowKeepsReadable(c, written.0, key, hash);
    }
  }

  lemma StepKeepsHolding(c: Codec, st: Store, key: string, hash: Hash, content: Bytes, op: Op)
    requires RoundTrips(c) && Holds(c, st, key, hash, content) && Harmless(c, key, hash, content, op)
    ensures Holds(c, Apply(c, st, op), key, hash, content)
  {
    ApplyKeepsConsistency(c, st, op);
    match op {
      case RawSave(k, path, data) =>
        RawSaveHolds(c, st, k, path, data);
        RawSaveOverwritesNothing(c, st, k, path, data);
      case CompressedSave(k, h, data) =>
        WriteKeepsReadable(c, st, h, data);
        var place := MakePathFromHash(h);
        AddRowKeepsReadable(c, WithFile(WithFolder(st, place.dir), place, data), k, h);
        PathsAreInjective(h, hash);
      case Removal(k) =>
        if k != "" {
          RemoveByKeyExact(st, k);
          WithoutMembers(st.rows, k);
        }
    }
  }

  lemma {:induction false} RunKeepsHolding(c: Codec, st: Store, key: string, hash: Hash, content: Bytes, ops: seq<Op>)
    requires RoundTrips(c) && Holds(c, st, key, hash, content)
    requires forall op :: op in ops ==> Harmless(c, key, hash, content, op)
    ensures Holds(c, Run(c, st, ops), key, hash, content)
    decreases |ops|
  {
    if ops != [] {
      var front := ops[..|ops| - 1];
      RunKeepsHolding(c, st, key, hash, content, front);
      assert ops[|ops| - 1] in ops;
      StepKeepsHolding(c, Run(c, st, front), key, hash, content, ops[|ops| - 1]);
    }
  }

  /** Reading a key of a readable store succeeds and yields, in order, the unpacked files of its hashes. */
  lemma {:induction false} ReadableReads(c: Codec, st: Store, hashes: seq<Hash>)
    requires forall h :: h in hashes ==>
      MakePathFromHash(h) in st.files && c.unpack(st.files[MakePathFromHash(h)]).Ok?
    ensures ReadAll(c, st, hashes).Ok? && |ReadAll(c, st, hashes).value| == |hashes|
    ensures forall i :: 0 <= i < |hashes| ==>
      ReadAll(c, st, hashes).value[i] == SplitHeader(c.unpack(st.files[MakePathFromHash(hashes[i])]).value)
    decreases |hashes|
  {
    if hashes != [] {
      var front := hashes[..|hashes| - 1];
      ReadableReads(c, st, front);
      assert hashes[|hashes| - 1] in hashes;
    }
  }

  /** The end-to-end promise: a file saved raw under a NUL-free path reads back exactly, right away and
      after any later harmless run, whatever collisions the digest has. */
  lemma SavedFileReadsBack(c: Codec, st: Store, key: string, path: Bytes, data: Bytes, later: seq<Op>)
    requires RoundTrips(c) && Consistent(st) && Readable(c, st)
    requires 0 !in path && SaveRaw(c, st, key, path, data).1.Ok?
    requires forall op :: op in later ==>
      Harmless(c, key, c.digest(PrepareRawFile(path, data)), PrepareRawFile(path, data), op)
    ensures var end := Run(c, SaveRaw(c, st, key, path, data).0, later);
      var got := ReadAll(c, end, HashesOf(end.rows, key));
      got.Ok? && File(path, data) in got.value
  {
    var content := PrepareRawFile(path, data);
    var hash := c.digest(content);
    RawSaveHolds(c, st, key, path, data);
    var saved := SaveRaw(c, st, key, path, data).0;
    RunKeepsHolding(c, saved, key, hash, content, later);
    var end := Run(c, saved, later);
    var hashes := HashesOf(end.rows, key);
    HashesOfMembers(end.rows, key);
    forall h | h in hashes ensures MakePathFromHash(h) in end.files && c.unpack(end.files[MakePathFromHash(h)]).Ok? {
      assert Row(key, h) in end.rows;
    }
    ReadableReads(c, end, hashes);
    HeaderRoundTripExact(path, data);
    var i :| 0 <= i < |hashes| && hashes[i] == hash;
    assert ReadAll(c, end, hashes).value[i] == File(path, data);
  }

  /** A raw save succeeds exactly if the key is not empty, the digest is not indexed under any key, and no
      file with that digest holds other content. */
  lemma RawSaveSucceedsExactly(c: Codec, st: Store, key: string, path: Bytes, data: Bytes)
    ensures var raw := PrepareRawFile(path, data);
      var place := MakePathFromHash(c.digest(raw));
      SaveRaw(c, st, key, path, data).1.Ok? <==>
        key != "" && !Indexed(st.rows, c.digest(raw)) && (place in st.files ==> st.files[place] == c.pack(raw))
  {
  }
}

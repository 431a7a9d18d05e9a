/** One node's content-addressed store as a value: files named by content hash, prefix folders, index rows. */
module StoreModel {
  import opened Results

  newtype byte = x: int | 0 <= x < 256
  type Bytes = seq<byte>

  /** A hex SHA-1 digest. */
  predicate IsHash(s: string) {
    |s| == 40 && forall c :: c in s ==> '0' <= c <= '9' || 'a' <= c <= 'f'
  }

  type Hash = s: string | IsHash(s) witness "0000000000000000000000000000000000000000"

  const PREFIX_LENGTH := 5
  const DB_CHUNK_SIZE := 100

  /** A path below the base directory. */
  datatype Path = Path(dir: string, name: string)

  function MakePathFromHash(hash: Hash): Path {
    Path(hash[..PREFIX_LENGTH], hash[PREFIX_LENGTH..])
  }

  /** Five characters of the digest name the folder, the others the file. */
  lemma PathsSplitAtFive(h: Hash)
    ensures |MakePathFromHash(h).dir| == 5 && MakePathFromHash(h).dir + MakePathFromHash(h).name == h
  {
  }

  lemma PathsAreInjective(g: Hash, h: Hash)
    ensures MakePathFromHash(g) == MakePathFromHash(h) ==> g == h
  {
    assert g == g[..PREFIX_LENGTH] + g[PREFIX_LENGTH..];
    assert h == h[..PREFIX_LENGTH] + h[PREFIX_LENGTH..];
  }

  /** The functions a storage is configured with. */
  datatype Codec = Codec(digest: Bytes -> Hash, pack: Bytes -> Bytes, unpack: Bytes -> Result<Bytes>)

  ghost predicate RoundTrips(c: Codec) {
    forall d :: c.unpack(c.pack(d)) == Ok(d)
  }

  datatype Row = Row(key: string, hash: Hash)

  datatype Store = Store(files: map<Path, Bytes>, dirs: set<string>, rows: seq<Row>)

  const EMPTY := Store(map[], {}, [])

  // ---------------------------------------------------------------- the index table

  /** Rows of `key` in insertion order, by their hashes. */
  function HashesOf(rows: seq<Row>, key: string): seq<Hash> {
    if rows == [] then []
    else
      var last := rows[|rows| - 1];
      HashesOf(rows[..|rows| - 1], key) + if last.key == key then [last.hash] else []
  }

  /** The table after `delete from keys where key = ?`. */
  function Without(rows: seq<Row>, key: string): seq<Row> {
    if rows == [] then []
    else
      var last := rows[|rows| - 1];
      Without(rows[..|rows| - 1], key) + if last.key == key then [] else [last]
  }

  /** `select distinct key`: keys in the order they first appear. */
  function DistinctKeys(rows: seq<Row>): seq<string> {
    if rows == [] then []
    else
      var keys, last := DistinctKeys(rows[..|rows| - 1]), rows[|rows| - 1].key;
      if last in keys then keys else keys + [last]
  }

  predicate Indexed(rows: seq<Row>, hash: Hash) {
    exists r :: r in rows && r.hash == hash
  }

  ghost predicate UniqueHashes(rows: seq<Row>) {
    forall i, j :: 0 <= i < j < |rows| ==> rows[i].hash != rows[j].hash
  }

  lemma UniqueRow(rows: seq<Row>, r: Row, s: Row)
    requires UniqueHashes(rows) && r in rows && s in rows && r.hash == s.hash
    ensures r == s
  {
    var i :| 0 <= i < |rows| && rows[i] == r;
    var j :| 0 <= j < |rows| && rows[j] == s;
  }

  lemma {:induction false} HashesOfMembers(rows: seq<Row>, key: string)
    ensures forall h :: h in HashesOf(rows, key) <==> Row(key, h) in rows
  {
    if rows != [] {
      var front, last := rows[..|rows| - 1], rows[|rows| - 1];
      HashesOfMembers(front, key);
      assert rows == front + [last];
    }
  }

  /** The hashes of a key, and the rows without a key, keep the order of the table. */
  lemma {:induction false} SelectionsKeepOrder(a: seq<Row>, b: seq<Row>, key: string)
    ensures HashesOf(a + b, key) == HashesOf(a, key) + HashesOf(b, key)
    ensures Without(a + b, key) == Without(a, key) + Without(b, key)
    decreases |b|
  {
    if b == [] {
      assert a + b == a;
    } else {
      var front := b[..|b| - 1];
      assert (a + b)[..|a + b| - 1] == a + front;
      SelectionsKeepOrder(a, front, key);
    }
  }

  lemma {:induction false} HashesOfDistinct(rows: seq<Row>, key: string)
    requires UniqueHashes(rows)
    ensures forall i, j :: 0 <= i < j < |HashesOf(rows, key)| ==> HashesOf(rows, key)[i] != HashesOf(rows, key)[j]
  {
    if rows != [] {
      var front, last := rows[..|rows| - 1], rows[|rows| - 1];
      HashesOfDistinct(front, key);
      HashesOfMembers(front, key);
    }
  }

  lemma {:induction false} WithoutMembers(rows: seq<Row>, key: string)
    ensures forall r :: r in Without(rows, key) <==> r in rows && r.key != key
    ensures UniqueHashes(rows) ==> UniqueHashes(Without(rows, key))
  {
    if rows != [] {
      var front, last := rows[..|rows| - 1], rows[|rows| - 1];
      WithoutMembers(front, key);
      assert rows == front + [last];
      if UniqueHashes(rows) {
        assert UniqueHashes(front);
        var s := Without(front, key);
        forall i | 0 <= i < |s| ensures s[i].hash != last.hash {
          assert s[i] in front;
          var k :| 0 <= k < |front| && front[k] == s[i];
          assert rows[k].hash != rows[|rows| - 1].hash;
        }
      }
    }
  }

  lemma {:induction false} DistinctKeysMembers(rows: seq<Row>)
    ensures forall k :: k in DistinctKeys(rows) <==> exists r :: r in rows && r.key == k
    ensures forall i, j :: 0 <= i < j < |DistinctKeys(rows)| ==> DistinctKeys(rows)[i] != DistinctKeys(rows)[j]
  {
    if rows != [] {
      var front, last := rows[..|rows| - 1], rows[|rows| - 1];
      DistinctKeysMembers(front);
      assert rows == front + [last];
      forall k ensures k in DistinctKeys(rows) <==> exists r :: r in rows && r.key == k {
        if r :| r in rows && r.key == k {
          assert r in front || r == last;
        }
        if k in DistinctKeys(front) {
          var r :| r in front && r.key == k;
          assert r in rows;
        }
        assert last in rows;
      }
    }
  }

  /** The list without some keys, the others in order. */
  function Dropped(keys: seq<string>, gone: set<string>): seq<string> {
    if keys == [] then []
    else
      var last := keys[|keys| - 1];
      Dropped(keys[..|keys| - 1], gone) + if last in gone then [] else [last]
  }

  /** Deleting a key's rows deletes the key from the distinct list and leaves the others in order. */
  lemma {:induction false} DistinctKeysWithout(rows: seq<Row>, key: string)
    ensures DistinctKeys(Without(rows, key)) == Dropped(DistinctKeys(rows), {key})
  {
    if rows != [] {
      var front, last := rows[..|rows| - 1], rows[|rows| - 1];
      DistinctKeysWithout(front, key);
      var keys := DistinctKeys(front);
      DroppedMembers(keys, {key});
      if last.key == key {
        assert Without(rows, key) == Without(front, key);
      } else {
        assert Without(rows, key) == Without(front, key) + [last];
        assert (Without(front, key) + [last])[..|Without(front, key)|] == Without(front, key);
      }
      if last.key !in keys {
        assert (keys + [last.key])[..|keys|] == keys;
        assert last.key == key ==> Dropped(keys + [last.key], {key}) == Dropped(keys, {key});
      }
    }
  }

  lemma {:induction false} DroppedMembers(keys: seq<string>, gone: set<string>)
    ensures forall k :: k in Dropped(keys, gone) <==> k in keys && k !in gone
  {
    if keys != [] {
      DroppedMembers(keys[..|keys| - 1], gone);
      assert keys == keys[..|keys| - 1] + [keys[|keys| - 1]];
    }
  }

  // ---------------------------------------------------------------- single effects

  function WithFolder(st: Store, dir: string): Store {
    st.(dirs := st.dirs + {dir})
  }

  function WithFile(st: Store, path: Path, data: Bytes): Store {
    st.(files := st.files[path := data])
  }

  /** `insert into keys`: refused for an empty key and for a hash that is indexed under any key. */
  function AddRow(st: Store, key: string, hash: Hash): (Store, Result<()>) {
    if key == "" then (st, Err(EmptyKey))
    else if Indexed(st.rows, hash) then (st, Err(HashTaken))
    else (st.(rows := st.rows + [Row(key, hash)]), Ok(()))
  }

  /** `limit 100 offset ?` over the distinct keys. */
  function Page(keys: seq<string>, offset: nat): seq<string> {
    if offset >= |keys| then []
    else if offset + DB_CHUNK_SIZE >= |keys| then keys[offset..]
    else keys[offset..offset + DB_CHUNK_SIZE]
  }

  // ---------------------------------------------------------------- saving

  function SaveCompressed(st: Store, key: string, hash: Hash, data: Bytes): (Store, Result<()>) {
    var path := MakePathFromHash(hash);
    AddRow(WithFile(WithFolder(st, path.dir), path, data), key, hash)
  }

  /** Writes packed data under its digest, unless a file of that name is there: then equal content is kept
      and different content is refused. */
  function WriteFromRawData(c: Codec, st: Store, data: Bytes): (Store, Result<Hash>) {
    var hash := c.digest(data);
    var path := MakePathFromHash(hash);
    var ready := WithFolder(st, path.dir);
    if path !in st.files then (WithFile(ready, path, c.pack(data)), Ok(hash))
    else if st.files[path] == c.pack(data) then (ready, Ok(hash))
    else (ready, Err(ContentDiffers))
  }

  function PrepareRawFile(path: Bytes, data: Bytes): Bytes {
    path + [0] + data
  }

  function SaveRaw(c: Codec, st: Store, key: string, path: Bytes, data: Bytes): (Store, Result<Hash>) {
    var written := WriteFromRawData(c, st, PrepareRawFile(path, data));
    match written.1
    case Err(_) => written
    case Ok(hash) =>
      var added := AddRow(written.0, key, hash);
      (added.0, if added.1.Ok? then Ok(hash) else Err(added.1.error))
  }

  // ---------------------------------------------------------------- reading

  datatype File = File(path: Bytes, data: Bytes)

  /** Position of the first NUL byte at or after `from`; the length if there is none. */
  function FirstNul(file: Bytes, from: nat): (i: nat)
    requires from <= |file|
    ensures from <= i <= |file| && (i < |file| ==> file[i] == 0)
    ensures forall j :: from <= j < i ==> file[j] != 0
    decreases |file| - from
  {
    if from == |file| || file[from] == 0 then from else FirstNul(file, from + 1)
  }

  /** Undoes the header; bytes without a NUL have neither path nor data. */
  function SplitHeader(file: Bytes): File {
    var i := FirstNul(file, 0);
    if i < |file| then File(file[..i], file[i + 1..]) else File([], [])
  }

  function ReadFile(c: Codec, st: Store, path: Path): Result<File> {
    if path !in st.files then Err(FileMissing)
    else
      match c.unpack(st.files[path])
      case Err(_) => Err(Unreadable)
      case Ok(file) => Ok(SplitHeader(file))
  }

  function ReadAll(c: Codec, st: Store, hashes: seq<Hash>): Result<seq<File>>
    decreases |hashes|
  {
    if hashes == [] then Ok([])
    else
      match ReadAll(c, st, hashes[..|hashes| - 1])
      case Err(e) => Err(e)
      case Ok(files) =>
        match ReadFile(c, st, MakePathFromHash(hashes[|hashes| - 1]))
        case Err(e) => Err(e)
        case Ok(file) => Ok(files + [file])
  }

  ghost predicate CanRead(c: Codec, st: Store, h: Hash) {
    MakePathFromHash(h) in st.files && c.unpack(st.files[MakePathFromHash(h)]).Ok?
  }

  /** Reading some files succeeds exactly if each is there and unpacks. */
  lemma {:induction false} ReadsExactly(c: Codec, st: Store, hashes: seq<Hash>)
    ensures ReadAll(c, st, hashes).Ok? <==> forall h :: h in hashes ==> CanRead(c, st, h)
    decreases |hashes|
  {
    if hashes != [] {
      var front, last := hashes[..|hashes| - 1], hashes[|hashes| - 1];
      ReadsExactly(c, st, front);
      assert hashes == front + [last];
      assert forall h :: h in hashes <==> h in front || h == last;
      assert ReadAll(c, st, hashes).Ok? <==> ReadAll(c, st, front).Ok? && CanRead(c, st, last);
    }
  }

  /** Otherwise the first file that is not there or does not unpack tells the error. */
  lemma {:induction false} FailedReadTells(c: Codec, st: Store, hashes: seq<Hash>)
    requires ReadAll(c, st, hashes).Err?
    ensures exists i :: FirstUnreadable(c, st, hashes, i, ReadAll(c, st, hashes).error)
    decreases |hashes|
  {
    var front, n := hashes[..|hashes| - 1], |hashes| - 1;
    if ReadAll(c, st, front).Err? {
      FailedReadTells(c, st, front);
      var i :| FirstUnreadable(c, st, front, i, ReadAll(c, st, front).error);
      assert FirstUnreadable(c, st, hashes, i, ReadAll(c, st, front).error);
    } else {
      ReadsExactly(c, st, front);
      forall j | 0 <= j < n ensures CanRead(c, st, hashes[j]) { assert front[j] in front; }
      assert FirstUnreadable(c, st, hashes, n, ReadAll(c, st, hashes).error);
    }
  }

  ghost predicate FirstUnreadable(c: Codec, st: Store, hashes: seq<Hash>, i: int, error: Error) {
    && 0 <= i < |hashes| && !CanRead(c, st, hashes[i])
    && (forall j :: 0 <= j < i ==> CanRead(c, st, hashes[j]))
    && error == if MakePathFromHash(hashes[i]) in st.files then Unreadable else FileMissing
  }

  /** What is split off is a header and its data, or, without a NUL byte, nothing. */
  lemma SplitHeaderExactly(file: Bytes)
    ensures var f := SplitHeader(file);
      if 0 in file then 0 !in f.path && PrepareRawFile(f.path, f.data) == file else f == File([], [])
  {
    var i := FirstNul(file, 0);
    if i < |file| {
      assert file == file[..i] + [file[i]] + file[i + 1..];
    }
  }

  /** The header is undone exactly for paths without a NUL byte, whatever bytes the data holds. */
  lemma HeaderRoundTripExact(path: Bytes, data: Bytes)
    ensures SplitHeader(PrepareRawFile(path, data)) == File(path, data) <==> 0 !in path
  {
    var file := PrepareRawFile(path, data);
    var i := FirstNul(file, 0);
    assert file[|path|] == 0;
    assert i <= |path|;
    if i == |path| {
      assert file[..i] == path && file[i + 1..] == data;
      forall j | 0 <= j < |path| ensures path[j] != 0 { assert file[j] == path[j]; }
    } else {
      assert path[i] == file[i] == 0;
    }
  }

  // ---------------------------------------------------------------- removing

  function RemoveByHash(st: Store, hash: Hash): (Store, Result<()>) {
    var path := MakePathFromHash(hash);
    if path !in st.files then (st, Err(FileMissing))
    else
      var files := st.files - {path};
      var emptied := forall p :: p in files ==> p.dir != path.dir;
      (st.(files := files, dirs := if emptied then st.dirs - {path.dir} else st.dirs), Ok(()))
  }

  function RemoveHashes(st: Store, hashes: seq<Hash>): (Store, Result<()>)
    decreases |hashes|
  {
    if hashes == [] then (st, Ok(()))
    else
      var before := RemoveHashes(st, hashes[..|hashes| - 1]);
      if before.1.Err? then before else RemoveByHash(before.0, hashes[|hashes| - 1])
  }

  function RemoveByKey(st: Store, key: string): (Store, Result<()>) {
    if key == "" then (st, Err(EmptyKey))
    else
      var cleared := RemoveHashes(st, HashesOf(st.rows, key));
      if cleared.1.Err? then cleared
      else (cleared.0.(rows := Without(st.rows, key)), Ok(()))
  }

  // ---------------------------------------------------------------- consistency of files, folders and index

  ghost function DirsOf(files: map<Path, Bytes>): set<string> {
    set p | p in files :: p.dir
  }

  /** Hashes are unique in the index, every indexed hash has its file, and the folders are exactly the
      prefixes of the stored files. */
  ghost predicate Consistent(st: Store) {
    && UniqueHashes(st.rows)
    && (forall r :: r in st.rows ==> r.key != "" && MakePathFromHash(r.hash) in st.files)
    && st.dirs == DirsOf(st.files)
  }

  lemma AddRowKeepsConsistency(st: Store, key: string, hash: Hash)
    requires Consistent(st) && MakePathFromHash(hash) in st.files
    ensures Consistent(AddRow(st, key, hash).0)
  {
  }

  lemma WriteKeepsConsistency(st: Store, path: Path, data: Bytes)
    requires Consistent(st)
    ensures Consistent(WithFile(WithFolder(st, path.dir), path, data))
  {
    var after := WithFile(WithFolder(st, path.dir), path, data);
    assert after.dirs == DirsOf(after.files) by {
      assert path in after.files;
      forall d ensures d in after.dirs <==> d in DirsOf(after.files) {
        if d in st.dirs {
          var p :| p in st.files && p.dir == d;
          assert p in after.files;
        }
      }
    }
  }

  lemma SavesKeepConsistency(c: Codec, st: Store, key: string, hash: Hash, path: Bytes, data: Bytes)
    requires Consistent(st)
    ensures Consistent(SaveCompressed(st, key, hash, data).0)
    ensures Consistent(SaveRaw(c, st, key, path, data).0)
  {
    var target := MakePathFromHash(hash);
    WriteKeepsConsistency(st, target, data);
    AddRowKeepsConsistency(WithFile(WithFolder(st, target.dir), target, data), key, hash);
    var raw := PrepareRawFile(path, data);
    var digest := c.digest(raw);
    var place := MakePathFromHash(digest);
    WriteKeepsConsistency(st, place, c.pack(raw));
    var written := WriteFromRawData(c, st, raw).0;
    if place in st.files {
      assert WithFolder(st, place.dir) == st;
    }
    assert Consistent(written) && place in written.files;
    AddRowKeepsConsistency(written, key, digest);
  }

  ghost function PathsOf(hashes: seq<Hash>): set<Path> {
    set h | h in hashes :: MakePathFromHash(h)
  }

  lemma {:induction false} RemoveHashesExact(st: Store, hashes: seq<Hash>)
    requires st.dirs == DirsOf(st.files)
    requires forall h :: h in hashes ==> MakePathFromHash(h) in st.files
    requires forall i, j :: 0 <= i < j < |hashes| ==> hashes[i] != hashes[j]
    ensures var files := st.files - PathsOf(hashes);
      RemoveHashes(st, hashes) == (st.(files := files, dirs := DirsOf(files)), Ok(()))
    decreases |hashes|
  {
    if hashes == [] {
      assert st.files - PathsOf(hashes) == st.files;
    } else {
      var front, last := hashes[..|hashes| - 1], hashes[|hashes| - 1];
      assert hashes == front + [last];
      RemoveHashesExact(st, front);
      var before, path := RemoveHashes(st, front).0, MakePathFromHash(last);
      assert path !in PathsOf(front) by {
        forall h | h in front ensures MakePathFromHash(h) != path { PathsAreInjective(h, last); }
      }
      assert PathsOf(hashes) == PathsOf(front) + {path};
      var files := st.files - PathsOf(hashes);
      assert before.files - {path} == files;
      FolderOfRemoved(before.files, path);
    }
  }

  lemma FolderOfRemoved(files: map<Path, Bytes>, path: Path)
    requires path in files
    ensures DirsOf(files - {path}) ==
      if forall p :: p in files - {path} ==> p.dir != path.dir then DirsOf(files) - {path.dir} else DirsOf(files)
  {
    var rest := files - {path};
    forall d ensures d in DirsOf(files) <==> d in DirsOf(rest) || d == path.dir {
      if d in DirsOf(files) {
        var p :| p in files && p.dir == d;
        assert p == path || p in rest;
      }
      assert path in files;
    }
  }

  /** On a consistent store RemoveByKey never meets a missing file: it deletes exactly the key's files and
      rows, the folders that became empty, and nothing else. */
  lemma RemoveByKeyExact(st: Store, key: string)
    requires Consistent(st) && key != ""
    ensures var files := st.files - PathsOf(HashesOf(st.rows, key));
      RemoveByKey(st, key) == (Store(files, DirsOf(files), Without(st.rows, key)), Ok(()))
    ensures Consistent(RemoveByKey(st, key).0)
    ensures forall r :: r in st.rows && r.key != key ==>
      var path := MakePathFromHash(r.hash);
      var after := RemoveByKey(st, key).0;
      r in after.rows && path in after.files && after.files[path] == st.files[path]
  {
    var hashes := HashesOf(st.rows, key);
    HashesOfMembers(st.rows, key);
    HashesOfDistinct(st.rows, key);
    RemoveHashesExact(st, hashes);
    WithoutMembers(st.rows, key);
    forall r | r in st.rows && r.key != key ensures MakePathFromHash(r.hash) !in PathsOf(hashes) {
      forall h | h in hashes ensures MakePathFromHash(h) != MakePathFromHash(r.hash) {
        PathsAreInjective(h, r.hash);
        if h == r.hash { UniqueRow(st.rows, Row(key, h), r); }
      }
    }
  }
}

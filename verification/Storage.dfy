/** The index table, the storage over it, and the service that orders file writes before index writes. */
module Storages {
  import opened Results
  import opened StoreModel

  class DB {
    var rows: seq<Row>

    constructor ()
      ensures rows == []
    {
      rows := [];
    }

    static function RowsOf(key: string, hashes: seq<Hash>): seq<Row> {
      seq(|hashes|, i requires 0 <= i < |hashes| => Row(key, hashes[i]))
    }

    static predicate Insertable(rows: seq<Row>, hashes: seq<Hash>) {
      && (forall h :: h in hashes ==> !Indexed(rows, h))
      && forall i, j :: 0 <= i < j < |hashes| ==> hashes[i] != hashes[j]
    }

    static lemma InsertKeepsUnique(rows: seq<Row>, key: string, hashes: seq<Hash>)
      requires Insertable(rows, hashes)
      ensures UniqueHashes(rows) ==> UniqueHashes(rows + RowsOf(key, hashes))
    {
      forall i, j | 0 <= i < |rows| && 0 <= j < |hashes| ensures rows[i].hash != hashes[j] {
        assert hashes[j] in hashes && rows[i] in rows;
      }
    }

    /** One insert statement: all rows or, if any hash is taken, none. */
    method Add(key: string, hashes: seq<Hash>) returns (r: Result<()>)
      modifies this
      ensures key == "" ==> r == Err(EmptyKey)
      ensures key != "" && hashes == [] ==> r == Err(EmptyHashList)
      ensures key != "" && hashes != [] ==> r == if Insertable(old(rows), hashes) then Ok(()) else Err(HashTaken)
      ensures rows == if r.Ok? then old(rows) + RowsOf(key, hashes) else old(rows)
      ensures old(UniqueHashes(rows)) ==> UniqueHashes(rows)
    {
      if |key| == 0 {
        return Err(EmptyKey);
      }
      if |hashes| == 0 {
        return Err(EmptyHashList);
      }
      var vals: seq<Row> := [];
      for i := 0 to |hashes|
        invariant vals == RowsOf(key, hashes[..i])
      {
        vals := vals + [Row(key, hashes[i])];
      }
      assert hashes[..|hashes|] == hashes;
      if !Insertable(rows, hashes) {
        return Err(HashTaken);
      }
      InsertKeepsUnique(rows, key, hashes);
      rows := rows + vals;
      r := Ok(());
    }

    method GetByKey(key: string) returns (hashes: seq<Hash>)
      ensures hashes == HashesOf(rows, key)
      ensures forall h :: h in hashes <==> Row(key, h) in rows
    {
      hashes := [];
      for i := 0 to |rows|
        invariant hashes == HashesOf(rows[..i], key)
      {
        assert rows[..i + 1][..i] == rows[..i];
        if rows[i].key == key {
          hashes := hashes + [rows[i].hash];
        }
      }
      assert rows[..|rows|] == rows;
      HashesOfMembers(rows, key);
    }

    method GetKeysByChunks(offset: nat) returns (keys: seq<string>)
      ensures keys == Page(DistinctKeys(rows), offset)
      ensures |keys| <= DB_CHUNK_SIZE
    {
      var selected := DistinctKeys(rows);
      keys := [];
      var next := offset;
      while next < |selected| && |keys| < DB_CHUNK_SIZE
        invariant next == offset + |keys| && |keys| <= DB_CHUNK_SIZE
        invariant if offset >= |selected| then keys == [] else next <= |selected| && keys == selected[offset..next]
      {
        keys := keys + [selected[next]];
        next := next + 1;
      }
    }

    method RemoveByKey(key: string)
      modifies this
      ensures rows == Without(old(rows), key)
    {
      rows := Without(rows, key);
    }
  }

  lemma KeyReadsExactly(c: Codec, st: Store, key: string)
    ensures ReadAll(c, st, HashesOf(st.rows, key)).Ok? <==> forall h :: Row(key, h) in st.rows ==> CanRead(c, st, h)
  {
    ReadsExactly(c, st, HashesOf(st.rows, key));
    HashesOfMembers(st.rows, key);
  }

  class Storage {
    const db: DB
    const codec: Codec
    var files: map<Path, Bytes>
    var dirs: set<string>

    constructor (codec: Codec)
      ensures fresh(db) && this.codec == codec && View() == EMPTY
    {
      db := new DB();
      this.codec := codec;
      files := map[];
      dirs := {};
    }

    function View(): Store
      reads this, db
    {
      Store(files, dirs, db.rows)
    }

    method Has(path: Path) returns (ok: bool)
      ensures ok <==> path in files
    {
      ok := path in files;
    }

    method PrepareParentFolders(path: Path)
      modifies this`dirs
      ensures View() == WithFolder(old(View()), path.dir)
    {
      dirs := dirs + {path.dir};
    }

    /** Creating a file needs its folder. */
    method Write(path: Path, data: Bytes) returns (r: Result<()>)
      modifies this`files
      ensures r == if path.dir in dirs then Ok(()) else Err(NoParentFolder)
      ensures View() == if r.Ok? then WithFile(old(View()), path, data) else old(View())
    {
      if path.dir !in dirs {
        return Err(NoParentFolder);
      }
      files := files[path := data];
      r := Ok(());
    }

    method WriteFromRawData(data: Bytes) returns (r: Result<Hash>)
      modifies this
      ensures (View(), r) == StoreModel.WriteFromRawData(codec, old(View()), data)
      ensures forall p :: p in old(files) ==> p in files && files[p] == old(files)[p]
    {
      var hash := codec.digest(data);
      var fullPath := MakePathFromHash(hash);
      var compressed := codec.pack(data);
      PrepareParentFolders(fullPath);
      var present := Has(fullPath);
      if present {
        if files[fullPath] != compressed {
          return Err(ContentDiffers);
        }
        return Ok(hash);
      }
      var written := Write(fullPath, compressed);
      if written.Err? {
        return Err(NoParentFolder);
      }
      r := Ok(hash);
    }

    method AddNewPath(key: string, hash: Hash) returns (r: Result<()>)
      modifies db
      ensures (View(), r) == AddRow(old(View()), key, hash)
    {
      assert [hash][0] == hash;
      assert forall h :: h in [hash] <==> h == hash;
      assert DB.RowsOf(key, [hash]) == [Row(key, hash)];
      r := db.Add(key, [hash]);
    }

    method GetByHash(hash: Hash) returns (r: Result<Bytes>)
      ensures var path := MakePathFromHash(hash);
        r == if path in files then Ok(files[path]) else Err(FileMissing)
    {
      var path := MakePathFromHash(hash);
      if path !in files {
        return Err(FileMissing);
      }
      r := Ok(files[path]);
    }

    method Read(path: Path) returns (r: Result<File>)
      ensures r == ReadFile(codec, View(), path)
    {
      if path !in files {
        return Err(FileMissing);
      }
      var unpacked := codec.unpack(files[path]);
      if unpacked.Err? {
        return Err(Unreadable);
      }
      var file := unpacked.value;
      var originalPath, originalData: Bytes := [], [];
      var i := 0;
      while i < |file|
        invariant 0 <= i <= |file| && originalPath == [] && originalData == []
        invariant FirstNul(file, i) == FirstNul(file, 0)
      {
        if file[i] == 0 {
          originalPath := file[..i];
          originalData := file[i + 1..];
          break;
        }
        i := i + 1;
      }
      r := Ok(File(originalPath, originalData));
    }

    method Get(key: string) returns (r: Result<seq<File>>)
      ensures r == ReadAll(codec, View(), HashesOf(db.rows, key))
      ensures r.Ok? <==> forall h :: Row(key, h) in db.rows ==> CanRead(codec, View(), h)
    {
      KeyReadsExactly(codec, View(), key);
      var hashes := db.GetByKey(key);
      var found: seq<File> := [];
      for i := 0 to |hashes|
        invariant ReadAll(codec, View(), hashes[..i]) == Ok(found)
      {
        assert hashes[..i + 1][..i] == hashes[..i];
        var file := Read(MakePathFromHash(hashes[i]));
        if file.Err? {
          FailedPrefix(hashes, i + 1);
          return Err(file.error);
        }
        found := found + [file.value];
      }
      assert hashes[..|hashes|] == hashes;
      r := Ok(found);
    }

    lemma {:induction false} FailedPrefix(hashes: seq<Hash>, n: nat)
      requires n <= |hashes| && ReadAll(codec, View(), hashes[..n]).Err?
      ensures ReadAll(codec, View(), hashes) == ReadAll(codec, View(), hashes[..n])
      decreases |hashes|
    {
      if n < |hashes| {
        var front := hashes[..|hashes| - 1];
        assert front[..n] == hashes[..n];
        FailedPrefix(front, n);
      } else {
        assert hashes[..n] == hashes;
      }
    }

    method RemoveByHash(hash: Hash) returns (r: Result<()>)
      modifies this
      ensures (View(), r) == StoreModel.RemoveByHash(old(View()), hash)
    {
      var fullPath := MakePathFromHash(hash);
      var present := Has(fullPath);
      if !present {
        return Err(FileMissing);
      }
      files := files - {fullPath};
      if forall p :: p in files ==> p.dir != fullPath.dir {
        dirs := dirs - {fullPath.dir};
      }
      r := Ok(());
    }

    method RemoveByKey(key: string) returns (r: Result<()>)
      modifies this, db
      ensures (View(), r) == StoreModel.RemoveByKey(old(View()), key)
    {
      if |key| == 0 {
        return Err(EmptyKey);
      }
      var hashes := db.GetByKey(key);
      for i := 0 to |hashes|
        invariant db.rows == old(db.rows)
        invariant RemoveHashes(old(View()), hashes[..i]) == (View(), Ok(()))
      {
        assert hashes[..i + 1][..i] == hashes[..i];
        var removed := RemoveByHash(hashes[i]);
        if removed.Err? {
          FailedRemoval(old(View()), hashes, i + 1);
          return Err(removed.error);
        }
      }
      assert hashes[..|hashes|] == hashes;
      db.RemoveByKey(key);
      r := Ok(());
    }
  }

  /** RemoveByKey stops at the first hash that it cannot remove. */
  lemma {:induction false} FailedRemoval(st: Store, hashes: seq<Hash>, n: nat)
    requires n <= |hashes| && RemoveHashes(st, hashes[..n]).1.Err?
    ensures RemoveHashes(st, hashes) == RemoveHashes(st, hashes[..n])
    decreases |hashes|
  {
    if n < |hashes| {
      var front := hashes[..|hashes| - 1];
      assert front[..n] == hashes[..n];
      FailedRemoval(st, front, n);
    } else {
      assert hashes[..n] == hashes;
    }
  }

  /** The file of hash `i` is the first that is missing. */
  ghost predicate FirstMissing(st: Store, hashes: seq<Hash>, i: int) {
    && 0 <= i < |hashes| && MakePathFromHash(hashes[i]) !in st.files
    && forall j :: 0 <= j < i ==> MakePathFromHash(hashes[j]) in st.files
  }

  lemma {:induction false} SomeFirstMissing(st: Store, hashes: seq<Hash>, i: nat) returns (first: nat)
    requires i < |hashes| && MakePathFromHash(hashes[i]) !in st.files
    ensures FirstMissing(st, hashes, first) && first <= i
    decreases i
  {
    if j :| 0 <= j < i && MakePathFromHash(hashes[j]) !in st.files {
      first := SomeFirstMissing(st, hashes, j);
    } else {
      first := i;
    }
  }

  /** A removal that meets a missing file has removed the files before it, and no row. */
  lemma RemovalStops(st: Store, key: string, i: nat)
    requires UniqueHashes(st.rows) && st.dirs == DirsOf(st.files) && key != ""
    requires FirstMissing(st, HashesOf(st.rows, key), i)
    ensures var files := st.files - PathsOf(HashesOf(st.rows, key)[..i]);
      RemoveByKey(st, key) == (Store(files, DirsOf(files), st.rows), Err(FileMissing))
  {
    var hashes := HashesOf(st.rows, key);
    HashesOfDistinct(st.rows, key);
    forall h | h in hashes[..i] ensures MakePathFromHash(h) in st.files {
      var j :| 0 <= j < i && hashes[j] == h;
    }
    RemoveHashesExact(st, hashes[..i]);
    assert hashes[..i + 1][..i] == hashes[..i];
    FailedRemoval(st, hashes, i + 1);
  }

  /** On a store with unique hashes a removal succeeds exactly if no file of the key is missing. */
  lemma RemovalSucceedsExactly(st: Store, key: string)
    requires UniqueHashes(st.rows) && st.dirs == DirsOf(st.files) && key != ""
    ensures RemoveByKey(st, key).1.Ok? <==> forall h :: Row(key, h) in st.rows ==> MakePathFromHash(h) in st.files
  {
    var hashes := HashesOf(st.rows, key);
    HashesOfMembers(st.rows, key);
    HashesOfDistinct(st.rows, key);
    if i: nat :| i < |hashes| && MakePathFromHash(hashes[i]) !in st.files {
      var first := SomeFirstMissing(st, hashes, i);
      RemovalStops(st, key, first);
      assert hashes[i] in hashes;
    } else {
      forall h | h in hashes ensures MakePathFromHash(h) in st.files {
        var j: nat :| j < |hashes| && hashes[j] == h;
      }
      RemoveHashesExact(st, hashes);
    }
  }

  class StorageService {
    const storage: Storage

    constructor (storage: Storage)
      ensures this.storage == storage
    {
      this.storage := storage;
    }

    method SaveCompressed(key: string, contentHash: Hash, data: Bytes) returns (r: Result<()>)
      modifies storage, storage.db
      ensures (storage.View(), r) == StoreModel.SaveCompressed(old(storage.View()), key, contentHash, data)
      ensures r.Ok? <==> key != "" && !Indexed(old(storage.db.rows), contentHash)
      ensures storage.files == old(storage.files)[MakePathFromHash(contentHash) := data]
      ensures storage.db.rows == old(storage.db.rows) + if r.Ok? then [Row(key, contentHash)] else []
    {
      var contentPath := MakePathFromHash(contentHash);
      storage.PrepareParentFolders(contentPath);
      r := storage.Write(contentPath, data);
      if r.Err? {
        return;
      }
      r := storage.AddNewPath(key, contentHash);
    }

    method SaveRaw(key: string, file: File) returns (r: Result<Hash>)
      modifies storage, storage.db
      ensures (storage.View(), r) == StoreModel.SaveRaw(storage.codec, old(storage.View()), key, file.path, file.data)
      ensures forall p :: p in old(storage.files) ==> p in storage.files && storage.files[p] == old(storage.files)[p]
      ensures r.Ok? ==> var raw := PrepareRawFile(file.path, file.data);
        && r.value == storage.codec.digest(raw) && MakePathFromHash(r.value) in storage.files
        && storage.files[MakePathFromHash(r.value)] == storage.codec.pack(raw)
        && storage.db.rows == old(storage.db.rows) + [Row(key, r.value)]
      ensures r.Err? ==> storage.db.rows == old(storage.db.rows)
    {
      var data := PrepareRawFile(file.path, file.data);
      var written := storage.WriteFromRawData(data);
      if written.Err? {
        return written;
      }
      var added := storage.AddNewPath(key, written.value);
      if added.Err? {
        return Err(added.error);
      }
      r := written;
    }

    method GetFileDataByHash(hash: Hash, needDecompression: bool) returns (r: Result<Bytes>)
      ensures var path, st := MakePathFromHash(hash), storage.View();
        r == if path !in st.files then Err(FileMissing)
             else if needDecompression then storage.codec.unpack(st.files[path])
             else Ok(st.files[path])
    {
      var compressed := storage.GetByHash(hash);
      if compressed.Err? {
        return compressed;
      }
      if !needDecompression {
        return compressed;
      }
      r := storage.codec.unpack(compressed.value);
    }
  }
}

/** Moving one packed file between nodes: the chunking sender and the reassembling receiver. */
module Transfers {
  import opened Results
  import opened StoreModel
  import opened Storages
  import opened StoreRuns

  const FILE_CHUNK_SIZE := 32 * 1024
  const TWO_32 := 0x1_0000_0000

  datatype MaybeHash = NoHash | Given(hash: Hash)

  datatype Message =
    | Meta(key: string, contentHash: MaybeHash, filePath: Bytes, compressed: bool, replicate: bool)
    | Data(chunk: Bytes)

  /** How a client stream ends for the receiver. */
  datatype Ending = Eof | Broken

  function Concat(chunks: seq<Bytes>): Bytes {
    if chunks == [] then [] else Concat(chunks[..|chunks| - 1]) + chunks[|chunks| - 1]
  }

  predicate Sendable(chunks: seq<Bytes>) {
    forall c :: c in chunks ==> 0 < |c| <= FILE_CHUNK_SIZE
  }

  // ---------------------------------------------------------------- sender

  /** One read of a file into the reused buffer: end of file, or any positive number of bytes that fits. */
  method Read(file: Bytes, pos: nat, buffer: array<byte>) returns (n: nat, eof: bool)
    requires pos <= |file| && buffer.Length > 0
    modifies buffer
    ensures eof <==> pos == |file|
    ensures !eof ==> 0 < n <= buffer.Length && pos + n <= |file| && buffer[..n] == file[pos..pos + n]
  {
    if pos == |file| {
      return 0, true;
    }
    n :| 0 < n <= buffer.Length && pos + n <= |file|;
    forall i | 0 <= i < n {
      buffer[i] := file[pos + i];
    }
    eof := false;
  }

  /** Sends the file as chunks, for every way the reads split it; a transport fault may abort the sending, which
      has then sent a prefix. */
  method StreamFileByChunks(file: Bytes, reliable: bool) returns (sent: seq<Bytes>, r: Result<()>)
    ensures Sendable(sent) && Concat(sent) <= file
    ensures forall c :: c in sent ==> 0 < |c| <= 32768
    ensures r.Ok? ==> Concat(sent) == file
    ensures reliable ==> r.Ok?
  {
    var buffer := new byte[FILE_CHUNK_SIZE];
    sent := [];
    var pos := 0;
    while true
      invariant pos <= |file| && Sendable(sent) && Concat(sent) == file[..pos]
      decreases |file| - pos
    {
      var n, eof := Read(file, pos, buffer);
      if eof {
        break;
      }
      var broken: bool := *;
      if broken && !reliable {
        return sent, Err(Disconnected);
      }
      var chunk := buffer[..n];
      assert (sent + [chunk])[..|sent|] == sent;
      sent := sent + [chunk];
      pos := pos + n;
    }
    r := Ok(());
  }

  // ---------------------------------------------------------------- receiver

  /** The bytes a sequence of messages after the first carries: refused if any carries none. */
  function Assembled(messages: seq<Message>): Result<Bytes>
    decreases |messages|
  {
    if messages == [] then Ok([])
    else
      var before, last := Assembled(messages[..|messages| - 1]), messages[|messages| - 1];
      if before.Err? then before
      else if last.Meta? || last.chunk == [] then Err(EmptyChunk)
      else Ok(before.value + last.chunk)
  }

  /** What SendChunks leaves in the store and answers: the received size as a uint32. */
  function Received(c: Codec, st: Store, stream: seq<Message>, end: Ending): (Store, Result<nat>) {
    if stream == [] then (st, Err(Disconnected))
    else if stream[0].Data? || stream[0].key == "" then (st, Err(EmptyKey))
    else
      match Assembled(stream[1..])
      case Err(e) => (st, Err(e))
      case Ok(buffer) =>
        var size := |buffer| % TWO_32;
        if end.Broken? then (st, Err(Disconnected))
        else if stream[0].compressed then
          match stream[0].contentHash
          case NoHash => (st, Err(EmptyHash))
          case Given(hash) =>
            var saved := SaveCompressed(st, stream[0].key, hash, buffer);
            (saved.0, if saved.1.Ok? then Ok(size) else Err(saved.1.error))
        else if stream[0].filePath == [] then (st, Err(EmptyPath))
        else
          var saved := SaveRaw(c, st, stream[0].key, stream[0].filePath, buffer);
          (saved.0, if saved.1.Ok? then Ok(size) else Err(saved.1.error))
  }

  /** The row that the upload asks for: its key, and the given hash or the digest of the prepared file. */
  ghost predicate NamesUpload(c: Codec, stream: seq<Message>, r: Row) {
    && stream != [] && stream[0].Meta? && r.key == stream[0].key && Assembled(stream[1..]).Ok?
    && if stream[0].compressed then stream[0].contentHash == Given(r.hash)
       else r.hash == c.digest(PrepareRawFile(stream[0].filePath, Assembled(stream[1..]).value))
  }

  class Transporter {
    const storageService: StorageService
    var replicationSignals: seq<Row>

    constructor (storageService: StorageService)
      ensures this.storageService == storageService && replicationSignals == []
    {
      this.storageService := storageService;
      replicationSignals := [];
    }

    method SendChunks(stream: seq<Message>, end: Ending) returns (r: Result<nat>)
      modifies this, storageService.storage, storageService.storage.db
      ensures var storage := storageService.storage;
        (storage.View(), r) == Received(storage.codec, old(storage.View()), stream, end)
      ensures if r.Ok? && stream[0].replicate
        then |replicationSignals| == |old(replicationSignals)| + 1
          && replicationSignals[..|old(replicationSignals)|] == old(replicationSignals)
          && replicationSignals[|old(replicationSignals)|] in storageService.storage.View().rows
          && NamesUpload(storageService.storage.codec, stream, replicationSignals[|old(replicationSignals)|])
        else replicationSignals == old(replicationSignals)
    {
      if |stream| == 0 {
        return Err(Disconnected);
      }
      var req := stream[0];
      if req.Data? || |req.key| == 0 {
        return Err(EmptyKey);
      }
      var buffer: Bytes := [];
      for i := 1 to |stream|
        invariant Assembled(stream[1..i]) == Ok(buffer)
        invariant storageService.storage.View() == old(storageService.storage.View())
        invariant replicationSignals == old(replicationSignals)
      {
        OneMessage(stream, i);
        if stream[i].Meta? || |stream[i].chunk| == 0 {
          assert stream[1..i + 1] == stream[1..][..i];
          RefusedPrefix(stream[1..], i);
          return Err(EmptyChunk);
        }
        buffer := buffer + stream[i].chunk;
      }
      assert stream[1..|stream|] == stream[1..];
      if end.Broken? {
        return Err(Disconnected);
      }
      var contentHash: Hash;
      if req.compressed {
        if req.contentHash.NoHash? {
          return Err(EmptyHash);
        }
        contentHash := req.contentHash.hash;
        var saved := storageService.SaveCompressed(req.key, contentHash, buffer);
        if saved.Err? {
          return Err(saved.error);
        }
      } else {
        if |req.filePath| == 0 {
          return Err(EmptyPath);
        }
        var saved := storageService.SaveRaw(req.key, File(req.filePath, buffer));
        if saved.Err? {
          return Err(saved.error);
        }
        contentHash := saved.value;
      }
      if req.replicate {
        replicationSignals := replicationSignals + [Row(req.key, contentHash)];
      }
      r := Ok(|buffer| % TWO_32);
    }
  }

  lemma OneMessage(stream: seq<Message>, i: nat)
    requires 1 <= i < |stream|
    ensures var before := Assembled(stream[1..i]);
      Assembled(stream[1..i + 1]) ==
        if before.Err? then before
        else if stream[i].Meta? || stream[i].chunk == [] then Err(EmptyChunk)
        else Ok(before.value + stream[i].chunk)
  {
    var upTo := stream[1..i + 1];
    assert upTo[..|upTo| - 1] == stream[1..i] && upTo[|upTo| - 1] == stream[i];
  }

  /** A refused message refuses the whole stream. */
  lemma {:induction false} RefusedPrefix(messages: seq<Message>, n: nat)
    requires n <= |messages| && Assembled(messages[..n]).Err?
    ensures Assembled(messages) == Assembled(messages[..n])
    decreases |messages|
  {
    if n < |messages| {
      var front := messages[..|messages| - 1];
      assert front[..n] == messages[..n];
      RefusedPrefix(front, n);
    } else {
      assert messages[..n] == messages;
    }
  }

  // ---------------------------------------------------------------- the two ends together

  function DataOf(chunks: seq<Bytes>): seq<Message> {
    seq(|chunks|, i requires 0 <= i < |chunks| => Data(chunks[i]))
  }

  /** The stream that sendFile produces. */
  function StreamOf(key: string, hash: Hash, chunks: seq<Bytes>): seq<Message> {
    [Meta(key, Given(hash), [], true, false)] + DataOf(chunks)
  }

  predicate NoneEmpty(chunks: seq<Bytes>) {
    forall c :: c in chunks ==> c != []
  }

  /** The receiver accepts a stream of chunks exactly if none is empty, and then holds their concatenation. */
  lemma {:induction false} AssembledIsConcat(chunks: seq<Bytes>)
    ensures Assembled(DataOf(chunks)) ==
      if NoneEmpty(chunks) then Ok(Concat(chunks)) else Err(EmptyChunk)
    decreases |chunks|
  {
    if chunks != [] {
      var front, last := chunks[..|chunks| - 1], chunks[|chunks| - 1];
      AssembledIsConcat(front);
      assert chunks == front + [last];
      assert DataOf(chunks)[..|chunks| - 1] == DataOf(front) && DataOf(chunks)[|chunks| - 1] == Data(last);
      assert NoneEmpty(chunks) <==> NoneEmpty(front) && last != [] by {
        assert last in chunks;
        if NoneEmpty(chunks) {
          forall c | c in front ensures c != [] {
            var i :| 0 <= i < |front| && front[i] == c;
            assert chunks[i] in chunks;
          }
        }
      }
      var all := DataOf(chunks);
      assert Assembled(all) ==
        if Assembled(all[..|all| - 1]).Err? then Assembled(all[..|all| - 1])
        else if last == [] then Err(EmptyChunk)
        else Ok(Assembled(all[..|all| - 1]).value + last);
    }
  }

  /** A stream that breaks off stores nothing and is refused, whatever it is. */
  lemma BrokenStreamStoresNothing(c: Codec, st: Store, stream: seq<Message>)
    ensures Received(c, st, stream, Broken).0 == st && Received(c, st, stream, Broken).1.Err?
  {
  }

  /** So does a stream with a message after the first that carries no bytes. */
  lemma BadMessageStoresNothing(c: Codec, st: Store, stream: seq<Message>, end: Ending, i: nat)
    requires 0 < i < |stream| && (stream[i].Meta? || stream[i].chunk == [])
    ensures Received(c, st, stream, end).0 == st && Received(c, st, stream, end).1.Err?
  {
    OneMessage(stream, i);
    assert stream[1..i + 1] == stream[1..][..i];
    RefusedPrefix(stream[1..], i);
  }

  /** A packed upload in any chunking, whatever path and replication flag come with it, is one compressed save
      under the given hash, and reports its length as 32 bits hold it. */
  lemma UploadIsOnePackedSave(c: Codec, st: Store, meta: Message, hash: Hash, chunks: seq<Bytes>)
    requires meta.Meta? && meta.key != "" && meta.compressed && meta.contentHash == Given(hash) && NoneEmpty(chunks)
    ensures var got := Received(c, st, [meta] + DataOf(chunks), Eof);
      && got.0 == SaveCompressed(st, meta.key, hash, Concat(chunks)).0
      && got.1 == if Indexed(st.rows, hash) then Err(HashTaken) else Ok(|Concat(chunks)| % 4294967296)
  {
    AssembledIsConcat(chunks);
    assert ([meta] + DataOf(chunks))[1..] == DataOf(chunks);
  }

  /** An upload that lacks a key, a hash or a path stores nothing. */
  lemma NamelessUploadStoresNothing(c: Codec, st: Store, stream: seq<Message>, end: Ending)
    requires stream != [] ==>
      || stream[0].Data? || stream[0].key == ""
      || (if stream[0].compressed then stream[0].contentHash.NoHash? else stream[0].filePath == [])
    ensures Received(c, st, stream, end).0 == st && Received(c, st, stream, end).1.Err?
  {
  }

  /** Whatever the chunking, a completed sendFile has exactly the effect of saving the sender's bytes under
      their hash at the receiver, and reports their number modulo 2^32. */
  lemma TransferIsOneSave(c: Codec, st: Store, key: string, hash: Hash, file: Bytes, chunks: seq<Bytes>)
    requires key != "" && Sendable(chunks) && Concat(chunks) == file
    ensures var got := Received(c, st, StreamOf(key, hash, chunks), Eof);
      && got.0 == SaveCompressed(st, key, hash, file).0
      && (got.1.Ok? <==> !Indexed(st.rows, hash))
      && (got.1.Ok? ==> got.1.value == |file| % 4294967296)
  {
    AssembledIsConcat(chunks);
    assert StreamOf(key, hash, chunks)[1..] == DataOf(chunks);
  }

  /** A raw upload in any chunking is one raw save of the concatenated chunks. */
  lemma UploadIsOneRawSave(c: Codec, st: Store, meta: Message, chunks: seq<Bytes>)
    requires meta.Meta? && meta.key != "" && !meta.compressed && meta.filePath != [] && NoneEmpty(chunks)
    ensures var got := Received(c, st, [meta] + DataOf(chunks), Eof);
      var saved := SaveRaw(c, st, meta.key, meta.filePath, Concat(chunks));
      && got.0 == saved.0 && (got.1.Ok? <==> saved.1.Ok?)
      && (got.1.Ok? ==> got.1.value == |Concat(chunks)| % 4294967296)
  {
    AssembledIsConcat(chunks);
    assert ([meta] + DataOf(chunks))[1..] == DataOf(chunks);
  }

  /** From a client's chunks to a reader: an uploaded file under a NUL-free path reads back with exactly the
      concatenated chunks, right away and after any later harmless run. */
  lemma UploadReadsBack(c: Codec, st: Store, meta: Message, chunks: seq<Bytes>, later: seq<Op>)
    requires RoundTrips(c) && Consistent(st) && Readable(c, st)
    requires meta.Meta? && !meta.compressed && 0 !in meta.filePath
    requires Received(c, st, [meta] + DataOf(chunks), Eof).1.Ok?
    requires forall op :: op in later ==>
      Harmless(c, meta.key, c.digest(PrepareRawFile(meta.filePath, Concat(chunks))),
               PrepareRawFile(meta.filePath, Concat(chunks)), op)
    ensures var end := Run(c, Received(c, st, [meta] + DataOf(chunks), Eof).0, later);
      var got := ReadAll(c, end, HashesOf(end.rows, meta.key));
      got.Ok? && File(meta.filePath, Concat(chunks)) in got.value
  {
    AssembledIsConcat(chunks);
    assert ([meta] + DataOf(chunks))[1..] == DataOf(chunks);
    UploadIsOneRawSave(c, st, meta, chunks);
    SavedFileReadsBack(c, st, meta.key, meta.filePath, Concat(chunks), later);
  }

  /** An aborted sendFile leaves the receiver's store as it was. */
  lemma BrokenTransferStoresNothing(c: Codec, st: Store, key: string, hash: Hash, chunks: seq<Bytes>)
    ensures Received(c, st, StreamOf(key, hash, chunks), Broken).0 == st
    ensures Received(c, st, StreamOf(key, hash, chunks), Broken).1.Err?
  {
    assert StreamOf(key, hash, chunks)[1..] == DataOf(chunks);
  }
}

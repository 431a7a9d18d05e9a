/** The whole cluster as a state machine: every node rebases on its own, and saves, transfers and removals
    interleave at the grain of one file write, one insert, one file removal, one delete. */
module ClusterMachine {
  import opened StoreModel
  import opened Topologies

  datatype Config = Config(topo: Topology, codec: Codec)

  datatype Status = Started | Written | Accepted | Refused

  /** A save in progress at node `at`: the file is written first, then the row is inserted. */
  datatype Save = Save(at: NodeId, key: string, hash: Hash, bytes: Bytes, raw: bool, status: Status)

  datatype Wait = NoWait | WaitFor(hash: Hash, id: nat)

  /** A key being copied: the hashes still to send, the one whose answer is awaited, and whether any send of
      this key was accepted. */
  datatype Cursor = NoCursor | Cursor(key: string, rest: seq<Hash>, wait: Wait, accepted: bool)

  /** A key being removed: the files still to remove before its rows go. */
  datatype Drop = NoDrop | Drop(key: string, rest: seq<Hash>)

  /** Where a node is in its rebase pass. */
  datatype Phase =
    | Resting
    | Paging(offset: nat)
    | Copying(offset: nat, last: bool, info: set<string>, todo: set<string>, cursor: Cursor)
    | Removing(offset: nat, last: bool, todo: set<string>, drop: Drop)

  datatype Cluster = Cluster(stores: Stores, phases: map<NodeId, Phase>, saves: seq<Save>)

  datatype Step =
    | Signal(n: NodeId)
    | ReadPage(n: NodeId)
    | PickCopy(n: NodeId, key: string)
    | SendHash(n: NodeId, to: NodeId)
    | Confirm(n: NodeId)
    | FinishCopy(n: NodeId)
    | StartRemoving(n: NodeId)
    | PickRemoval(n: NodeId, key: string)
    | DeleteFile(n: NodeId)
    | DeleteRows(n: NodeId)
    | NextPage(n: NodeId)
    | Abort(n: NodeId)
    | RawArrives(at: NodeId, key: string, path: Bytes, data: Bytes)
    | PackedArrives(at: NodeId, key: string, hash: Hash, bytes: Bytes)
    | ReplicaArrives(at: NodeId, key: string, hash: Hash, from: NodeId)
    | WriteSave(id: nat)
    | IndexSave(id: nat)
    | FailSave(id: nat)

  /** The bytes unpack to data whose digest is the hash. */
  ghost predicate Genuine(c: Codec, hash: Hash, bytes: Bytes) {
    c.unpack(bytes).Ok? && c.digest(c.unpack(bytes).value) == hash
  }

  ghost predicate WellFormed(c: Cluster) {
    c.phases.Keys == c.stores.Keys && forall s :: s in c.saves ==> s.at in c.stores
  }

  /** When a step can happen. New rows for a key are sent to the key's home only, and packed uploads carry
      what their hash names. A node aborts its pass at any time, for any reason. */
  ghost predicate Enabled(cfg: Config, c: Cluster, s: Step) {
    && WellFormed(c)
    && match s
       case Signal(n) => n in c.stores && c.phases[n].Resting?
       case ReadPage(n) =>
         && n in c.stores && c.phases[n].Paging?
         && forall key :: key in Page(DistinctKeys(c.stores[n].rows), c.phases[n].offset) ==> cfg.topo.owner(key).Ok?
       case PickCopy(n, key) =>
         n in c.stores && c.phases[n].Copying? && c.phases[n].cursor.NoCursor? && key in c.phases[n].todo
       case SendHash(n, to) =>
         && n in c.stores && to in c.stores && c.phases[n].Copying? && c.phases[n].cursor.Cursor?
         && var cur := c.phases[n].cursor;
            cur.rest != [] && cur.wait.NoWait? && cfg.topo.Home(cur.key, to)
            && MakePathFromHash(cur.rest[0]) in c.stores[n].files
       case Confirm(n) =>
         && n in c.stores && c.phases[n].Copying? && c.phases[n].cursor.Cursor? && c.phases[n].cursor.wait.WaitFor?
         && c.phases[n].cursor.wait.id < |c.saves| && c.saves[c.phases[n].cursor.wait.id].status.Accepted?
       case FinishCopy(n) =>
         && n in c.stores && c.phases[n].Copying? && c.phases[n].cursor.Cursor?
         && c.phases[n].cursor.rest == [] && c.phases[n].cursor.wait.NoWait?
       case StartRemoving(n) =>
         n in c.stores && c.phases[n].Copying? && c.phases[n].cursor.NoCursor? && c.phases[n].todo == {}
       case PickRemoval(n, key) =>
         n in c.stores && c.phases[n].Removing? && c.phases[n].drop.NoDrop? && key in c.phases[n].todo
       case DeleteFile(n) =>
         && n in c.stores && c.phases[n].Removing? && c.phases[n].drop.Drop? && c.phases[n].drop.rest != []
         && MakePathFromHash(c.phases[n].drop.rest[0]) in c.stores[n].files
       case DeleteRows(n) =>
         n in c.stores && c.phases[n].Removing? && c.phases[n].drop.Drop? && c.phases[n].drop.rest == []
       case NextPage(n) => n in c.stores && c.phases[n].Removing? && c.phases[n].drop.NoDrop? && c.phases[n].todo == {}
       case Abort(n) => n in c.stores
       case RawArrives(at, key, _, _) => at in c.stores && cfg.topo.Home(key, at)
       case PackedArrives(at, key, hash, bytes) =>
         at in c.stores && cfg.topo.Home(key, at) && Genuine(cfg.codec, hash, bytes)
       case ReplicaArrives(at, key, hash, from) =>
         at in c.stores && cfg.topo.Home(key, at) && from in c.stores && MakePathFromHash(hash) in c.stores[from].files
       case WriteSave(id) => id < |c.saves| && c.saves[id].status.Started?
       case IndexSave(id) => id < |c.saves| && c.saves[id].status.Written?
       case FailSave(id) => id < |c.saves| && (c.saves[id].status.Started? || c.saves[id].status.Written?)
  }

  function WithPhase(c: Cluster, n: NodeId, phase: Phase): Cluster {
    c.(phases := c.phases[n := phase])
  }

  function WithSave(c: Cluster, save: Save): Cluster {
    c.(saves := c.saves + [save])
  }

  function WithStatus(c: Cluster, id: nat, status: Status): Cluster
    requires id < |c.saves|
  {
    c.(saves := c.saves[id := c.saves[id].(status := status)])
  }

  /** The folder is made first. A raw save keeps an existing file: equal bytes count as written, other bytes refuse
      the save. */
  function AfterWrite(c: Cluster, id: nat): Cluster
    requires id < |c.saves| && c.saves[id].at in c.stores
  {
    var s := c.saves[id];
    var path := MakePathFromHash(s.hash);
    var st := WithFolder(c.stores[s.at], path.dir);
    if s.raw && path in st.files then
      WithStatus(c.(stores := c.stores[s.at := st]), id, if st.files[path] == s.bytes then Written else Refused)
    else
      WithStatus(c.(stores := c.stores[s.at := WithFile(st, path, s.bytes)]), id, Written)
  }

  function AfterIndex(c: Cluster, id: nat): Cluster
    requires id < |c.saves| && c.saves[id].at in c.stores
  {
    var s := c.saves[id];
    var added := AddRow(c.stores[s.at], s.key, s.hash);
    if added.1.Ok? then WithStatus(c.(stores := c.stores[s.at := added.0]), id, Accepted)
    else WithStatus(c, id, Refused)
  }

  ghost function Next(cfg: Config, c: Cluster, s: Step): Cluster
    requires Enabled(cfg, c, s)
  {
    match s
    case Signal(n) => WithPhase(c, n, Paging(0))
    case ReadPage(n) =>
      var keys := Page(DistinctKeys(c.stores[n].rows), c.phases[n].offset);
      var info := MisplacedKeys(cfg.topo, n, keys);
      WithPhase(c, n, Copying(c.phases[n].offset, |keys| < DB_CHUNK_SIZE, info, info, NoCursor))
    case PickCopy(n, key) =>
      WithPhase(c, n, c.phases[n].(todo := c.phases[n].todo - {key},
                                   cursor := Cursor(key, HashesOf(c.stores[n].rows, key), NoWait, false)))
    case SendHash(n, to) =>
      var cur := c.phases[n].cursor;
      var hash := cur.rest[0];
      var save := Save(to, cur.key, hash, c.stores[n].files[MakePathFromHash(hash)], false, Started);
      WithSave(WithPhase(c, n, c.phases[n].(cursor := cur.(rest := cur.rest[1..], wait := WaitFor(hash, |c.saves|)))),
               save)
    case Confirm(n) => WithPhase(c, n, c.phases[n].(cursor := c.phases[n].cursor.(wait := NoWait, accepted := true)))
    case FinishCopy(n) => WithPhase(c, n, c.phases[n].(cursor := NoCursor))
    case StartRemoving(n) => WithPhase(c, n, Removing(c.phases[n].offset, c.phases[n].last, c.phases[n].info, NoDrop))
    case PickRemoval(n, key) =>
      WithPhase(c, n,
                c.phases[n].(todo := c.phases[n].todo - {key}, drop := Drop(key, HashesOf(c.stores[n].rows, key))))
    case DeleteFile(n) =>
      var drop := c.phases[n].drop;
      WithPhase(c.(stores := c.stores[n := RemoveByHash(c.stores[n], drop.rest[0]).0]), n,
                c.phases[n].(drop := drop.(rest := drop.rest[1..])))
    case DeleteRows(n) =>
      var st := c.stores[n];
      WithPhase(c.(stores := c.stores[n := st.(rows := Without(st.rows, c.phases[n].drop.key))]), n,
                c.phases[n].(drop := NoDrop))
    case NextPage(n) =>
      WithPhase(c, n, if c.phases[n].last then Resting else Paging(c.phases[n].offset + DB_CHUNK_SIZE))
    case Abort(n) => WithPhase(c, n, Resting)
    case RawArrives(at, key, path, data) =>
      var raw := PrepareRawFile(path, data);
      WithSave(c, Save(at, key, cfg.codec.digest(raw), cfg.codec.pack(raw), true, Started))
    case PackedArrives(at, key, hash, bytes) => WithSave(c, Save(at, key, hash, bytes, false, Started))
    case ReplicaArrives(at, key, hash, from) =>
      WithSave(c, Save(at, key, hash, c.stores[from].files[MakePathFromHash(hash)], false, Started))
    case WriteSave(id) => AfterWrite(c, id)
    case IndexSave(id) => AfterIndex(c, id)
    case FailSave(id) => WithStatus(c, id, Refused)
  }

  /** `trace` is a run of the cluster through `steps`. */
  ghost predicate IsRun(cfg: Config, trace: seq<Cluster>, steps: seq<Step>) {
    && |trace| == |steps| + 1
    && forall i :: 0 <= i < |steps| ==> StepAt(cfg, trace, steps, i)
  }

  ghost predicate StepAt(cfg: Config, trace: seq<Cluster>, steps: seq<Step>, i: nat)
    requires |trace| == |steps| + 1 && i < |steps|
  {
    Enabled(cfg, trace[i], steps[i]) && trace[i + 1] == Next(cfg, trace[i], steps[i])
  }

  /** A cluster at rest: consistent stores, no pass and no save under way. */
  ghost predicate AtRest(c: Cluster) {
    && WellFormed(c) && AllConsistent(c.stores) && c.saves == []
    && forall n :: n in c.phases ==> c.phases[n].Resting?
  }
}

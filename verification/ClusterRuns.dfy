/** What one node's client does, seen as a run of the cluster machine. */
module ClusterRuns {
  import opened StoreModel
  import opened Storages
  import opened Topologies
  import opened ClusterMachine

  ghost predicate Reaches(cfg: Config, c: Cluster, d: Cluster) {
    exists trace, steps :: IsRun(cfg, trace, steps) && trace[0] == c && trace[|steps|] == d
  }

  lemma ReachesSelf(cfg: Config, c: Cluster)
    ensures Reaches(cfg, c, c)
  {
    assert IsRun(cfg, [c], []) && [c][0] == c;
  }

  lemma ReachesNext(cfg: Config, c: Cluster, m: Cluster, s: Step)
    requires Reaches(cfg, c, m) && Enabled(cfg, m, s)
    ensures Reaches(cfg, c, Next(cfg, m, s))
  {
    var head, steps :| IsRun(cfg, head, steps) && head[0] == c && head[|steps|] == m;
    var tail := [m, Next(cfg, m, s)];
    assert IsRun(cfg, tail, [s]);
    JoinedRun(cfg, head, steps, tail, [s]);
    assert (head + tail[1..])[|steps + [s]|] == Next(cfg, m, s);
  }

  lemma JoinedRun(cfg: Config, head: seq<Cluster>, steps: seq<Step>, tail: seq<Cluster>, more: seq<Step>)
    requires IsRun(cfg, head, steps) && IsRun(cfg, tail, more) && head[|steps|] == tail[0]
    ensures IsRun(cfg, head + tail[1..], steps + more)
  {
    forall i | 0 <= i < |steps + more| ensures StepAt(cfg, head + tail[1..], steps + more, i) {
      if i < |steps| {
        assert StepAt(cfg, head, steps, i);
      } else {
        assert StepAt(cfg, tail, more, i - |steps|);
      }
    }
  }

  lemma ReachesTransitive(cfg: Config, c: Cluster, m: Cluster, d: Cluster)
    requires Reaches(cfg, c, m) && Reaches(cfg, m, d)
    ensures Reaches(cfg, c, d)
  {
    var head, steps :| IsRun(cfg, head, steps) && head[0] == c && head[|steps|] == m;
    var tail, more :| IsRun(cfg, tail, more) && tail[0] == m && tail[|more|] == d;
    JoinedRun(cfg, head, steps, tail, more);
    assert (head + tail[1..])[|steps + more|] == d;
  }

  /** The machine has these stores, and node `n` is in this phase. */
  ghost predicate Tracks(c: Cluster, stores: Stores, n: NodeId, phase: Phase) {
    WellFormed(c) && c.stores == stores && n in stores && c.phases[n] == phase
  }

  /** The machine gets from `c` to `d`, and only `n` has moved; saves may have been added. */
  ghost predicate Gets(cfg: Config, c: Cluster, d: Cluster, n: NodeId) {
    && Reaches(cfg, c, d) && n in d.phases
    && d.phases == c.phases[n := d.phases[n]] && c.saves <= d.saves
  }

  /** Whatever else is going on in the cluster, the machine can take these stores and this phase of `n` to
      those. */
  ghost predicate Performs(cfg: Config, n: NodeId, before: Stores, phase: Phase, after: Stores, next: Phase) {
    forall c :: Tracks(c, before, n, phase) ==> exists d :: Gets(cfg, c, d, n) && Tracks(d, after, n, next)
  }

  lemma PerformsNothing(cfg: Config, n: NodeId, stores: Stores, phase: Phase)
    ensures Performs(cfg, n, stores, phase, stores, phase)
  {
    forall c | Tracks(c, stores, n, phase) ensures Gets(cfg, c, c, n) { ReachesSelf(cfg, c); }
  }

  lemma PerformsMore(cfg: Config, n: NodeId, a: Stores, p: Phase, b: Stores, q: Phase, c: Stores, r: Phase)
    requires Performs(cfg, n, a, p, b, q) && Performs(cfg, n, b, q, c, r)
    ensures Performs(cfg, n, a, p, c, r)
  {
    forall x | Tracks(x, a, n, p) ensures exists d :: Gets(cfg, x, d, n) && Tracks(d, c, n, r) {
      var y :| Gets(cfg, x, y, n) && Tracks(y, b, n, q);
      var d :| Gets(cfg, y, d, n) && Tracks(d, c, n, r);
      ReachesTransitive(cfg, x, y, d);
      assert Gets(cfg, x, d, n);
    }
  }

  /** One step of the machine that changes the stores and the phase of `n` in this way. */
  lemma PerformsStep(cfg: Config, n: NodeId, before: Stores, phase: Phase, s: Step, after: Stores, next: Phase)
    requires forall c :: Tracks(c, before, n, phase) ==>
      Enabled(cfg, c, s) && Next(cfg, c, s) == WithPhase(c.(stores := after), n, next)
    requires after.Keys == before.Keys
    ensures Performs(cfg, n, before, phase, after, next)
  {
    forall c | Tracks(c, before, n, phase) ensures exists d :: Gets(cfg, c, d, n) && Tracks(d, after, n, next) {
      ReachesSelf(cfg, c);
      ReachesNext(cfg, c, c, s);
      assert Gets(cfg, c, Next(cfg, c, s), n);
    }
  }

  // ---------------------------------------------------------------- paging

  lemma SignalRun(cfg: Config, n: NodeId, stores: Stores)
    ensures Performs(cfg, n, stores, Resting, stores, Paging(0))
  {
    PerformsStep(cfg, n, stores, Resting, Signal(n), stores, Paging(0));
  }

  lemma AbortRun(cfg: Config, n: NodeId, stores: Stores, phase: Phase)
    ensures Performs(cfg, n, stores, phase, stores, Resting)
  {
    PerformsStep(cfg, n, stores, phase, Abort(n), stores, Resting);
  }

  lemma ReadRun(cfg: Config, n: NodeId, stores: Stores, offset: nat, keys: seq<string>)
    requires n in stores && keys == Page(DistinctKeys(stores[n].rows), offset)
    requires forall k :: k in keys ==> cfg.topo.owner(k).Ok?
    ensures var info := MisplacedKeys(cfg.topo, n, keys);
      Performs(cfg, n, stores, Paging(offset), stores, Copying(offset, |keys| < DB_CHUNK_SIZE, info, info, NoCursor))
  {
    var info := MisplacedKeys(cfg.topo, n, keys);
    PerformsStep(cfg, n, stores, Paging(offset), ReadPage(n), stores,
                 Copying(offset, |keys| < DB_CHUNK_SIZE, info, info, NoCursor));
  }

  lemma NextPageRun(cfg: Config, n: NodeId, stores: Stores, offset: nat, last: bool)
    ensures Performs(cfg, n, stores, Removing(offset, last, {}, NoDrop), stores,
                     if last then Resting else Paging(offset + DB_CHUNK_SIZE))
  {
    PerformsStep(cfg, n, stores, Removing(offset, last, {}, NoDrop), NextPage(n), stores,
                 if last then Resting else Paging(offset + DB_CHUNK_SIZE));
  }

  // ---------------------------------------------------------------- copying

  /** In the middle of copying `key`: `rest` is still to send. */
  function Midway(p: Phase, key: string, rest: seq<Hash>, accepted: bool): Phase
    requires p.Copying?
  {
    Copying(p.offset, p.last, p.info, p.todo - {key}, Cursor(key, rest, NoWait, accepted))
  }

  function Past(p: Phase, key: string): Phase
    requires p.Copying?
  {
    Copying(p.offset, p.last, p.info, p.todo - {key}, NoCursor)
  }

  lemma PickRun(cfg: Config, n: NodeId, stores: Stores, p: Phase, key: string)
    requires p.Copying? && p.cursor.NoCursor? && key in p.todo && n in stores
    ensures Performs(cfg, n, stores, p, stores, Midway(p, key, HashesOf(stores[n].rows, key), false))
  {
    PerformsStep(cfg, n, stores, p, PickCopy(n, key), stores, Midway(p, key, HashesOf(stores[n].rows, key), false));
  }

  lemma FinishRun(cfg: Config, n: NodeId, stores: Stores, p: Phase, key: string, accepted: bool)
    requires p.Copying?
    ensures Performs(cfg, n, stores, Midway(p, key, [], accepted), stores, Past(p, key))
  {
    PerformsStep(cfg, n, stores, Midway(p, key, [], accepted), FinishCopy(n), stores, Past(p, key));
  }

  /** A send, the file write and the row insert at the receiver, and, if the hash was accepted, the sender's
      confirmation. */
  lemma DeliveryRun(cfg: Config, n: NodeId, stores: Stores, p: Phase, to: NodeId, key: string, rest: seq<Hash>,
                    accepted: bool)
    requires p.Copying? && n in stores && to in stores && cfg.topo.Home(key, to)
    requires rest != [] && MakePathFromHash(rest[0]) in stores[n].files && !Indexed(stores[to].rows, rest[0])
    requires key != ""
    ensures Performs(cfg, n, stores, Midway(p, key, rest, accepted), Delivered(stores, n, to, key, rest[0]),
                     Midway(p, key, rest[1..], true))
  {
    var start, next := Midway(p, key, rest, accepted), Midway(p, key, rest[1..], true);
    var after := Delivered(stores, n, to, key, rest[0]);
    forall c | Tracks(c, stores, n, start) ensures exists d :: Gets(cfg, c, d, n) && Tracks(d, after, n, next) {
      var m := AnswerRun(cfg, n, stores, start, to, c);
      ReachesNext(cfg, c, m, Confirm(n));
      var d := Next(cfg, m, Confirm(n));
      assert Gets(cfg, c, d, n) && Tracks(d, after, n, next);
    }
  }

  /** The same when the sender gives up, because the hash was refused or the answer was lost. */
  lemma LostDeliveryRun(cfg: Config, n: NodeId, stores: Stores, p: Phase, to: NodeId, key: string, rest: seq<Hash>,
                        accepted: bool)
    requires p.Copying? && n in stores && to in stores && cfg.topo.Home(key, to)
    requires rest != [] && MakePathFromHash(rest[0]) in stores[n].files
    ensures Performs(cfg, n, stores, Midway(p, key, rest, accepted), Delivered(stores, n, to, key, rest[0]), Resting)
  {
    var start := Midway(p, key, rest, accepted);
    var after := Delivered(stores, n, to, key, rest[0]);
    forall c | Tracks(c, stores, n, start) ensures exists d :: Gets(cfg, c, d, n) && Tracks(d, after, n, Resting) {
      var m := AnswerRun(cfg, n, stores, start, to, c);
      ReachesNext(cfg, c, m, Abort(n));
      var d := Next(cfg, m, Abort(n));
      assert Gets(cfg, c, d, n) && Tracks(d, after, n, Resting);
    }
  }

  /** What a client may make of one send. */
  ghost predicate SendOutcome(n: NodeId, to: NodeId, key: string, hash: Hash, now: Stores, after: Stores, ok: bool) {
    && n in now && (ok ==> to in now && MakePathFromHash(hash) in now[n].files && !Indexed(now[to].rows, hash))
    && (after != now ==> to in now && MakePathFromHash(hash) in now[n].files)
    && (ok || after != now ==> after == Delivered(now, n, to, key, hash))
  }

  lemma SendRun(cfg: Config, n: NodeId, first: Stores, p: Phase, to: NodeId, key: string, hashes: seq<Hash>, i: nat,
                now: Stores, after: Stores, ok: bool)
    requires p.Copying? && key != "" && cfg.topo.Home(key, to) && i < |hashes|
    requires Performs(cfg, n, first, p, now, Midway(p, key, hashes[i..], i > 0))
    requires SendOutcome(n, to, key, hashes[i], now, after, ok)
    ensures ok ==> Performs(cfg, n, first, p, after, Midway(p, key, hashes[i + 1..], true))
    ensures !ok ==> Performs(cfg, n, first, p, after, Resting)
  {
    var rest := hashes[i..];
    var q := Midway(p, key, rest, i > 0);
    assert rest[0] == hashes[i] && rest[1..] == hashes[i + 1..];
    if ok {
      DeliveryRun(cfg, n, now, p, to, key, rest, i > 0);
      PerformsMore(cfg, n, first, p, now, q, after, Midway(p, key, hashes[i + 1..], true));
    } else {
      if after == now {
        AbortRun(cfg, n, now, q);
      } else {
        LostDeliveryRun(cfg, n, now, p, to, key, rest, i > 0);
      }
      PerformsMore(cfg, n, first, p, now, q, after, Resting);
    }
  }

  lemma AnswerRun(cfg: Config, n: NodeId, stores: Stores, start: Phase, to: NodeId, c: Cluster) returns (d: Cluster)
    requires n in stores && to in stores && Tracks(c, stores, n, start)
    requires start.Copying? && start.cursor.Cursor? && start.cursor.rest != [] && start.cursor.wait.NoWait?
    requires cfg.topo.Home(start.cursor.key, to) && MakePathFromHash(start.cursor.rest[0]) in stores[n].files
    ensures var cur := start.cursor;
      && Gets(cfg, c, d, n) && |d.saves| == |c.saves| + 1
      && Tracks(d, Delivered(stores, n, to, cur.key, cur.rest[0]), n,
                start.(cursor := cur.(rest := cur.rest[1..], wait := WaitFor(cur.rest[0], |c.saves|))))
      && (d.saves[|c.saves|].status.Accepted? <==> cur.key != "" && !Indexed(stores[to].rows, cur.rest[0]))
  {
    ReachesSelf(cfg, c);
    ReachesNext(cfg, c, c, SendHash(n, to));
    var sent := Next(cfg, c, SendHash(n, to));
    d := SaveRun(cfg, c, sent, |c.saves|);
  }

  /** A packed save from start to answer has the effect of SaveCompressed. */
  lemma SaveRun(cfg: Config, first: Cluster, c: Cluster, id: nat) returns (d: Cluster)
    requires Reaches(cfg, first, c) && WellFormed(c)
    requires id < |c.saves| && c.saves[id].at in c.stores && c.saves[id].status.Started? && !c.saves[id].raw
    ensures Reaches(cfg, first, d) && WellFormed(d) && d.phases == c.phases
    ensures var s := c.saves[id];
      d.stores == c.stores[s.at := SaveCompressed(c.stores[s.at], s.key, s.hash, s.bytes).0]
    ensures id < |d.saves| && d.saves == c.saves[id := c.saves[id].(status := d.saves[id].status)]
    ensures var s := c.saves[id];
      d.saves[id].status.Accepted? <==> SaveCompressed(c.stores[s.at], s.key, s.hash, s.bytes).1.Ok?
  {
    ReachesNext(cfg, first, c, WriteSave(id));
    var w := Next(cfg, c, WriteSave(id));
    StillWellFormed(c, w, id);
    ReachesNext(cfg, first, w, IndexSave(id));
    d := Next(cfg, w, IndexSave(id));
    StillWellFormed(w, d, id);
  }

  /** A raw save that starts with the prepared file has the effect of SaveRaw: a digest that is there already with
      the same bytes is only indexed, with other bytes it refuses the save. */
  lemma RawSaveRun(cfg: Config, first: Cluster, c: Cluster, id: nat, path: Bytes, data: Bytes) returns (d: Cluster)
    requires Reaches(cfg, first, c) && WellFormed(c) && id < |c.saves| && c.saves[id].at in c.stores
    requires var raw := PrepareRawFile(path, data);
      c.saves[id] == Save(c.saves[id].at, c.saves[id].key, cfg.codec.digest(raw), cfg.codec.pack(raw), true, Started)
    ensures Reaches(cfg, first, d) && WellFormed(d) && d.phases == c.phases
    ensures id < |d.saves| && d.saves == c.saves[id := c.saves[id].(status := d.saves[id].status)]
    ensures var s := c.saves[id];
      && d.stores == c.stores[s.at := SaveRaw(cfg.codec, c.stores[s.at], s.key, path, data).0]
      && (d.saves[id].status.Accepted? <==> SaveRaw(cfg.codec, c.stores[s.at], s.key, path, data).1.Ok?)
  {
    ReachesNext(cfg, first, c, WriteSave(id));
    var w := Next(cfg, c, WriteSave(id));
    StillWellFormed(c, w, id);
    if w.saves[id].status.Written? {
      ReachesNext(cfg, first, w, IndexSave(id));
      d := Next(cfg, w, IndexSave(id));
      StillWellFormed(w, d, id);
    } else {
      d := w;
    }
  }

  // ---------------------------------------------------------------- uploads

  /** A raw upload to the key's home, saved with nothing in between, has the effect of SaveRaw there and none
      elsewhere. */
  lemma RawUploadRun(cfg: Config, c: Cluster, at: NodeId, key: string, path: Bytes, data: Bytes) returns (d: Cluster)
    requires WellFormed(c) && at in c.stores && cfg.topo.Home(key, at)
    ensures Reaches(cfg, c, d) && d.phases == c.phases && |d.saves| == |c.saves| + 1 && c.saves <= d.saves
    ensures d.stores == c.stores[at := SaveRaw(cfg.codec, c.stores[at], key, path, data).0]
    ensures d.saves[|c.saves|].status.Accepted? <==> SaveRaw(cfg.codec, c.stores[at], key, path, data).1.Ok?
  {
    ReachesSelf(cfg, c);
    ReachesNext(cfg, c, c, RawArrives(at, key, path, data));
    d := RawSaveRun(cfg, c, Next(cfg, c, RawArrives(at, key, path, data)), |c.saves|, path, data);
  }

  /** A packed upload likewise has the effect of SaveCompressed. */
  lemma PackedUploadRun(cfg: Config, c: Cluster, at: NodeId, key: string, hash: Hash, bytes: Bytes) returns (d: Cluster)
    requires WellFormed(c) && at in c.stores && cfg.topo.Home(key, at) && Genuine(cfg.codec, hash, bytes)
    ensures Reaches(cfg, c, d) && d.phases == c.phases && |d.saves| == |c.saves| + 1 && c.saves <= d.saves
    ensures d.stores == c.stores[at := SaveCompressed(c.stores[at], key, hash, bytes).0]
    ensures d.saves[|c.saves|].status.Accepted? <==> SaveCompressed(c.stores[at], key, hash, bytes).1.Ok?
  {
    ReachesSelf(cfg, c);
    ReachesNext(cfg, c, c, PackedArrives(at, key, hash, bytes));
    d := SaveRun(cfg, c, Next(cfg, c, PackedArrives(at, key, hash, bytes)), |c.saves|);
  }

  /** A save may fail before its file is written, and after it with the file left behind. */
  lemma FailedSaveRun(cfg: Config, first: Cluster, c: Cluster, id: nat, written: bool) returns (d: Cluster)
    requires Reaches(cfg, first, c) && WellFormed(c)
    requires id < |c.saves| && c.saves[id].at in c.stores && c.saves[id].status.Started? && !c.saves[id].raw
    ensures Reaches(cfg, first, d) && d.phases == c.phases && id < |d.saves| && d.saves[id].status.Refused?
    ensures var s, path := c.saves[id], MakePathFromHash(c.saves[id].hash);
      d.stores == if written then c.stores[s.at := WithFile(WithFolder(c.stores[s.at], path.dir), path, s.bytes)]
                  else c.stores
  {
    var w := c;
    if written {
      ReachesNext(cfg, first, c, WriteSave(id));
      w := Next(cfg, c, WriteSave(id));
      StillWellFormed(c, w, id);
    }
    ReachesNext(cfg, first, w, FailSave(id));
    d := Next(cfg, w, FailSave(id));
  }

  lemma StillWellFormed(c: Cluster, d: Cluster, id: nat)
    requires WellFormed(c) && id < |c.saves| == |d.saves| && d.phases == c.phases && d.stores.Keys == c.stores.Keys
    requires d.saves == c.saves[id := c.saves[id].(status := d.saves[id].status)]
    ensures WellFormed(d)
  {
    forall s | s in d.saves ensures s.at in d.stores {
      var i :| 0 <= i < |d.saves| && d.saves[i] == s;
      assert c.saves[i] in c.saves;
    }
  }

  // ---------------------------------------------------------------- replicating

  /** A replica sent by `n` and saved at its home, or lost on the way, is a run in any phase of `n`. */
  lemma ReplicaRun(cfg: Config, n: NodeId, first: Stores, p: Phase, to: NodeId, key: string, hash: Hash,
                   now: Stores, after: Stores, ok: bool)
    requires cfg.topo.Home(key, to) && SendOutcome(n, to, key, hash, now, after, ok)
    requires Performs(cfg, n, first, p, now, p)
    ensures Performs(cfg, n, first, p, after, p)
  {
    if ok || after != now {
      forall c | Tracks(c, now, n, p) ensures exists d :: Gets(cfg, c, d, n) && Tracks(d, after, n, p) {
        ReachesSelf(cfg, c);
        ReachesNext(cfg, c, c, ReplicaArrives(to, key, hash, n));
        var sent := Next(cfg, c, ReplicaArrives(to, key, hash, n));
        var d := SaveRun(cfg, c, sent, |c.saves|);
        assert Gets(cfg, c, d, n);
      }
      PerformsMore(cfg, n, first, p, now, p, after, p);
    }
  }

  // ---------------------------------------------------------------- removing

  lemma StartRun(cfg: Config, n: NodeId, stores: Stores, offset: nat, last: bool, info: set<string>)
    ensures Performs(cfg, n, stores, Copying(offset, last, info, {}, NoCursor), stores,
                     Removing(offset, last, info, NoDrop))
  {
    PerformsStep(cfg, n, stores, Copying(offset, last, info, {}, NoCursor), StartRemoving(n), stores,
                 Removing(offset, last, info, NoDrop));
  }

  /** Removing one key, file by file and then its rows, has the effect of RemoveByKey. */
  lemma RemovalRun(cfg: Config, n: NodeId, stores: Stores, offset: nat, last: bool, todo: set<string>, key: string)
    requires n in stores && key in todo && key != "" && RemoveByKey(stores[n], key).1.Ok?
    ensures Performs(cfg, n, stores, Removing(offset, last, todo, NoDrop), stores[n := RemoveByKey(stores[n], key).0],
                     Removing(offset, last, todo - {key}, NoDrop))
  {
    var hashes, left := HashesOf(stores[n].rows, key), todo - {key};
    var start, picked := Removing(offset, last, todo, NoDrop), Removing(offset, last, left, Drop(key, hashes));
    var cleared, bare := stores[n := RemoveHashes(stores[n], hashes).0], Removing(offset, last, left, Drop(key, []));
    PickRemovalRun(cfg, n, stores, offset, last, todo, key);
    FilesRun(cfg, n, stores, offset, last, left, key, hashes, |hashes|);
    assert hashes[..|hashes|] == hashes && hashes[|hashes|..] == [];
    PerformsMore(cfg, n, stores, start, stores, picked, cleared, bare);
    RowsRun(cfg, n, stores, offset, last, left, key);
    PerformsMore(cfg, n, stores, start, cleared, bare, stores[n := RemoveByKey(stores[n], key).0],
                 Removing(offset, last, left, NoDrop));
  }

  lemma PickRemovalRun(cfg: Config, n: NodeId, stores: Stores, offset: nat, last: bool, todo: set<string>, key: string)
    requires n in stores && key in todo
    ensures Performs(cfg, n, stores, Removing(offset, last, todo, NoDrop),
                     stores, Removing(offset, last, todo - {key}, Drop(key, HashesOf(stores[n].rows, key))))
  {
    PerformsStep(cfg, n, stores, Removing(offset, last, todo, NoDrop), PickRemoval(n, key),
                 stores, Removing(offset, last, todo - {key}, Drop(key, HashesOf(stores[n].rows, key))));
  }

  lemma RowsRun(cfg: Config, n: NodeId, stores: Stores, offset: nat, last: bool, todo: set<string>, key: string)
    requires n in stores && key != "" && RemoveByKey(stores[n], key).1.Ok?
    ensures var cleared := stores[n := RemoveHashes(stores[n], HashesOf(stores[n].rows, key)).0];
      Performs(cfg, n, cleared, Removing(offset, last, todo, Drop(key, [])),
               stores[n := RemoveByKey(stores[n], key).0], Removing(offset, last, todo, NoDrop))
  {
    var hashes, after := HashesOf(stores[n].rows, key), stores[n := RemoveByKey(stores[n], key).0];
    var cleared := stores[n := RemoveHashes(stores[n], hashes).0];
    RowsStay(stores[n], hashes);
    assert cleared[n := after[n]] == after;
    PerformsStep(cfg, n, cleared, Removing(offset, last, todo, Drop(key, [])), DeleteRows(n), after,
                 Removing(offset, last, todo, NoDrop));
  }

  lemma {:induction false} RowsStay(st: Store, hashes: seq<Hash>)
    ensures RemoveHashes(st, hashes).0.rows == st.rows
    decreases |hashes|
  {
    if hashes != [] { RowsStay(st, hashes[..|hashes| - 1]); }
  }

  /** The first `i` files, one step each. */
  lemma {:induction false} FilesRun(cfg: Config, n: NodeId, stores: Stores, offset: nat, last: bool, todo: set<string>,
                                    key: string, hashes: seq<Hash>, i: nat)
    requires i <= |hashes| && n in stores && RemoveHashes(stores[n], hashes).1.Ok?
    ensures Performs(cfg, n, stores, Removing(offset, last, todo, Drop(key, hashes)),
                     stores[n := RemoveHashes(stores[n], hashes[..i]).0],
                     Removing(offset, last, todo, Drop(key, hashes[i..])))
    decreases i
  {
    var st, start := stores[n], Removing(offset, last, todo, Drop(key, hashes));
    if i == 0 {
      PerformsNothing(cfg, n, stores, start);
      assert hashes[0..] == hashes && stores[n := st] == stores;
    } else {
      FilesRun(cfg, n, stores, offset, last, todo, key, hashes, i - 1);
      FileRun(cfg, n, stores, offset, last, todo, key, hashes, i);
      PerformsMore(cfg, n, stores, start,
                   stores[n := RemoveHashes(st, hashes[..i - 1]).0], Removing(offset, last, todo,
                                                                              Drop(key, hashes[i - 1..])),
                   stores[n := RemoveHashes(st, hashes[..i]).0], Removing(offset, last, todo, Drop(key, hashes[i..])));
    }
  }

  lemma FileRun(cfg: Config, n: NodeId, stores: Stores, offset: nat, last: bool, todo: set<string>, key: string,
                hashes: seq<Hash>, i: nat)
    requires 0 < i <= |hashes| && n in stores && RemoveHashes(stores[n], hashes).1.Ok?
    ensures Performs(cfg, n, stores[n := RemoveHashes(stores[n], hashes[..i - 1]).0],
                     Removing(offset, last, todo, Drop(key, hashes[i - 1..])),
                     stores[n := RemoveHashes(stores[n], hashes[..i]).0],
                     Removing(offset, last, todo, Drop(key, hashes[i..])))
  {
    var st := stores[n];
    var now := stores[n := RemoveHashes(st, hashes[..i - 1]).0];
    assert hashes[..i][..i - 1] == hashes[..i - 1] && hashes[..i][i - 1] == hashes[i - 1];
    assert hashes[i - 1..][1..] == hashes[i..];
    if RemoveHashes(st, hashes[..i]).1.Err? {
      FailedRemoval(st, hashes, i);
    }
    OneFileRun(cfg, n, now, offset, last, todo, key, hashes[i - 1..]);
    assert now[n := RemoveHashes(st, hashes[..i]).0] == stores[n := RemoveHashes(st, hashes[..i]).0];
  }

  lemma OneFileRun(cfg: Config, n: NodeId, stores: Stores, offset: nat, last: bool, todo: set<string>, key: string,
                   rest: seq<Hash>)
    requires n in stores && rest != [] && MakePathFromHash(rest[0]) in stores[n].files
    ensures Performs(cfg, n, stores, Removing(offset, last, todo, Drop(key, rest)),
                     stores[n := RemoveByHash(stores[n], rest[0]).0], Removing(offset, last, todo,
                                                                               Drop(key, rest[1..])))
  {
    PerformsStep(cfg, n, stores, Removing(offset, last, todo, Drop(key, rest)), DeleteFile(n),
                 stores[n := RemoveByHash(stores[n], rest[0]).0], Removing(offset, last, todo, Drop(key, rest[1..])));
  }
}

/** A run in which an accepted save is left without its file at its home: why the no-loss result promises the
    hash on some node, and not every accepted row with its file. */
module ClusterWitness {
  import opened StoreModel
  import opened Topologies
  import opened ClusterMachine
  import opened ClusterRuns
  import opened ClusterSafety

  /** Two nodes: `n` does what `phase` says, `m` rests. */
  function Two(n: NodeId, m: NodeId, st0: Store, st1: Store, phase: Phase, saves: seq<Save>): Cluster {
    Cluster(map[n := st0, m := st1], map[n := phase, m := Resting], saves)
  }

  function Full(hash: Hash, bytes: Bytes, rows: seq<Row>): Store {
    var path := MakePathFromHash(hash);
    Store(map[path := bytes], {path.dir}, rows)
  }

  /** `n` is home to `a`; `m`, another node, is home to `b`. */
  ghost predicate Scene(cfg: Config, n: NodeId, m: NodeId, a: string, b: string, hash: Hash, bytes: Bytes) {
    && n != m && a != "" && b != ""
    && cfg.topo.Home(a, n) && cfg.topo.Home(b, m) && cfg.topo.Misplaced(n, b)
    && Genuine(cfg.codec, hash, bytes)
  }

  ghost predicate Moves(cfg: Config, c: Cluster, s: Step, d: Cluster) {
    Enabled(cfg, c, s) && Next(cfg, c, s) == d
  }

  lemma GoesOn(cfg: Config, first: Cluster, c: Cluster, s: Step, d: Cluster)
    requires Reaches(cfg, first, c) && Moves(cfg, c, s, d)
    ensures Reaches(cfg, first, d)
  {
    ReachesNext(cfg, first, c, s);
  }

  ghost predicate AtTwo(n: NodeId, m: NodeId, saves: seq<Save>) {
    forall s :: s in saves ==> s.at == n || s.at == m
  }

  lemma TwoIsWellFormed(n: NodeId, m: NodeId, st0: Store, st1: Store, phase: Phase, saves: seq<Save>)
    requires n != m && AtTwo(n, m, saves)
    ensures WellFormed(Two(n, m, st0, st1, phase, saves))
  {
  }

  /** A step of `n` that changes its phase and perhaps its store. */
  lemma NodeMoves(cfg: Config, n: NodeId, m: NodeId, st0: Store, st1: Store, phase: Phase, saves: seq<Save>, s: Step,
                  after: Store, next: Phase)
    requires n != m && Enabled(cfg, Two(n, m, st0, st1, phase, saves), s)
    requires var c := Two(n, m, st0, st1, phase, saves);
      Next(cfg, c, s) == WithPhase(c.(stores := c.stores[n := after]), n, next)
    ensures Moves(cfg, Two(n, m, st0, st1, phase, saves), s, Two(n, m, after, st1, next, saves))
  {
    TwoUpdated(n, m, st0, st1, phase, saves, after, next);
  }

  lemma TwoUpdated(n: NodeId, m: NodeId, st0: Store, st1: Store, phase: Phase, saves: seq<Save>, after: Store,
                   next: Phase)
    requires n != m
    ensures var c := Two(n, m, st0, st1, phase, saves);
      WithPhase(c.(stores := c.stores[n := after]), n, next) == Two(n, m, after, st1, next, saves)
  {
    var c := Two(n, m, st0, st1, phase, saves);
    assert c.stores[n := after] == map[n := after, m := st1];
    assert c.phases[n := next] == map[n := next, m := Resting];
  }

  lemma PhaseMoves(cfg: Config, n: NodeId, m: NodeId, st0: Store, st1: Store, phase: Phase, saves: seq<Save>, s: Step,
                   next: Phase)
    requires n != m && Enabled(cfg, Two(n, m, st0, st1, phase, saves), s)
    requires Next(cfg, Two(n, m, st0, st1, phase, saves), s) == WithPhase(Two(n, m, st0, st1, phase, saves), n, next)
    ensures Moves(cfg, Two(n, m, st0, st1, phase, saves), s, Two(n, m, st0, st1, next, saves))
  {
    var c := Two(n, m, st0, st1, phase, saves);
    assert c.stores[n := st0] == c.stores;
    NodeMoves(cfg, n, m, st0, st1, phase, saves, s, st0, next);
  }

  lemma OneRow(key: string, hash: Hash)
    ensures DistinctKeys([Row(key, hash)]) == [key] && HashesOf([Row(key, hash)], key) == [hash]
    ensures Without([Row(key, hash)], key) == []
  {
    var rows := [Row(key, hash)];
    assert rows[..0] == [];
    assert DistinctKeys(rows[..0]) == [] && HashesOf(rows[..0], key) == [] && Without(rows[..0], key) == [];
  }

  // ---------------------------------------------------------------- `n` copies `b` to `m`

  lemma ReadMoves(cfg: Config, n: NodeId, m: NodeId, b: string, hash: Hash, st0: Store)
    requires n != m && cfg.topo.Home(b, m) && cfg.topo.Misplaced(n, b) && st0.rows == [Row(b, hash)]
    ensures Moves(cfg, Two(n, m, st0, EMPTY, Paging(0), []), ReadPage(n),
                  Two(n, m, st0, EMPTY, Copying(0, true, {b}, {b}, NoCursor), []))
  {
    OneRow(b, hash);
    assert Page([b], 0) == [b];
    assert MisplacedKeys(cfg.topo, n, [b]) == {b};
    TwoIsWellFormed(n, m, st0, EMPTY, Paging(0), []);
    PhaseMoves(cfg, n, m, st0, EMPTY, Paging(0), [], ReadPage(n), Copying(0, true, {b}, {b}, NoCursor));
  }

  lemma PickMoves(cfg: Config, n: NodeId, m: NodeId, b: string, hash: Hash, st0: Store)
    requires n != m && st0.rows == [Row(b, hash)]
    ensures Moves(cfg, Two(n, m, st0, EMPTY, Copying(0, true, {b}, {b}, NoCursor), []), PickCopy(n, b),
                  Two(n, m, st0, EMPTY, Copying(0, true, {b}, {}, Cursor(b, [hash], NoWait, false)), []))
  {
    OneRow(b, hash);
    var phase := Copying(0, true, {b}, {b}, NoCursor);
    TwoIsWellFormed(n, m, st0, EMPTY, phase, []);
    assert {b} - {b} == {};
    PhaseMoves(cfg, n, m, st0, EMPTY, phase, [], PickCopy(n, b),
               Copying(0, true, {b}, {}, Cursor(b, [hash], NoWait, false)));
  }

  lemma SendMoves(cfg: Config, n: NodeId, m: NodeId, b: string, hash: Hash, bytes: Bytes, st0: Store)
    requires n != m && cfg.topo.Home(b, m) && MakePathFromHash(hash) in st0.files
    requires st0.files[MakePathFromHash(hash)] == bytes
    ensures Moves(cfg, Two(n, m, st0, EMPTY, Copying(0, true, {b}, {}, Cursor(b, [hash], NoWait, false)), []),
                  SendHash(n, m),
                  Two(n, m, st0, EMPTY, Copying(0, true, {b}, {}, Cursor(b, [], WaitFor(hash, 0), false)),
                      [Save(m, b, hash, bytes, false, Started)]))
  {
    var phase := Copying(0, true, {b}, {}, Cursor(b, [hash], NoWait, false));
    var next := Copying(0, true, {b}, {}, Cursor(b, [], WaitFor(hash, 0), false));
    TwoIsWellFormed(n, m, st0, EMPTY, phase, []);
    var c := Two(n, m, st0, EMPTY, phase, []);
    assert [hash][1..] == [];
    assert c.phases[n := next] == map[n := next, m := Resting];
    assert c.saves + [Save(m, b, hash, bytes, false, Started)] == [Save(m, b, hash, bytes, false, Started)];
  }

  /** Save `id` writes its file at `m` (the first save) or at `n` (the second). */
  lemma WriteMoves(cfg: Config, n: NodeId, m: NodeId, st0: Store, st1: Store, phase: Phase, saves: seq<Save>, id: nat,
                   after: Store)
    requires n != m && id < |saves| && AtTwo(n, m, saves) && saves[id].status.Started? && !saves[id].raw
    requires var path, st := MakePathFromHash(saves[id].hash), if saves[id].at == n then st0 else st1;
      after == WithFile(WithFolder(st, path.dir), path, saves[id].bytes)
    ensures Moves(cfg, Two(n, m, st0, st1, phase, saves), WriteSave(id),
                  Two(n, m, if saves[id].at == n then after else st0, if saves[id].at == n then st1 else after, phase,
                      saves[id := saves[id].(status := Written)]))
  {
    TwoIsWellFormed(n, m, st0, st1, phase, saves);
    var c := Two(n, m, st0, st1, phase, saves);
    assert saves[id] in saves;
    assert c.stores[n := after] == map[n := after, m := st1] && c.stores[m := after] == map[n := st0, m := after];
  }

  lemma IndexMoves(cfg: Config, n: NodeId, m: NodeId, st0: Store, st1: Store, phase: Phase, saves: seq<Save>, id: nat,
                   after: Store)
    requires n != m && id < |saves| && AtTwo(n, m, saves) && saves[id].status.Written? && saves[id].key != ""
    requires var st := if saves[id].at == n then st0 else st1;
      st.rows == [] && after == st.(rows := [Row(saves[id].key, saves[id].hash)])
    ensures Moves(cfg, Two(n, m, st0, st1, phase, saves), IndexSave(id),
                  Two(n, m, if saves[id].at == n then after else st0, if saves[id].at == n then st1 else after, phase,
                      saves[id := saves[id].(status := Accepted)]))
  {
    TwoIsWellFormed(n, m, st0, st1, phase, saves);
    var c := Two(n, m, st0, st1, phase, saves);
    assert saves[id] in saves;
    assert [] + [Row(saves[id].key, saves[id].hash)] == [Row(saves[id].key, saves[id].hash)];
    assert c.stores[n := after] == map[n := after, m := st1] && c.stores[m := after] == map[n := st0, m := after];
  }

  /** A cluster in which `n` has copied its only key and waits for the answer. */
  function Waiting(n: NodeId, m: NodeId, b: string, hash: Hash, bytes: Bytes): Cluster {
    var st := Full(hash, bytes, [Row(b, hash)]);
    Two(n, m, st, st, Copying(0, true, {b}, {}, Cursor(b, [], WaitFor(hash, 0), false)),
        [Save(m, b, hash, bytes, false, Accepted)])
  }

  function Start(n: NodeId, m: NodeId, b: string, hash: Hash, bytes: Bytes): Cluster {
    Two(n, m, Full(hash, bytes, [Row(b, hash)]), EMPTY, Resting, [])
  }

  lemma Copies(cfg: Config, n: NodeId, m: NodeId, a: string, b: string, hash: Hash, bytes: Bytes)
    requires Scene(cfg, n, m, a, b, hash, bytes)
    ensures Reaches(cfg, Start(n, m, b, hash, bytes), Waiting(n, m, b, hash, bytes))
  {
    var first := Start(n, m, b, hash, bytes);
    var st, path := Full(hash, bytes, [Row(b, hash)]), MakePathFromHash(hash);
    var listed := Two(n, m, st, EMPTY, Copying(0, true, {b}, {b}, NoCursor), []);
    var picked := Two(n, m, st, EMPTY, Copying(0, true, {b}, {}, Cursor(b, [hash], NoWait, false)), []);
    ReachesSelf(cfg, first);
    TwoIsWellFormed(n, m, st, EMPTY, Resting, []);
    PhaseMoves(cfg, n, m, st, EMPTY, Resting, [], Signal(n), Paging(0));
    GoesOn(cfg, first, first, Signal(n), Two(n, m, st, EMPTY, Paging(0), []));
    ReadMoves(cfg, n, m, b, hash, st);
    GoesOn(cfg, first, Two(n, m, st, EMPTY, Paging(0), []), ReadPage(n), listed);
    PickMoves(cfg, n, m, b, hash, st);
    GoesOn(cfg, first, listed, PickCopy(n, b), picked);
    Arrives(cfg, n, m, b, hash, bytes, first, picked);
  }

  lemma Arrives(cfg: Config, n: NodeId, m: NodeId, b: string, hash: Hash, bytes: Bytes, first: Cluster, picked: Cluster)
    requires n != m && b != "" && cfg.topo.Home(b, m) && Reaches(cfg, first, picked)
    requires picked == Two(n, m, Full(hash, bytes, [Row(b, hash)]), EMPTY,
                           Copying(0, true, {b}, {}, Cursor(b, [hash], NoWait, false)), [])
    ensures Reaches(cfg, first, Waiting(n, m, b, hash, bytes))
  {
    var st, waiting := Full(hash, bytes, [Row(b, hash)]), Copying(0, true, {b}, {},
                                                                  Cursor(b, [], WaitFor(hash, 0), false));
    var moved := Save(m, b, hash, bytes, false, Started);
    SendMoves(cfg, n, m, b, hash, bytes, st);
    GoesOn(cfg, first, picked, SendHash(n, m), Two(n, m, st, EMPTY, waiting, [moved]));
    IsSaved(cfg, n, m, b, hash, bytes, st, waiting, moved, first);
  }

  lemma IsSaved(cfg: Config, n: NodeId, m: NodeId, b: string, hash: Hash, bytes: Bytes, st: Store, waiting: Phase,
                moved: Save, first: Cluster)
    requires n != m && b != "" && moved == Save(m, b, hash, bytes, false, Started)
    requires Reaches(cfg, first, Two(n, m, st, EMPTY, waiting, [moved]))
    ensures Reaches(cfg, first, Two(n, m, st, Full(hash, bytes, [Row(b, hash)]), waiting, [moved.(status := Accepted)]))
  {
    var none, full, path := Full(hash, bytes, []), Full(hash, bytes, [Row(b, hash)]), MakePathFromHash(hash);
    var written := moved.(status := Written);
    assert WithFile(WithFolder(EMPTY, path.dir), path, bytes) == none;
    WriteMoves(cfg, n, m, st, EMPTY, waiting, [moved], 0, none);
    assert [moved][0 := written] == [written];
    GoesOn(cfg, first, Two(n, m, st, EMPTY, waiting, [moved]), WriteSave(0), Two(n, m, st, none, waiting, [written]));
    IndexMoves(cfg, n, m, st, none, waiting, [written], 0, full);
    assert [written][0 := moved.(status := Accepted)] == [moved.(status := Accepted)];
    GoesOn(cfg, first, Two(n, m, st, none, waiting, [written]), IndexSave(0),
           Two(n, m, st, full, waiting, [moved.(status := Accepted)]));
  }

  // ---------------------------------------------------------------- `n` starts to remove `b`

  lemma StartsRemoving(cfg: Config, n: NodeId, m: NodeId, b: string, hash: Hash, st: Store, saves: seq<Save>,
                       first: Cluster)
    requires n != m && st.rows == [Row(b, hash)] && AtTwo(n, m, saves) && |saves| == 1 && saves[0].status.Accepted?
    requires Reaches(cfg, first,
                     Two(n, m, st, st, Copying(0, true, {b}, {}, Cursor(b, [], WaitFor(hash, 0), false)), saves))
    ensures Reaches(cfg, first, Two(n, m, st, st, Removing(0, true, {}, Drop(b, [hash])), saves))
  {
    var p1 := Copying(0, true, {b}, {}, Cursor(b, [], WaitFor(hash, 0), false));
    var p2 := Copying(0, true, {b}, {}, Cursor(b, [], NoWait, true));
    var p3, p4 := Copying(0, true, {b}, {}, NoCursor), Removing(0, true, {b}, NoDrop);
    var p5 := Removing(0, true, {}, Drop(b, [hash]));
    OneRow(b, hash);
    assert {b} - {b} == {};
    TwoIsWellFormed(n, m, st, st, p1, saves);
    PhaseMoves(cfg, n, m, st, st, p1, saves, Confirm(n), p2);
    GoesOn(cfg, first, Two(n, m, st, st, p1, saves), Confirm(n), Two(n, m, st, st, p2, saves));
    TwoIsWellFormed(n, m, st, st, p2, saves);
    PhaseMoves(cfg, n, m, st, st, p2, saves, FinishCopy(n), p3);
    GoesOn(cfg, first, Two(n, m, st, st, p2, saves), FinishCopy(n), Two(n, m, st, st, p3, saves));
    TwoIsWellFormed(n, m, st, st, p3, saves);
    PhaseMoves(cfg, n, m, st, st, p3, saves, StartRemoving(n), p4);
    GoesOn(cfg, first, Two(n, m, st, st, p3, saves), StartRemoving(n), Two(n, m, st, st, p4, saves));
    TwoIsWellFormed(n, m, st, st, p4, saves);
    PhaseMoves(cfg, n, m, st, st, p4, saves, PickRemoval(n, b), p5);
    GoesOn(cfg, first, Two(n, m, st, st, p4, saves), PickRemoval(n, b), Two(n, m, st, st, p5, saves));
  }

  // ---------------------------------------------------------------- the overlap

  lemma ArriveMoves(cfg: Config, n: NodeId, m: NodeId, a: string, b: string, hash: Hash, bytes: Bytes, st: Store,
                    phase: Phase, saves: seq<Save>)
    requires Scene(cfg, n, m, a, b, hash, bytes) && AtTwo(n, m, saves)
    ensures Moves(cfg, Two(n, m, st, st, phase, saves), PackedArrives(n, a, hash, bytes),
                  Two(n, m, st, st, phase, saves + [Save(n, a, hash, bytes, false, Started)]))
  {
    TwoIsWellFormed(n, m, st, st, phase, saves);
  }

  lemma DeleteFileMoves(cfg: Config, n: NodeId, m: NodeId, b: string, hash: Hash, bytes: Bytes, st1: Store,
                        saves: seq<Save>)
    requires n != m && AtTwo(n, m, saves)
    ensures Moves(cfg, Two(n, m, Full(hash, bytes, [Row(b, hash)]), st1, Removing(0, true, {}, Drop(b, [hash])), saves),
                  DeleteFile(n),
                  Two(n, m, Store(map[], {}, [Row(b, hash)]), st1, Removing(0, true, {}, Drop(b, [])), saves))
  {
    var st, path := Full(hash, bytes, [Row(b, hash)]), MakePathFromHash(hash);
    var phase := Removing(0, true, {}, Drop(b, [hash]));
    TwoIsWellFormed(n, m, st, st1, phase, saves);
    assert st.files - {path} == map[] && st.dirs - {path.dir} == {} && [hash][1..] == [];
    NodeMoves(cfg, n, m, st, st1, phase, saves, DeleteFile(n), Store(map[], {}, [Row(b, hash)]),
              Removing(0, true, {}, Drop(b, [])));
  }

  lemma DeleteRowsMoves(cfg: Config, n: NodeId, m: NodeId, b: string, hash: Hash, st1: Store, saves: seq<Save>)
    requires n != m && AtTwo(n, m, saves)
    ensures Moves(cfg, Two(n, m, Store(map[], {}, [Row(b, hash)]), st1, Removing(0, true, {}, Drop(b, [])), saves),
                  DeleteRows(n),
                  Two(n, m, EMPTY, st1, Removing(0, true, {}, NoDrop), saves))
  {
    var st, phase := Store(map[], {}, [Row(b, hash)]), Removing(0, true, {}, Drop(b, []));
    OneRow(b, hash);
    TwoIsWellFormed(n, m, st, st1, phase, saves);
    NodeMoves(cfg, n, m, st, st1, phase, saves, DeleteRows(n), EMPTY, Removing(0, true, {}, NoDrop));
  }

  /** `n` is about to remove the file of `hash` and the row of `b`, while a save for `a` has the given status. */
  function Overlapping(n: NodeId, m: NodeId, a: string, b: string, hash: Hash, bytes: Bytes, status: Status): Cluster {
    var st := Full(hash, bytes, [Row(b, hash)]);
    Two(n, m, st, st, Removing(0, true, {}, Drop(b, [hash])),
        [Save(m, b, hash, bytes, false, Accepted), Save(n, a, hash, bytes, false, status)])
  }

  function Bereft(n: NodeId, m: NodeId, a: string, b: string, hash: Hash, bytes: Bytes): Cluster {
    Two(n, m, Store(map[], {}, [Row(a, hash)]), Full(hash, bytes, [Row(b, hash)]), Removing(0, true, {}, NoDrop),
        [Save(m, b, hash, bytes, false, Accepted), Save(n, a, hash, bytes, false, Accepted)])
  }

  /** The save for `a` arrives and writes its file, the same as is there already. */
  lemma SaveOverlaps(cfg: Config, n: NodeId, m: NodeId, a: string, b: string, hash: Hash, bytes: Bytes)
    requires Scene(cfg, n, m, a, b, hash, bytes)
    ensures Reaches(cfg, Start(n, m, b, hash, bytes), Overlapping(n, m, a, b, hash, bytes, Started))
    ensures Moves(cfg, Overlapping(n, m, a, b, hash, bytes, Started), WriteSave(1),
                  Overlapping(n, m, a, b, hash, bytes, Written))
  {
    var st, path := Full(hash, bytes, [Row(b, hash)]), MakePathFromHash(hash);
    var done, mine := Save(m, b, hash, bytes, false, Accepted), Save(n, a, hash, bytes, false, Started);
    var p := Removing(0, true, {}, Drop(b, [hash]));
    Copies(cfg, n, m, a, b, hash, bytes);
    StartsRemoving(cfg, n, m, b, hash, st, [done], Start(n, m, b, hash, bytes));
    ArriveMoves(cfg, n, m, a, b, hash, bytes, st, p, [done]);
    assert [done] + [mine] == [done, mine];
    GoesOn(cfg, Start(n, m, b, hash, bytes), Two(n, m, st, st, p, [done]), PackedArrives(n, a, hash, bytes),
           Overlapping(n, m, a, b, hash, bytes, Started));
    assert WithFile(WithFolder(st, path.dir), path, bytes) == st;
    WriteMoves(cfg, n, m, st, st, p, [done, mine], 1, st);
    assert [done, mine][1 := mine.(status := Written)] == [done, mine.(status := Written)];
  }

  /** The removal goes on, and then the row for `a` is inserted. */
  lemma RemovalOverlaps(cfg: Config, n: NodeId, m: NodeId, a: string, b: string, hash: Hash, bytes: Bytes)
    requires Scene(cfg, n, m, a, b, hash, bytes)
    ensures Reaches(cfg, Overlapping(n, m, a, b, hash, bytes, Written), Bereft(n, m, a, b, hash, bytes))
  {
    var first := Overlapping(n, m, a, b, hash, bytes, Written);
    var st, bare := Full(hash, bytes, [Row(b, hash)]), Store(map[], {}, [Row(b, hash)]);
    var after := Store(map[], {}, [Row(a, hash)]);
    var saves, removed := first.saves, Removing(0, true, {}, NoDrop);
    var fileGone := Two(n, m, bare, st, Removing(0, true, {}, Drop(b, [])), saves);
    ReachesSelf(cfg, first);
    DeleteFileMoves(cfg, n, m, b, hash, bytes, st, saves);
    GoesOn(cfg, first, first, DeleteFile(n), fileGone);
    DeleteRowsMoves(cfg, n, m, b, hash, st, saves);
    GoesOn(cfg, first, fileGone, DeleteRows(n), Two(n, m, EMPTY, st, removed, saves));
    IndexMoves(cfg, n, m, EMPTY, st, removed, saves, 1, after);
    assert saves[1 := saves[1].(status := Accepted)] == Bereft(n, m, a, b, hash, bytes).saves;
    GoesOn(cfg, first, Two(n, m, EMPTY, st, removed, saves), IndexSave(1), Bereft(n, m, a, b, hash, bytes));
  }

  // ---------------------------------------------------------------- exactly when the file can be lost

  /** In a run from rest, save `id` writes its file at `n` while `n` has the same content under `b`; it is
      accepted later, and its file is missing. */
  ghost predicate LosesItsFile(cfg: Config, first: Cluster, c: Cluster, id: nat, d: Cluster, n: NodeId, b: string,
                               hash: Hash) {
    && AtRest(first) && Reaches(cfg, first, c) && Enabled(cfg, c, WriteSave(id)) && Has(c, n, b, hash)
    && c.saves[id].at == n && c.saves[id].hash == hash
    && Reaches(cfg, Next(cfg, c, WriteSave(id)), d)
    && id < |d.saves| && d.saves[id].status.Accepted? && !HasFile(d, n, hash)
  }

  ghost predicate MayLoseItsFile(cfg: Config, n: NodeId, b: string, hash: Hash) {
    exists first, c, id, d :: LosesItsFile(cfg, first, c, id, d, n, b, hash)
  }

  /** A save for `a`, accepted at the home of `a`, lacks its file there: `n` was removing the same content under
      `b`, which it had copied away. */
  lemma AcceptedSaveMayLackItsFile(cfg: Config, n: NodeId, m: NodeId, a: string, b: string, hash: Hash, bytes: Bytes)
    requires Scene(cfg, n, m, a, b, hash, bytes)
    ensures LosesItsFile(cfg, Start(n, m, b, hash, bytes), Overlapping(n, m, a, b, hash, bytes, Started), 1,
                         Bereft(n, m, a, b, hash, bytes), n, b, hash)
  {
    StartsAtRest(cfg, n, m, a, b, hash, bytes);
    SaveOverlaps(cfg, n, m, a, b, hash, bytes);
    RemovalOverlaps(cfg, n, m, a, b, hash, bytes);
    assert Row(b, hash) in Overlapping(n, m, a, b, hash, bytes, Started).stores[n].rows;
  }

  /** Writing a file whose content the node already has under a key `b` is harmless, in every cluster and every
      run, exactly if `b` belongs to the node or is not misplaced as far as the node can tell. */
  lemma FileMayBeLostExactly(cfg: Config, n: NodeId, a: string, b: string, hash: Hash, bytes: Bytes)
    requires a != "" && b != "" && cfg.topo.Home(a, n) && Genuine(cfg.codec, hash, bytes)
    ensures MayLoseItsFile(cfg, n, b, hash) <==> !Stays(cfg, n, b)
  {
    if Stays(cfg, n, b) {
      if first, c, id, d :| LosesItsFile(cfg, first, c, id, d, n, b, hash) {
        RestReaches(cfg, first, c);
        OnlyUnderThatKey(cfg, c, n, b, hash);
        ShelteredSaveIsReadable(cfg, first, c, id, d);
        assert false;
      }
    } else {
      AcceptedSaveMayLackItsFile(cfg, n, cfg.topo.resolve(cfg.topo.owner(b).value), a, b, hash, bytes);
    }
  }

  lemma OnlyUnderThatKey(cfg: Config, c: Cluster, n: NodeId, b: string, hash: Hash)
    requires Inv(cfg, c) && Has(c, n, b, hash)
    ensures forall key :: Has(c, n, key, hash) ==> key == b
  {
    assert NodeOk(cfg, c, n);
    forall key | Has(c, n, key, hash) ensures key == b {
      UniqueRow(c.stores[n].rows, Row(b, hash), Row(key, hash));
    }
  }

  lemma StartsAtRest(cfg: Config, n: NodeId, m: NodeId, a: string, b: string, hash: Hash, bytes: Bytes)
    requires Scene(cfg, n, m, a, b, hash, bytes)
    ensures AtRest(Start(n, m, b, hash, bytes)) && Intact(cfg, Start(n, m, b, hash, bytes))
  {
    var st, path := Full(hash, bytes, [Row(b, hash)]), MakePathFromHash(hash);
    assert path in st.files;
    assert st.dirs == DirsOf(st.files) && EMPTY.dirs == DirsOf(EMPTY.files);
    forall h | MakePathFromHash(h) in st.files ensures h == hash { PathsAreInjective(h, hash); }
  }
}

/** Keys that no rebase ever moves: if the home of a key indexes one of its hashes for good, under this key or
    another one, every send of that hash is refused. */
module ClusterRetries {
  import opened StoreModel
  import opened Topologies
  import opened ClusterMachine
  import opened ClusterRuns
  import opened ClusterSafety
  import opened ClusterWitness

  /** `m` indexes `hash` under a key that no rebase takes away. */
  ghost predicate Refuses(cfg: Config, c: Cluster, m: NodeId, hash: Hash) {
    exists other :: Stays(cfg, m, other) && Has(c, m, other, hash)
  }

  /** `n` has the row (`key`, `hash`), and the home of the key, another node, refuses the hash. */
  ghost predicate Blocked(cfg: Config, c: Cluster, n: NodeId, m: NodeId, key: string, hash: Hash) {
    m != n && cfg.topo.Home(key, m) && Refuses(cfg, c, m, hash) && Has(c, n, key, hash)
  }

  /** The copying of `key` by `n` is still before its send of `hash`, or awaits an answer that cannot be yes. */
  ghost predicate Unsent(c: Cluster, m: NodeId, cursor: Cursor, key: string, hash: Hash) {
    && cursor.Cursor? && cursor.key == key
    && (hash in cursor.rest ||
          (cursor.wait.WaitFor? && cursor.wait.hash == hash && Hopeless(c, m, cursor.wait.id, hash)))
  }

  ghost predicate Hopeless(c: Cluster, m: NodeId, id: nat, hash: Hash) {
    id < |c.saves| && c.saves[id].at == m && c.saves[id].hash == hash && !c.saves[id].status.Accepted?
  }

  /** `n` has not finished copying `key`, if it copies it at all, and does not remove it. */
  ghost predicate NotPast(c: Cluster, m: NodeId, phase: Phase, key: string, hash: Hash) {
    match phase
    case Copying(_, _, info, todo, cursor) => key in info ==> key in todo || Unsent(c, m, cursor, key, hash)
    case Removing(_, _, todo, drop) => key !in todo && (drop.Drop? ==> drop.key != key)
    case _ => true
  }

  ghost predicate Stuck(cfg: Config, c: Cluster, n: NodeId, m: NodeId, key: string, hash: Hash) {
    Blocked(cfg, c, n, m, key, hash) && n in c.phases && NotPast(c, m, c.phases[n], key, hash)
  }

  lemma HopelessStays(cfg: Config, c: Cluster, d: Cluster, m: NodeId, id: nat, hash: Hash)
    requires Evolves(cfg, c, d) && Refuses(cfg, c, m, hash) && Hopeless(c, m, id, hash)
    ensures Hopeless(d, m, id, hash)
  {
    assert SaveEvolves(c, c.saves[id], d.saves[id]);
    var other :| Has(c, m, other, hash);
    assert Row(other, hash) in c.stores[m].rows && Indexed(c.stores[m].rows, hash);
  }

  lemma NotPastStays(cfg: Config, c: Cluster, d: Cluster, m: NodeId, phase: Phase, key: string, hash: Hash)
    requires Evolves(cfg, c, d) && Refuses(cfg, c, m, hash) && NotPast(c, m, phase, key, hash)
    ensures NotPast(d, m, phase, key, hash)
  {
    if phase.Copying? && Unsent(c, m, phase.cursor, key, hash) && hash !in phase.cursor.rest {
      HopelessStays(cfg, c, d, m, phase.cursor.wait.id, hash);
    }
  }

  /** What the steps of `n` itself do to its phase. */
  lemma OwnStepIsNotPast(cfg: Config, c: Cluster, s: Step, n: NodeId, m: NodeId, key: string, hash: Hash)
    requires Inv(cfg, c) && Enabled(cfg, c, s) && Stuck(cfg, c, n, m, key, hash)
    requires Next(cfg, c, s).phases[n] != c.phases[n]
    ensures var d := Next(cfg, c, s); NotPast(d, m, d.phases[n], key, hash)
  {
    match s
    case PickCopy(_, picked) => HashesOfMembers(c.stores[n].rows, picked);
    case SendHash(_, to) => SentIsNotPast(cfg, c, n, to, m, key, hash);
    case Confirm(_) => ConfirmedIsNotPast(cfg, c, n, m, key, hash);
    case _ =>
  }

  lemma SentIsNotPast(cfg: Config, c: Cluster, n: NodeId, to: NodeId, m: NodeId, key: string, hash: Hash)
    requires Enabled(cfg, c, SendHash(n, to)) && Stuck(cfg, c, n, m, key, hash)
    ensures var d := Next(cfg, c, SendHash(n, to)); NotPast(d, m, d.phases[n], key, hash)
  {
    var cur, d := c.phases[n].cursor, Next(cfg, c, SendHash(n, to));
    assert forall h :: h in cur.rest <==> h == cur.rest[0] || h in cur.rest[1..];
    if cur.key == key && cur.rest[0] == hash {
      assert Hopeless(d, m, |c.saves|, hash);
    }
  }

  lemma ConfirmedIsNotPast(cfg: Config, c: Cluster, n: NodeId, m: NodeId, key: string, hash: Hash)
    requires Enabled(cfg, c, Confirm(n)) && Stuck(cfg, c, n, m, key, hash)
    ensures var d := Next(cfg, c, Confirm(n)); NotPast(d, m, d.phases[n], key, hash)
  {
  }

  /** A row leaves a node only if the node is removing its key. */
  lemma OtherRowsStay(cfg: Config, c: Cluster, s: Step, n: NodeId, key: string, hash: Hash)
    requires Inv(cfg, c) && Enabled(cfg, c, s) && Has(c, n, key, hash)
    requires s == DeleteRows(n) ==> c.phases[n].drop.key != key
    ensures Has(Next(cfg, c, s), n, key, hash)
  {
    if s == DeleteRows(n) {
      WithoutMembers(c.stores[n].rows, c.phases[n].drop.key);
    } else {
      OnlyDeletionsDropRows(cfg, c, s, n, key, hash);
    }
  }

  lemma StepKeepsRefusing(cfg: Config, c: Cluster, s: Step, m: NodeId, hash: Hash)
    requires Inv(cfg, c) && Enabled(cfg, c, s) && Refuses(cfg, c, m, hash)
    ensures Refuses(cfg, Next(cfg, c, s), m, hash)
  {
    var other :| Stays(cfg, m, other) && Has(c, m, other, hash);
    if s == DeleteRows(m) {
      assert PhaseOk(cfg, c, m, c.phases[m]) && Cleared(cfg, c, m, c.phases[m].drop.key);
    }
    OtherRowsStay(cfg, c, s, m, other, hash);
  }

  lemma StepKeepsBlocked(cfg: Config, c: Cluster, s: Step, n: NodeId, m: NodeId, key: string, hash: Hash)
    requires Inv(cfg, c) && Enabled(cfg, c, s) && Stuck(cfg, c, n, m, key, hash)
    ensures Blocked(cfg, Next(cfg, c, s), n, m, key, hash)
  {
    StepKeepsRefusing(cfg, c, s, m, hash);
    OtherRowsStay(cfg, c, s, n, key, hash);
  }

  /** No step of any node gets `n` past the key: the home refuses the hash, so no answer lets the copying of
      the key finish. */
  lemma StepKeepsStuck(cfg: Config, c: Cluster, s: Step, n: NodeId, m: NodeId, key: string, hash: Hash)
    requires Inv(cfg, c) && Enabled(cfg, c, s) && Stuck(cfg, c, n, m, key, hash)
    ensures Stuck(cfg, Next(cfg, c, s), n, m, key, hash)
  {
    var d := Next(cfg, c, s);
    StepKeepsInv(cfg, c, s);
    StepKeepsBlocked(cfg, c, s, n, m, key, hash);
    if d.phases[n] == c.phases[n] {
      NotPastStays(cfg, c, d, m, c.phases[n], key, hash);
    } else {
      OwnStepIsNotPast(cfg, c, s, n, m, key, hash);
    }
  }

  lemma {:induction false} RunKeepsStuck(cfg: Config, trace: seq<Cluster>, steps: seq<Step>, i: nat, j: nat, n: NodeId,
                                         m: NodeId, key: string, hash: Hash)
    requires IsRun(cfg, trace, steps) && AtRest(trace[0]) && i <= j <= |steps| && Stuck(cfg, trace[i], n, m, key, hash)
    ensures Stuck(cfg, trace[j], n, m, key, hash)
    decreases j
  {
    if i < j {
      RunKeepsStuck(cfg, trace, steps, i, j - 1, n, m, key, hash);
      RestIsSafe(cfg, trace[0]);
      RunKeepsInv(cfg, trace, steps, j - 1);
      assert StepAt(cfg, trace, steps, j - 1);
      StepKeepsStuck(cfg, trace[j - 1], steps[j - 1], n, m, key, hash);
    }
  }

  /** If the home of a key indexes one of its hashes under a key that stays there, then in every run from there
      the node keeps the row and never removes the key, and no pass that has the key on its page gets as far as
      removing anything. */
  lemma BlockedKeysStayForEver(cfg: Config, trace: seq<Cluster>, steps: seq<Step>, i: nat, j: nat, n: NodeId,
                                   m: NodeId, key: string, hash: Hash)
    requires IsRun(cfg, trace, steps) && AtRest(trace[0]) && i <= j <= |steps|
    requires Blocked(cfg, trace[i], n, m, key, hash) && n in trace[i].phases && trace[i].phases[n].Resting?
    ensures Has(trace[j], n, key, hash) && n in trace[j].phases
    ensures j < |steps| ==> steps[j] != PickRemoval(n, key)
    ensures j < |steps| && steps[j] == StartRemoving(n) ==>
      trace[j].phases[n].Copying? && key !in trace[j].phases[n].info
  {
    RunKeepsStuck(cfg, trace, steps, i, j, n, m, key, hash);
    if j < |steps| {
      assert StepAt(cfg, trace, steps, j);
    }
  }

  /** A cluster is blocked at rest, with no pass interrupted, if two of its keys share their content. */
  lemma SharedContentBlocks(cfg: Config, n: NodeId, m: NodeId, a: string, b: string, o: string, hash: Hash,
                            bytes: Bytes)
    requires Scene(cfg, n, m, a, b, hash, bytes) && o != "" && Stays(cfg, m, o)
    ensures var c := Two(n, m, Full(hash, bytes, [Row(b, hash)]), Full(hash, bytes, [Row(o, hash)]), Resting, []);
      AtRest(c) && Intact(cfg, c) && Blocked(cfg, c, n, m, b, hash)
  {
    var st, other, path := Full(hash, bytes, [Row(b, hash)]), Full(hash, bytes, [Row(o, hash)]), MakePathFromHash(hash);
    assert path in st.files && path in other.files;
    assert st.dirs == DirsOf(st.files) && other.dirs == DirsOf(other.files);
    forall h | MakePathFromHash(h) in st.files ensures h == hash { PathsAreInjective(h, hash); }
    var c := Two(n, m, st, other, Resting, []);
    assert Row(b, hash) in c.stores[n].rows && Row(o, hash) in c.stores[m].rows;
    assert Has(c, m, o, hash);
  }

  /** An interruption blocks too: the answer to the only send of a key is lost. */
  lemma InterruptionHappens(cfg: Config, n: NodeId, m: NodeId, a: string, b: string, hash: Hash, bytes: Bytes)
      returns (c: Cluster)
    requires Scene(cfg, n, m, a, b, hash, bytes)
    ensures AtRest(Start(n, m, b, hash, bytes)) && Reaches(cfg, Start(n, m, b, hash, bytes), c)
    ensures Blocked(cfg, c, n, m, b, hash) && n in c.phases && c.phases[n].Resting?
  {
    var waiting := Waiting(n, m, b, hash, bytes);
    StartsAtRest(cfg, n, m, a, b, hash, bytes);
    Copies(cfg, n, m, a, b, hash, bytes);
    TwoIsWellFormed(n, m, waiting.stores[n], waiting.stores[m], waiting.phases[n], waiting.saves);
    ReachesNext(cfg, Start(n, m, b, hash, bytes), waiting, Abort(n));
    c := Next(cfg, waiting, Abort(n));
    assert c.stores[n].rows == [Row(b, hash)] && c.stores[m].rows == [Row(b, hash)];
    assert Has(c, m, b, hash);
  }
}

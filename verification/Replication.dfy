/** Replication: derived keys walked to distinct owners, one copy of a hash for each. */
module Replication {
  import opened Results
  import opened StoreModel
  import opened Rebasing
  import opened Topologies
  import opened ClusterMachine
  import opened ClusterRuns

  const REPLICA := "_replica"

  /** The key generator after `i` calls. */
  function Derived(key: string, i: nat): string {
    if i == 0 then key else Derived(key, i - 1) + REPLICA
  }

  lemma {:induction false} DerivedGrow(key: string, i: nat)
    ensures |Derived(key, i)| == |key| + i * |REPLICA|
    decreases i
  {
    if i > 0 { DerivedGrow(key, i - 1); }
  }

  /** The key as given comes before the first call, and each call appends one suffix. */
  lemma DerivedKeysAreSuffixed(key: string, i: nat)
    ensures Derived(key, 0) == key && Derived(key, i + 1) == Derived(key, i) + "_replica"
  {
  }

  /** Derived keys are pairwise distinct. */
  lemma DerivedKeysDiffer(key: string, i: nat, j: nat)
    requires i != j
    ensures Derived(key, i) != Derived(key, j)
  {
    DerivedGrow(key, i);
    DerivedGrow(key, j);
  }

  /** A copy to make: the derived key and the address of its owner. */
  datatype Target = Target(key: string, addr: string)

  function AddrsOf(targets: seq<Target>): set<string> {
    set t | t in targets :: t.addr
  }

  /** The copies for the first `n` derived keys: an owner that is already used is skipped, its turn is spent. */
  function Targets(topo: Topology, key: string, n: nat): Result<seq<Target>> {
    if n == 0 then Ok([])
    else
      match Targets(topo, key, n - 1)
      case Err(e) => Err(e)
      case Ok(before) =>
        match topo.owner(Derived(key, n))
        case Err(e) => Err(e)
        case Ok(addr) => if addr in AddrsOf(before) then Ok(before) else Ok(before + [Target(Derived(key, n), addr)])
  }

  /** `t` belongs to the first derived key that its address owns. */
  ghost predicate FirstOf(topo: Topology, key: string, n: nat, t: Target) {
    exists i: nat :: 1 <= i <= n && FirstAt(topo, key, t, i)
  }

  ghost predicate FirstAt(topo: Topology, key: string, t: Target, i: nat) {
    && t.key == Derived(key, i) && OwnedBy(topo, key, i, t.addr)
    && forall j: nat :: 1 <= j < i ==> !OwnedBy(topo, key, j, t.addr)
  }

  /** The `i`-th derived key has an owner. */
  predicate Owned(topo: Topology, key: string, i: nat) {
    topo.owner(Derived(key, i)).Ok?
  }

  predicate OwnedBy(topo: Topology, key: string, i: nat, addr: string) {
    topo.owner(Derived(key, i)) == Ok(addr)
  }

  /** A plan fails exactly if one of its derived keys has no owner. */
  lemma {:induction false} PlanExists(topo: Topology, key: string, n: nat)
    ensures Targets(topo, key, n).Ok? <==> forall i: nat :: 1 <= i <= n ==> Owned(topo, key, i)
    decreases n
  {
    if n > 0 {
      PlanExists(topo, key, n - 1);
      assert Targets(topo, key, n).Ok? <==> Targets(topo, key, n - 1).Ok? && Owned(topo, key, n);
    }
  }

  /** A plan reaches each distinct owner of the derived keys once, under the first key it owns, and nobody
      else. */
  lemma {:induction false} TargetsExact(topo: Topology, key: string, n: nat)
    requires Targets(topo, key, n).Ok?
    ensures var ts := Targets(topo, key, n).value;
      && (forall i, j :: 0 <= i < j < |ts| ==> ts[i].addr != ts[j].addr)
      && (forall t :: t in ts ==> FirstOf(topo, key, n, t))
      && (forall i: nat :: 1 <= i <= n ==> Reached(topo, key, i, ts))
    decreases n
  {
    if n > 0 {
      TargetsExact(topo, key, n - 1);
      var before, ts := Targets(topo, key, n - 1).value, Targets(topo, key, n).value;
      forall t | t in ts ensures FirstOf(topo, key, n, t) {
        FirstOfGrows(topo, key, n, before, t);
      }
      forall i: nat | 1 <= i <= n ensures Reached(topo, key, i, ts) {
        if i < n {
          assert Reached(topo, key, i, before);
          var t :| t in before && OwnedBy(topo, key, i, t.addr);
          assert t in ts;
        } else if topo.owner(Derived(key, n)).value !in AddrsOf(before) {
          assert Target(Derived(key, n), topo.owner(Derived(key, n)).value) in ts;
        }
      }
    }
  }

  ghost predicate Reached(topo: Topology, key: string, i: nat, ts: seq<Target>) {
    exists t :: t in ts && OwnedBy(topo, key, i, t.addr)
  }

  lemma FirstOfGrows(topo: Topology, key: string, n: nat, before: seq<Target>, t: Target)
    requires n > 0 && Targets(topo, key, n - 1) == Ok(before) && Targets(topo, key, n).Ok?
    requires t in Targets(topo, key, n).value
    requires t in before ==> FirstOf(topo, key, n - 1, t)
    requires forall i: nat :: 1 <= i <= n - 1 ==> Reached(topo, key, i, before)
    ensures FirstOf(topo, key, n, t)
  {
    if t in before {
      var i: nat :| 1 <= i <= n - 1 && FirstAt(topo, key, t, i);
    } else {
      forall j: nat | 1 <= j < n ensures !OwnedBy(topo, key, j, t.addr) {
        assert Reached(topo, key, j, before);
      }
      assert FirstAt(topo, key, t, n);
    }
  }

  ghost predicate SameOwner(topo: Topology, key: string, i: nat, j: nat) {
    topo.owner(Derived(key, i)) == topo.owner(Derived(key, j))
  }

  /** A factor of n makes n copies exactly if the n derived keys have n different owners; otherwise fewer. */
  lemma {:induction false} EveryTurnCopiesExactly(topo: Topology, key: string, n: nat)
    requires Targets(topo, key, n).Ok?
    ensures |Targets(topo, key, n).value| <= n
    ensures |Targets(topo, key, n).value| == n <==>
      forall i: nat, j: nat :: 1 <= i < j <= n ==> !SameOwner(topo, key, i, j)
    decreases n
  {
    if n > 0 {
      EveryTurnCopiesExactly(topo, key, n - 1);
      TargetsExact(topo, key, n - 1);
      var before, addr := Targets(topo, key, n - 1).value, topo.owner(Derived(key, n)).value;
      if addr in AddrsOf(before) {
        var t :| t in before && t.addr == addr;
        assert FirstOf(topo, key, n - 1, t);
        var i: nat :| 1 <= i <= n - 1 && FirstAt(topo, key, t, i);
        assert SameOwner(topo, key, i, n);
      } else {
        forall i: nat | 1 <= i < n ensures !SameOwner(topo, key, i, n) {
          assert Reached(topo, key, i, before);
        }
      }
    }
  }

  // ---------------------------------------------------------------- when replication can succeed

  /** Every planned copy would be accepted: the owners are different nodes and none indexes the hash. */
  ghost predicate Acceptable(topo: Topology, stores: Stores, self: NodeId, key: string, hash: Hash, n: nat) {
    && Targets(topo, key, n).Ok?
    && Welcome(topo, stores, self, hash, Targets(topo, key, n).value)
  }

  ghost predicate Welcome(topo: Topology, stores: Stores, self: NodeId, hash: Hash, ts: seq<Target>) {
    && (ts != [] ==> self in stores && MakePathFromHash(hash) in stores[self].files)
    && (forall t :: t in ts ==> topo.resolve(t.addr) in stores && !Indexed(stores[topo.resolve(t.addr)].rows, hash))
    && forall i, j :: 0 <= i < j < |ts| ==> topo.resolve(ts[i].addr) != topo.resolve(ts[j].addr)
  }

  /** A node that owns every derived key itself never completes a replication: it refuses its own copy. */
  lemma LoneNodeCannotReplicate(topo: Topology, stores: Stores, self: NodeId, key: string, hash: Hash, n: nat)
    requires self in stores && Indexed(stores[self].rows, hash) && n > 0
    requires forall i: nat :: 1 <= i <= n ==> topo.Home(Derived(key, i), self)
    ensures !Acceptable(topo, stores, self, key, hash, n)
  {
    if Targets(topo, key, n).Ok? {
      TargetsExact(topo, key, n);
      var ts := Targets(topo, key, n).value;
      assert Reached(topo, key, 1, ts) && topo.Home(Derived(key, 1), self);
      var t :| t in ts && OwnedBy(topo, key, 1, t.addr);
    }
  }

  /** With canonical addresses, a following rebase moves none of the copies. */
  lemma CopiesStayPut(topo: Topology, key: string, n: nat, t: Target)
    requires Targets(topo, key, n).Ok? && t in Targets(topo, key, n).value
    requires topo.selfAddr(topo.resolve(t.addr)) == t.addr
    ensures topo.Home(t.key, topo.resolve(t.addr)) && !topo.Misplaced(topo.resolve(t.addr), t.key)
  {
    TargetsExact(topo, key, n);
    assert FirstOf(topo, key, n, t);
    var i: nat :| 1 <= i <= n && FirstAt(topo, key, t, i);
  }

  // ---------------------------------------------------------------- the run

  /** Exactly the copies `sent` were made: one new row at each target's node, with the sender's bytes, and no
      change to any other node. */
  ghost predicate Replicated(topo: Topology, before: Stores, now: Stores, self: NodeId, hash: Hash, sent: seq<Target>) {
    && now.Keys == before.Keys
    && Welcome(topo, before, self, hash, sent)
    && (forall t :: t in sent ==> CopyMade(before, now, self, hash, t.key, topo.resolve(t.addr)))
    && forall n :: n in before && (forall t :: t in sent ==> topo.resolve(t.addr) != n) ==> now[n] == before[n]
  }

  ghost predicate CopyMade(before: Stores, now: Stores, self: NodeId, hash: Hash, key: string, to: NodeId) {
    var path := MakePathFromHash(hash);
    && self in before && to in before && to in now && path in before[self].files && path in now[to].files
    && now[to].rows == before[to].rows + [Row(key, hash)]
    && now[to].files == before[to].files[path := before[self].files[path]]
  }

  /** The sender's own file never changes during the run: if it takes a copy itself, it is of the same bytes. */
  lemma OwnFileStays(topo: Topology, before: Stores, now: Stores, self: NodeId, hash: Hash, sent: seq<Target>)
    requires self in before && Replicated(topo, before, now, self, hash, sent)
    ensures now[self].files == before[self].files
  {
    if t :| t in sent && topo.resolve(t.addr) == self {
      assert CopyMade(before, now, self, hash, t.key, self);
    }
  }

  lemma ReplicateOneMore(topo: Topology, before: Stores, now: Stores, self: NodeId, hash: Hash, sent: seq<Target>,
                         t: Target)
    requires self in before && Replicated(topo, before, now, self, hash, sent)
    requires MakePathFromHash(hash) in now[self].files && topo.resolve(t.addr) in now && t.key != ""
    requires !Indexed(now[topo.resolve(t.addr)].rows, hash)
    ensures Replicated(topo, before, Delivered(now, self, topo.resolve(t.addr), t.key, hash), self, hash, sent + [t])
  {
    var to := topo.resolve(t.addr);
    OwnFileStays(topo, before, now, self, hash, sent);
    forall i | 0 <= i < |sent| ensures topo.resolve(sent[i].addr) != to {
      assert CopyMade(before, now, self, hash, sent[i].key, topo.resolve(sent[i].addr));
      var rows := now[topo.resolve(sent[i].addr)].rows;
      assert rows[|rows| - 1] == Row(sent[i].key, hash) && Indexed(rows, hash);
      assert sent[i] in sent;
    }
    assert now[to] == before[to];
    var all := sent + [t];
    assert forall u :: u in all <==> u in sent || u == t;
  }

  /** The first `i` turns are spent: their plan is what was sent, and what was sent was made. */
  ghost predicate Stage(topo: Topology, before: Stores, now: Stores, self: NodeId, key: string, hash: Hash, i: nat,
                        usedNodes: set<string>, sent: seq<Target>) {
    && usedNodes == AddrsOf(sent) && Targets(topo, key, i) == Ok(sent)
    && Replicated(topo, before, now, self, hash, sent)
  }

  /** One copy of the run: made, or refused because the plan was not acceptable from the start, or lost in
      transport. */
  method SendCopy(c: Client, self: NodeId, hash: Hash, target: Target, ghost before: Stores, ghost base: string,
                  ghost i: nat, ghost n: nat, ghost used: set<string>, ghost sent: seq<Target>, ghost p: Phase)
      returns (r: Result<()>)
    requires self in c.stores && i < n && target.key == Derived(base, i + 1) && target.addr !in used
    requires Stage(c.topo, before, c.stores, self, base, hash, i, used, sent)
    requires c.topo.owner(target.key) == Ok(target.addr)
    requires Performs(c.Cfg(), self, before, p, c.stores, p)
    modifies c`stores
    ensures self in c.stores && Performs(c.Cfg(), self, before, p, c.stores, p)
    ensures r.Ok? ==> Stage(c.topo, before, c.stores, self, base, hash, i + 1, used + {target.addr}, sent + [target])
    ensures Acceptable(c.topo, before, self, base, hash, n) ==> OkOrFault(c.reliable, r)
  {
    PlanStep(c.topo, base, i, sent, target);
    r := c.SendFile(self, target.addr, target.key, hash);
    ReplicaRun(c.Cfg(), self, before, p, c.topo.resolve(target.addr), target.key, hash, old(c.stores), c.stores, r.Ok?);
    if r.Ok? {
      ReplicateOneMore(c.topo, before, old(c.stores), self, hash, sent, target);
    } else if c.reliable || r != Err(Disconnected) {
      Unwelcome(c.topo, before, old(c.stores), self, base, hash, i + 1, n, sent, target);
    }
  }

  ghost predicate Refused(topo: Topology, now: Stores, self: NodeId, hash: Hash, t: Target) {
    && self in now
    && (MakePathFromHash(hash) in now[self].files ==>
          topo.resolve(t.addr) !in now || Indexed(now[topo.resolve(t.addr)].rows, hash))
  }

  /** One turn: the next derived key, and a copy to its owner unless that owner is used already. */
  method TakeTurn(c: Client, self: NodeId, hash: Hash, key: string, usedNodes: set<string>, sent: seq<Target>,
                  ghost before: Stores, ghost base: string, ghost i: nat, ghost n: nat, ghost p: Phase)
      returns (r: Result<()>, used: set<string>, now: seq<Target>)
    requires self in c.stores && i < n && key == Derived(base, i + 1)
    requires Stage(c.topo, before, c.stores, self, base, hash, i, usedNodes, sent)
    requires Performs(c.Cfg(), self, before, p, c.stores, p)
    modifies c`stores
    ensures Performs(c.Cfg(), self, before, p, c.stores, p)
    ensures r.Ok? ==> self in c.stores && Stage(c.topo, before, c.stores, self, base, hash, i + 1, used, now)
    ensures Acceptable(c.topo, before, self, base, hash, n) ==> OkOrFault(c.reliable, r)
  {
    used, now := usedNodes, sent;
    var node := c.topo.owner(key);
    if node.Err? {
      MissingOwner(c.topo, base, i + 1, n);
      return Err(node.error), used, now;
    }
    if node.value in usedNodes {
      SkippedTurn(c.topo, base, i, sent, node.value);
      return Ok(()), used, now;
    }
    var target := Target(key, node.value);
    used, now := usedNodes + {node.value}, sent + [target];
    r := SendCopy(c, self, hash, target, before, base, i, n, usedNodes, sent, p);
  }

  /** Sends the stored file of a hash to the distinct owners of the derived keys. It completes only if every
      planned copy was welcome, and then has made exactly the planned copies; if all are welcome, only a
      transport fault can stop it. */
  method HandleReplication(c: Client, self: NodeId, key: string, hash: Hash, replicationFactor: int, ghost p: Phase)
      returns (sent: seq<Target>, r: Result<()>)
    requires self in c.stores
    modifies c`stores
    ensures r.Ok? ==> Targets(c.topo, key, Turns(replicationFactor)) == Ok(sent)
    ensures r.Ok? ==> Acceptable(c.topo, old(c.stores), self, key, hash, Turns(replicationFactor))
    ensures r.Ok? ==> Replicated(c.topo, old(c.stores), c.stores, self, hash, sent)
    ensures Acceptable(c.topo, old(c.stores), self, key, hash, Turns(replicationFactor)) ==>
      OkOrFault(c.reliable, r)
    ensures r.Ok? ==> forall i: nat :: 1 <= i <= replicationFactor ==> Reached(c.topo, key, i, sent)
    ensures r.Ok? ==>
      forall t :: t in sent ==> exists i: nat :: 1 <= i <= replicationFactor && FirstAt(c.topo, key, t, i)
    ensures replicationFactor <= 0 ==> r.Ok? && sent == [] && c.stores == old(c.stores)
    ensures Performs(c.Cfg(), self, old(c.stores), p, c.stores, p)
  {
    PerformsNothing(c.Cfg(), self, c.stores, p);
    var nextKey := key;
    var usedNodes: set<string> := {};
    sent := [];
    for i := 0 to Turns(replicationFactor)
      invariant nextKey == Derived(key, i)
      invariant self in c.stores && Stage(c.topo, old(c.stores), c.stores, self, key, hash, i, usedNodes, sent)
      invariant Performs(c.Cfg(), self, old(c.stores), p, c.stores, p)
    {
      nextKey := nextKey + REPLICA;
      r, usedNodes, sent := TakeTurn(c, self, hash, nextKey, usedNodes, sent, old(c.stores), key, i,
                                     Turns(replicationFactor), p);
      if r.Err? {
        return;
      }
    }
    OneTurnForEach(c.topo, key, replicationFactor, sent);
    r := Ok(());
  }

  /** A plan of that many turns reaches the owners of that many derived keys, each under the first it owns. */
  lemma OneTurnForEach(topo: Topology, key: string, replicationFactor: int, sent: seq<Target>)
    requires Targets(topo, key, Turns(replicationFactor)) == Ok(sent)
    ensures forall i: nat :: 1 <= i <= replicationFactor ==> Reached(topo, key, i, sent)
    ensures forall t :: t in sent ==> exists i: nat :: 1 <= i <= replicationFactor && FirstAt(topo, key, t, i)
  {
    TargetsExact(topo, key, Turns(replicationFactor));
    forall t | t in sent ensures exists i: nat :: 1 <= i <= replicationFactor && FirstAt(topo, key, t, i) {
      assert FirstOf(topo, key, Turns(replicationFactor), t);
      var i: nat :| 1 <= i <= Turns(replicationFactor) && FirstAt(topo, key, t, i);
    }
  }

  /** A negative factor means no turn at all. */
  function Turns(replicationFactor: int): nat {
    if replicationFactor > 0 then replicationFactor else 0
  }

  lemma SkippedTurn(topo: Topology, base: string, i: nat, sent: seq<Target>, addr: string)
    requires Targets(topo, base, i) == Ok(sent) && topo.owner(Derived(base, i + 1)) == Ok(addr) && addr in AddrsOf(sent)
    ensures Targets(topo, base, i + 1) == Ok(sent)
  {
  }

  lemma PlanStep(topo: Topology, base: string, i: nat, sent: seq<Target>, t: Target)
    requires Targets(topo, base, i) == Ok(sent) && t.key == Derived(base, i + 1) && topo.owner(t.key) == Ok(t.addr)
    requires t.addr !in AddrsOf(sent)
    ensures Targets(topo, base, i + 1) == Ok(sent + [t]) && AddrsOf(sent + [t]) == AddrsOf(sent) + {t.addr}
    ensures t.key != ""
  {
    var all := sent + [t];
    assert forall u :: u in all <==> u in sent || u == t;
    assert t in all;
  }

  lemma MissingOwner(topo: Topology, key: string, i: nat, n: nat)
    requires 1 <= i <= n && !Owned(topo, key, i)
    ensures Targets(topo, key, n).Err?
  {
    PlanExists(topo, key, n);
  }

  /** A longer plan starts with the shorter one. */
  lemma {:induction false} TargetsGrow(topo: Topology, key: string, i: nat, n: nat)
    requires i <= n
    ensures Targets(topo, key, n).Ok? ==>
      Targets(topo, key, i).Ok? && Targets(topo, key, i).value <= Targets(topo, key, n).value
    decreases n
  {
    if i < n { TargetsGrow(topo, key, i, n - 1); }
  }

  /** A refused copy was not welcome before the run either. */
  lemma Unwelcome(topo: Topology, before: Stores, now: Stores, self: NodeId, key: string, hash: Hash, i: nat, n: nat,
                  sent: seq<Target>, t: Target)
    requires i <= n && self in before
    requires Replicated(topo, before, now, self, hash, sent)
    requires Targets(topo, key, i) == Ok(sent + [t]) && t.key != ""
    requires Refused(topo, now, self, hash, t)
    ensures !Acceptable(topo, before, self, key, hash, n)
  {
    TargetsGrow(topo, key, i, n);
    OwnFileStays(topo, before, now, self, hash, sent);
    if Targets(topo, key, n).Ok? {
      var ts := Targets(topo, key, n).value;
      var k, to := |sent|, topo.resolve(t.addr);
      assert ts[k] == (sent + [t])[k] == t;
      assert forall j :: 0 <= j < k ==> ts[j] == (sent + [t])[j] == sent[j];
      assert t in ts;
      if to in now && Indexed(now[to].rows, hash) && now[to] != before[to] {
        var u :| u in sent && topo.resolve(u.addr) == to;
        var j :| 0 <= j < |sent| && sent[j] == u;
        assert topo.resolve(ts[j].addr) == topo.resolve(ts[k].addr);
      }
    }
  }
}

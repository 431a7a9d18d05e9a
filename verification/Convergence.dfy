/** Rebases of all nodes together: when no content is on two nodes, every row comes home. */
module Convergence {
  import opened Results
  import opened StoreModel
  import opened RebasePaging
  import opened Topologies
  import opened Rebasing

  // ---------------------------------------------------------------- clusters that can settle

  /** No content is indexed on two nodes. */
  ghost predicate IndexedOnce(stores: Stores) {
    forall m, n, h :: m in stores && n in stores && Indexed(stores[m].rows, h) && Indexed(stores[n].rows, h) ==> m == n
  }

  /** The owner of the key is known, alive and one of the nodes, and each node knows its own address. */
  ghost predicate KeyPlaced(topo: Topology, alive: set<string>, nodes: set<NodeId>, key: string) {
    && topo.owner(key).Ok? && topo.owner(key).value in alive && topo.resolve(topo.owner(key).value) in nodes
    && forall n :: n in nodes ==> (topo.Misplaced(n, key) <==> !topo.Home(key, n))
  }

  ghost predicate AllPlaced(topo: Topology, alive: set<string>, stores: Stores) {
    forall n, r :: n in stores && r in stores[n].rows ==> KeyPlaced(topo, alive, stores.Keys, r.key)
  }

  ghost predicate CanSettle(topo: Topology, alive: set<string>, stores: Stores) {
    AllConsistent(stores) && IndexedOnce(stores) && AllPlaced(topo, alive, stores)
  }

  lemma RowIsIndexed(rows: seq<Row>, r: Row)
    requires r in rows
    ensures Indexed(rows, r.hash)
  {
  }

  /** Every node of such a cluster is ready: only a transport fault can stop its pass. */
  lemma EveryNodeIsReady(topo: Topology, alive: set<string>, stores: Stores, n: NodeId)
    requires CanSettle(topo, alive, stores) && n in stores
    ensures Ready(topo, alive, stores, n)
  {
    DistinctKeysMembers(stores[n].rows);
    forall k | k in DistinctKeys(stores[n].rows)
      ensures topo.owner(k).Ok? && topo.owner(k).value in alive && (topo.Misplaced(n, k) ==> Free(topo, stores, n, k))
    {
      var r :| r in stores[n].rows && r.key == k;
      assert KeyPlaced(topo, alive, stores.Keys, r.key);
      if topo.Misplaced(n, k) {
        var to := topo.resolve(topo.owner(k).value);
        forall h | Row(k, h) in stores[n].rows ensures !Indexed(stores[to].rows, h) {
          RowIsIndexed(stores[n].rows, Row(k, h));
        }
        assert Open(topo, stores, n, k, to);
      }
    }
  }

  // ---------------------------------------------------------------- what one pass does to all nodes

  /** A row that another node has after the pass is its own, or came from `self` and is gone there. */
  lemma GainedRowsAreGone(topo: Topology, alive: set<string>, self: NodeId, before: Stores, after: Stores, n: NodeId,
                          r: Row)
    requires CanSettle(topo, alive, before) && Passed(topo, alive, self, before, after)
    requires n in after && n != self && r in after[n].rows && r !in before[n].rows
    ensures r in before[self].rows && topo.Home(r.key, n) && r !in after[self].rows
  {
    EveryNodeIsReady(topo, alive, before, self);
    assert Grew(topo, n, before[n], after[n], before[self]);
    assert KeyPlaced(topo, alive, before.Keys, r.key);
    assert Row(r.key, r.hash) == r;
    RowIsIndexed(after[n].rows, r);
    DistinctKeysMembers(after[self].rows);
  }

  /** Where a hash indexed after the pass was indexed before. */
  lemma IndexedBefore(topo: Topology, alive: set<string>, self: NodeId, before: Stores, after: Stores, n: NodeId,
                      h: Hash)
      returns (r: Row)
    requires CanSettle(topo, alive, before) && Passed(topo, alive, self, before, after)
    requires n in after && Indexed(after[n].rows, h)
    ensures r.hash == h && r in after[n].rows && (r in before[n].rows || r in before[self].rows)
  {
    r :| r in after[n].rows && r.hash == h;
    if n != self && r !in before[n].rows {
      GainedRowsAreGone(topo, alive, self, before, after, n, r);
    }
  }

  /** Two rows of one content before the pass were one row on one node. */
  lemma SameContentIsSameRow(stores: Stores, m: NodeId, n: NodeId, r: Row, s: Row)
    requires AllConsistent(stores) && IndexedOnce(stores) && m in stores && n in stores
    requires r in stores[m].rows && s in stores[n].rows && r.hash == s.hash
    ensures m == n && r == s
  {
    RowIsIndexed(stores[m].rows, r);
    RowIsIndexed(stores[n].rows, s);
    UniqueRow(stores[m].rows, r, s);
  }

  lemma PassKeepsIndexedOnce(topo: Topology, alive: set<string>, self: NodeId, before: Stores, after: Stores)
    requires CanSettle(topo, alive, before) && Passed(topo, alive, self, before, after)
    ensures IndexedOnce(after)
  {
    forall m, n, h | m in after && n in after && Indexed(after[m].rows, h) && Indexed(after[n].rows, h) ensures m == n {
      var r := IndexedBefore(topo, alive, self, before, after, m, h);
      var s := IndexedBefore(topo, alive, self, before, after, n, h);
      StayedOrMoved(topo, alive, self, before, after, m, r);
      StayedOrMoved(topo, alive, self, before, after, n, s);
      if r in before[m].rows {
        SameContentIsSameRow(before, m, if s in before[n].rows then n else self, r, s);
      } else {
        SameContentIsSameRow(before, self, if s in before[n].rows then n else self, r, s);
      }
    }
  }

  lemma StayedOrMoved(topo: Topology, alive: set<string>, self: NodeId, before: Stores, after: Stores, n: NodeId,
                      r: Row)
    requires CanSettle(topo, alive, before) && Passed(topo, alive, self, before, after) && n in after
    requires r in after[n].rows
    ensures r in before[n].rows
      || (n != self && r in before[self].rows && topo.Home(r.key, n) && r !in after[self].rows)
  {
    if n != self && r !in before[n].rows {
      GainedRowsAreGone(topo, alive, self, before, after, n, r);
    }
  }

  lemma PassKeepsSettling(topo: Topology, alive: set<string>, self: NodeId, before: Stores, after: Stores)
    requires CanSettle(topo, alive, before) && Passed(topo, alive, self, before, after)
    ensures CanSettle(topo, alive, after)
  {
    PassKeepsIndexedOnce(topo, alive, self, before, after);
    forall n, r | n in after && r in after[n].rows ensures KeyPlaced(topo, alive, after.Keys, r.key) {
      StayedOrMoved(topo, alive, self, before, after, n, r);
    }
  }

  /** `n` has the row, with these bytes. */
  ghost predicate At(stores: Stores, n: NodeId, r: Row, bytes: Bytes) {
    var path := MakePathFromHash(r.hash);
    n in stores && r in stores[n].rows && path in stores[n].files && stores[n].files[path] == bytes
  }

  /** No row and no byte is lost: a row is where it was, or has moved home. */
  lemma PassKeepsRows(topo: Topology, alive: set<string>, self: NodeId, before: Stores, after: Stores, n: NodeId,
                      r: Row, bytes: Bytes)
      returns (m: NodeId)
    requires CanSettle(topo, alive, before) && Passed(topo, alive, self, before, after) && At(before, n, r, bytes)
    ensures At(after, m, r, bytes)
  {
    if n != self {
      m := n;
      OtherFilesStay(topo, alive, self, before, after, n, r, bytes);
    } else if StillHere(before[self], after[self], r) {
      m := n;
    } else {
      assert Safe(topo, self, before, after, r);
      m :| SafeAt(topo, self, before, after, r, m);
    }
  }

  lemma OtherFilesStay(topo: Topology, alive: set<string>, self: NodeId, before: Stores, after: Stores, n: NodeId,
                       r: Row, bytes: Bytes)
    requires CanSettle(topo, alive, before) && Passed(topo, alive, self, before, after) && At(before, n, r, bytes)
    requires n != self
    ensures At(after, n, r, bytes)
  {
    var path := MakePathFromHash(r.hash);
    assert Grew(topo, n, before[n], after[n], before[self]);
    if after[n].files[path] != bytes {
      assert OwnBytes(before[self], path, after[n].files[path]);
      var s :| s in before[self].rows && MakePathFromHash(s.hash) == path;
      PathsAreInjective(s.hash, r.hash);
      SameContentIsSameRow(before, n, self, r, s);
    }
  }

  // ---------------------------------------------------------------- how many keys are misplaced

  function MisplacedAt(topo: Topology, stores: Stores, n: NodeId): nat
    requires n in stores
  {
    var keys := DistinctKeys(stores[n].rows);
    Count(keys, MisplacedKeys(topo, n, keys))
  }

  /** Appended rows of well-placed keys do not count. */
  lemma {:induction false} CountOfAppended(b: seq<Row>, a: seq<Row>, bad: set<string>)
    requires b <= a && forall r :: r in a ==> r in b || r.key !in bad
    ensures Count(DistinctKeys(a), bad) == Count(DistinctKeys(b), bad)
    decreases |a|
  {
    if |a| > |b| {
      var front, last := a[..|a| - 1], a[|a| - 1];
      assert forall r :: r in front ==> r in a;
      CountOfAppended(b, front, bad);
      if last.key !in DistinctKeys(front) {
        DistinctKeysMembers(front);
        assert last in a && last !in b;
        assert (DistinctKeys(front) + [last.key])[..|DistinctKeys(front)|] == DistinctKeys(front);
      }
    } else {
      assert a == b;
    }
  }

  /** A pass adds no misplaced key to another node. */
  lemma PassLeavesOthersCount(topo: Topology, alive: set<string>, self: NodeId, before: Stores, after: Stores,
                              n: NodeId)
    requires CanSettle(topo, alive, before) && Passed(topo, alive, self, before, after) && n in before && n != self
    ensures n in after && MisplacedAt(topo, after, n) == MisplacedAt(topo, before, n)
  {
    var b, a := before[n].rows, after[n].rows;
    var bad := MisplacedKeys(topo, n, DistinctKeys(a));
    assert Grew(topo, n, before[n], after[n], before[self]);
    forall r | r in a ensures r in b || r.key !in bad {
      if r !in b {
        assert r in before[self].rows && KeyPlaced(topo, alive, before.Keys, r.key);
      }
    }
    CountOfAppended(b, a, bad);
    DistinctKeysMembers(a);
    DistinctKeysMembers(b);
    DroppedDependsOnMembers(DistinctKeys(b), bad, MisplacedKeys(topo, n, DistinctKeys(b)));
  }

  /** A pass at least halves the misplaced keys of its own node. */
  lemma PassHalvesOwnCount(topo: Topology, alive: set<string>, self: NodeId, before: Stores, after: Stores)
    requires CanSettle(topo, alive, before) && Passed(topo, alive, self, before, after)
    ensures self in after && 2 * MisplacedAt(topo, after, self) <= MisplacedAt(topo, before, self)
  {
    var keys, left := DistinctKeys(before[self].rows), DistinctKeys(after[self].rows);
    var bad := MisplacedKeys(topo, self, keys);
    DistinctKeysMembers(before[self].rows);
    PassHalves(keys, bad);
    KeysShrink(topo, self, before, after);
    DroppedDependsOnMembers(left, bad, MisplacedKeys(topo, self, left));
  }

  /** The passes that a node still needs, at most: one less after each pass of its own. */
  lemma PassSavesAPass(topo: Topology, alive: set<string>, self: NodeId, before: Stores, after: Stores)
    requires CanSettle(topo, alive, before) && Passed(topo, alive, self, before, after)
    ensures self in after
    ensures PassesNeeded(MisplacedAt(topo, after, self)) <=
      if MisplacedAt(topo, before, self) == 0 then 0 else PassesNeeded(MisplacedAt(topo, before, self)) - 1
  {
    PassHalvesOwnCount(topo, alive, self, before, after);
    NeedIsMonotone(MisplacedAt(topo, after, self), MisplacedAt(topo, before, self) / 2);
  }

  // ---------------------------------------------------------------- passes of all nodes, in any order

  /** `states` are the stores before and after each of the passes, which the nodes of `who` make one by one. */
  ghost predicate IsSchedule(topo: Topology, alive: set<string>, states: seq<Stores>, who: seq<NodeId>) {
    && |states| == |who| + 1
    && forall i :: 0 <= i < |who| ==> PassAt(topo, alive, states, who, i)
  }

  ghost predicate PassAt(topo: Topology, alive: set<string>, states: seq<Stores>, who: seq<NodeId>, i: nat)
    requires i < |who| && |states| == |who| + 1
  {
    Passed(topo, alive, who[i], states[i], states[i + 1])
  }

  /** How many of the passes are made by `n`. */
  function Turns(who: seq<NodeId>, n: NodeId): nat {
    if who == [] then 0 else Turns(who[..|who| - 1], n) + if who[|who| - 1] == n then 1 else 0
  }

  /** After some passes the cluster can still settle, and each of its own passes has brought a node closer. */
  ghost predicate Nearer(topo: Topology, alive: set<string>, first: Stores, now: Stores, who: seq<NodeId>) {
    && CanSettle(topo, alive, now) && now.Keys == first.Keys
    && forall n :: n in now ==> Closer(topo, first, now, who, n)
  }

  ghost predicate Closer(topo: Topology, first: Stores, now: Stores, who: seq<NodeId>, n: NodeId)
    requires n in now && n in first
  {
    var left := PassesNeeded(MisplacedAt(topo, now, n));
    left == 0 || left + Turns(who, n) <= PassesNeeded(MisplacedAt(topo, first, n))
  }

  lemma OnePassNearer(topo: Topology, alive: set<string>, first: Stores, now: Stores, after: Stores, who: seq<NodeId>,
                      self: NodeId)
    requires Nearer(topo, alive, first, now, who) && Passed(topo, alive, self, now, after)
    ensures Nearer(topo, alive, first, after, who + [self])
  {
    PassKeepsSettling(topo, alive, self, now, after);
    assert (who + [self])[..|who|] == who;
    forall n | n in after ensures Closer(topo, first, after, who + [self], n) {
      assert Closer(topo, first, now, who, n);
      if n == self {
        PassSavesAPass(topo, alive, self, now, after);
      } else {
        PassLeavesOthersCount(topo, alive, self, now, after, n);
      }
    }
  }

  /** The same rows as at first, wherever they are, with the same bytes. */
  ghost predicate SameRows(first: Stores, now: Stores) {
    && (forall n, r, bytes :: At(first, n, r, bytes) ==> exists m :: At(now, m, r, bytes))
    && forall m, r :: m in now && r in now[m].rows ==> exists n :: n in first && r in first[n].rows
  }

  lemma OnePassSameRows(topo: Topology, alive: set<string>, first: Stores, now: Stores, after: Stores, self: NodeId)
    requires SameRows(first, now) && CanSettle(topo, alive, now) && Passed(topo, alive, self, now, after)
    ensures SameRows(first, after)
  {
    forall n, r, bytes | At(first, n, r, bytes) ensures exists m :: At(after, m, r, bytes) {
      var m :| At(now, m, r, bytes);
      var to := PassKeepsRows(topo, alive, self, now, after, m, r, bytes);
    }
    forall m, r | m in after && r in after[m].rows ensures exists n :: n in first && r in first[n].rows {
      StayedOrMoved(topo, alive, self, now, after, m, r);
      assert r in now[m].rows || r in now[self].rows;
    }
  }

  /** What holds after some passes of a cluster that can settle. */
  ghost predicate OnTheWayHome(topo: Topology, alive: set<string>, first: Stores, now: Stores, who: seq<NodeId>) {
    Nearer(topo, alive, first, now, who) && SameRows(first, now)
  }

  lemma OnePassOn(topo: Topology, alive: set<string>, first: Stores, now: Stores, after: Stores, who: seq<NodeId>,
                  self: NodeId, more: seq<NodeId>)
    requires OnTheWayHome(topo, alive, first, now, who) && Passed(topo, alive, self, now, after) && more == who + [self]
    ensures OnTheWayHome(topo, alive, first, after, more)
  {
    OnePassNearer(topo, alive, first, now, after, who, self);
    OnePassSameRows(topo, alive, first, now, after, self);
  }

  lemma NoPassYet(topo: Topology, alive: set<string>, first: Stores)
    requires CanSettle(topo, alive, first)
    ensures OnTheWayHome(topo, alive, first, first, [])
  {
  }

  lemma {:induction false} ScheduleGoesOn(topo: Topology, alive: set<string>, states: seq<Stores>, who: seq<NodeId>,
                                          k: nat)
    requires IsSchedule(topo, alive, states, who) && CanSettle(topo, alive, states[0]) && k <= |who|
    ensures OnTheWayHome(topo, alive, states[0], states[k], who[..k])
    decreases k
  {
    if k == 0 {
      NoPassYet(topo, alive, states[0]);
      assert who[..0] == [];
    } else {
      ScheduleGoesOn(topo, alive, states, who, k - 1);
      OnePassInSchedule(topo, alive, states, who, k - 1);
    }
  }

  lemma OnePassInSchedule(topo: Topology, alive: set<string>, states: seq<Stores>, who: seq<NodeId>, i: nat)
    requires IsSchedule(topo, alive, states, who) && i < |who|
    requires OnTheWayHome(topo, alive, states[0], states[i], who[..i])
    ensures OnTheWayHome(topo, alive, states[0], states[i + 1], who[..i + 1])
  {
    var made, more := who[..i], who[..i + 1];
    assert more == made + [who[i]];
    assert PassAt(topo, alive, states, who, i);
    OnePassOn(topo, alive, states[0], states[i], states[i + 1], made, who[i], more);
  }

  /** Every row that was anywhere at first is now at its home with its bytes, there are no other rows, and no node
      has a misplaced key. */
  ghost predicate AllHome(topo: Topology, first: Stores, now: Stores) {
    && SameRows(first, now)
    && (forall m, r :: m in now && r in now[m].rows ==> topo.Home(r.key, m) && !topo.Misplaced(m, r.key))
    && forall n, r, bytes :: At(first, n, r, bytes) ==>
         topo.owner(r.key).Ok? && At(now, topo.resolve(topo.owner(r.key).value), r, bytes)
  }

  lemma NoneMisplaced(topo: Topology, alive: set<string>, now: Stores, m: NodeId, r: Row)
    requires CanSettle(topo, alive, now) && m in now && r in now[m].rows && PassesNeeded(MisplacedAt(topo, now, m)) == 0
    ensures topo.Home(r.key, m) && !topo.Misplaced(m, r.key)
  {
    var keys := DistinctKeys(now[m].rows);
    DistinctKeysMembers(now[m].rows);
    NothingCounted(keys, MisplacedKeys(topo, m, keys));
    assert r.key in keys && KeyPlaced(topo, alive, now.Keys, r.key);
  }

  /** Each node makes floor(log2 M) + 1 of the passes, for the M keys that are misplaced on it. */
  ghost predicate Enough(topo: Topology, first: Stores, who: seq<NodeId>) {
    forall n :: n in first ==> PassesNeeded(MisplacedAt(topo, first, n)) <= Turns(who, n)
  }

  /** Convergence of the cluster: in whatever order the nodes make their passes, once each node has made
      enough of them, every row is at home. */
  lemma EveryRowComesHome(topo: Topology, alive: set<string>, states: seq<Stores>, who: seq<NodeId>)
    requires IsSchedule(topo, alive, states, who) && CanSettle(topo, alive, states[0])
    requires Enough(topo, states[0], who)
    ensures AllHome(topo, states[0], states[|who|])
  {
    var now := states[|who|];
    ScheduleGoesOn(topo, alive, states, who, |who|);
    assert who[..|who|] == who;
    forall m, r | m in now && r in now[m].rows ensures topo.Home(r.key, m) && !topo.Misplaced(m, r.key) {
      assert Closer(topo, states[0], now, who, m);
      NoneMisplaced(topo, alive, now, m, r);
    }
    forall n, r, bytes | At(states[0], n, r, bytes)
      ensures topo.owner(r.key).Ok? && At(now, topo.resolve(topo.owner(r.key).value), r, bytes)
    {
      var m :| At(now, m, r, bytes);
      assert topo.Home(r.key, m);
    }
  }

  /** The next signal of a schedule. */
  method ServeNext(c: Client, n: NodeId, ghost states: seq<Stores>, ghost made: seq<NodeId>) returns (r: Result<()>)
    requires AllConsistent(c.stores) && n in c.stores
    requires IsSchedule(c.topo, c.alive, states, made) && states[|made|] == c.stores
    modifies c`stores
    ensures AllConsistent(c.stores) && c.stores.Keys == old(c.stores).Keys
    ensures CanSettle(c.topo, c.alive, states[0]) ==> OkOrFault(c.reliable, r)
    ensures r.Ok? ==> IsSchedule(c.topo, c.alive, states + [c.stores], made + [n])
  {
    NextIsReady(c.topo, c.alive, states, made, n);
    r := c.HandleRebaseSignal(n);
    if r.Ok? {
      OneMoreInSchedule(c.topo, c.alive, states, made, n, c.stores);
    }
  }

  /** Rebase signals that reach the nodes in any order, one at a time. From a cluster that can settle, only a
      transport fault stops them; if there is none and each node got enough signals, every row is at home. */
  method ServeSignalsInTurn(c: Client, who: seq<NodeId>) returns (r: Result<()>)
    requires AllConsistent(c.stores) && forall n :: n in who ==> n in c.stores
    modifies c`stores
    ensures CanSettle(c.topo, c.alive, old(c.stores)) ==> OkOrFault(c.reliable, r)
    ensures r.Ok? && CanSettle(c.topo, c.alive, old(c.stores)) && Enough(c.topo, old(c.stores), who) ==>
      AllHome(c.topo, old(c.stores), c.stores)
  {
    ghost var first := c.stores;
    ghost var states := [first];
    for i := 0 to |who|
      invariant AllConsistent(c.stores) && c.stores.Keys == first.Keys
      invariant IsSchedule(c.topo, c.alive, states, who[..i]) && states[0] == first && states[i] == c.stores
    {
      assert who[i] in who && who[..i + 1] == who[..i] + [who[i]];
      r := ServeNext(c, who[i], states, who[..i]);
      if r.Err? {
        return;
      }
      states := states + [c.stores];
    }
    assert who[..|who|] == who;
    if CanSettle(c.topo, c.alive, first) && Enough(c.topo, first, who) {
      EveryRowComesHome(c.topo, c.alive, states, who);
    }
    r := Ok(());
  }

  lemma NextIsReady(topo: Topology, alive: set<string>, states: seq<Stores>, who: seq<NodeId>, n: NodeId)
    requires IsSchedule(topo, alive, states, who)
    ensures CanSettle(topo, alive, states[0]) && n in states[|who|] ==> Ready(topo, alive, states[|who|], n)
  {
    if CanSettle(topo, alive, states[0]) && n in states[|who|] {
      ScheduleGoesOn(topo, alive, states, who, |who|);
      EveryNodeIsReady(topo, alive, states[|who|], n);
    }
  }

  lemma OneMoreInSchedule(topo: Topology, alive: set<string>, states: seq<Stores>, who: seq<NodeId>, self: NodeId,
                          after: Stores)
    requires IsSchedule(topo, alive, states, who) && Passed(topo, alive, self, states[|who|], after)
    ensures IsSchedule(topo, alive, states + [after], who + [self])
  {
    var longer, more := states + [after], who + [self];
    forall i | 0 <= i < |more| ensures PassAt(topo, alive, longer, more, i) {
      if i < |who| { assert PassAt(topo, alive, states, who, i); }
    }
  }
}

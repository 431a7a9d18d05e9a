/** The hash ring object, and the guarded announcements that change it. */
module HashRings {
  import opened Int64
  import opened RingSearch
  import opened RingTheory
  import opened Lists
  import opened Results

  class Node {
    const addr: string
    var alive: bool

    constructor (addr: string)
      ensures this.addr == addr && !alive
    {
      this.addr := addr;
      alive := false;
    }
  }

  /** The id list after removing `keys` one by one. */
  function RemoveAll(arr: seq<Id>, keys: seq<Id>): (r: seq<Id>)
    requires |keys| <= |arr|
    ensures |r| == |arr| - |keys|
    decreases |keys|
  {
    if keys == [] then arr else Remove(RemoveAll(arr, keys[..|keys| - 1]), keys[|keys| - 1])
  }

  lemma InsertOneMore(arr: seq<Id>, order: seq<Id>, x: Id)
    ensures InsertAll(arr, order + [x]) == Insert(InsertAll(arr, order), x)
  {
    assert (order + [x])[..|order|] == order;
  }

  lemma RemoveOneMore(arr: seq<Id>, keys: seq<Id>, x: Id)
    requires |keys| < |arr|
    ensures RemoveAll(arr, keys + [x]) == Remove(RemoveAll(arr, keys), x)
  {
    assert (keys + [x])[..|keys|] == keys;
  }

  lemma HasSome(nodes: map<int, Node>, k: int)
    requires k in nodes
    ensures |nodes| > 0
  {
    assert |nodes.Keys| == |nodes|;
  }

  lemma OneMoreKey(nodes: map<int, Node>, k: int, node: Node)
    ensures |nodes[k := node]| <= |nodes| + 1
  {
    var more := nodes[k := node];
    assert more.Keys == nodes.Keys + {k};
    assert |more| == |more.Keys| && |nodes| == |nodes.Keys|;
  }

  class HashRing {
    const hashKey: string -> Id
    var ids: seq<Id>
    var nodes: map<int, Node>

    constructor (hashKey: string -> Id)
      ensures this.hashKey == hashKey && ids == [] && nodes == map[]
    {
      this.hashKey := hashKey;
      ids := [];
      nodes := map[];
    }

    /** The list and the map register the same ids. */
    ghost predicate Agrees()
      reads this
    {
      forall v: int :: v in ids <==> v in nodes
    }

    function KeysOf(some: seq<Node>): (r: seq<Id>)
      ensures |r| == |some|
      ensures forall i :: 0 <= i < |some| ==> r[i] == hashKey(some[i].addr)
    {
      if some == [] then [] else KeysOf(some[..|some| - 1]) + [hashKey(some[|some| - 1].addr)]
    }

    function Registered(before: map<int, Node>, some: seq<Node>): map<int, Node>
      decreases |some|
    {
      if some == [] then before
      else
        var last := some[|some| - 1];
        Registered(before, some[..|some| - 1])[hashKey(last.addr) as int := last]
    }

    function Unregistered(before: map<int, Node>, some: seq<Node>): map<int, Node> {
      before - set k: int | k in KeysOf(some)
    }

    lemma OneMore(some: seq<Node>, i: nat, before: map<int, Node>)
      requires i < |some|
      ensures KeysOf(some[..i + 1]) == KeysOf(some[..i]) + [hashKey(some[i].addr)]
      ensures Registered(before, some[..i + 1])
           == Registered(before, some[..i])[hashKey(some[i].addr) as int := some[i]]
      ensures Unregistered(before, some[..i + 1]) == Unregistered(before, some[..i]) - {hashKey(some[i].addr)}
    {
      assert some[..i + 1][..i] == some[..i];
      var now, next, last := KeysOf(some[..i]), KeysOf(some[..i + 1]), hashKey(some[i].addr);
      assert forall k :: k in next <==> k in now || k == last;
      assert (set k: int | k in next) == (set k: int | k in now) + {last};
    }

    /** The map gains exactly the nodes' keys. */
    lemma {:induction false} RegisteredKeys(before: map<int, Node>, some: seq<Node>)
      ensures forall v: int :: v in Registered(before, some) <==> v in before || v in KeysOf(some)
    {
      if some != [] {
        var front := some[..|some| - 1];
        RegisteredKeys(before, front);
        var last := hashKey(some[|some| - 1].addr);
        assert forall v: int :: v in KeysOf(some) <==> v in KeysOf(front) || v == last;
      }
    }

    lemma OneMoreAdded(some: seq<Node>, i: nat, arr: seq<Id>, before: map<int, Node>)
      requires i < |some|
      ensures var key := hashKey(some[i].addr);
        && InsertAll(arr, KeysOf(some[..i + 1])) == Insert(InsertAll(arr, KeysOf(some[..i])), key)
        && Registered(before, some[..i + 1]) == Registered(before, some[..i])[key as int := some[i]]
    {
      OneMore(some, i, before);
      InsertOneMore(arr, KeysOf(some[..i]), hashKey(some[i].addr));
    }

    lemma AddedAgrees(arr: seq<Id>, before: map<int, Node>, some: seq<Node>)
      ensures multiset(InsertAll(arr, KeysOf(some))) == multiset(arr) + multiset(KeysOf(some))
      ensures (forall v: int :: v in arr <==> v in before) ==>
        forall v: int :: v in InsertAll(arr, KeysOf(some)) <==> v in Registered(before, some)
    {
      InsertAllKeepsMembers(arr, KeysOf(some));
      RegisteredKeys(before, some);
    }

    /** Adding nodes registers at most one key each, so the list stays at least as long, whatever repeats. */
    lemma {:induction false} RegisteredAtMost(before: map<int, Node>, some: seq<Node>)
      ensures |Registered(before, some)| <= |before| + |some|
      ensures forall arr: seq<Id> :: |before| <= |arr| ==> |Registered(before, some)| <= |InsertAll(arr, KeysOf(some))|
      decreases |some|
    {
      if some != [] {
        var last := some[|some| - 1];
        RegisteredAtMost(before, some[..|some| - 1]);
        OneMoreKey(Registered(before, some[..|some| - 1]), hashKey(last.addr), last);
      }
      forall arr: seq<Id> | |before| <= |arr| ensures |Registered(before, some)| <= |InsertAll(arr, KeysOf(some))| {
        InsertAllKeepsMembers(arr, KeysOf(some));
      }
    }

    /** Of several nodes with one key the last is registered. */
    lemma {:induction false} LastIsRegistered(before: map<int, Node>, some: seq<Node>, i: nat)
      requires i < |some| && forall j :: i < j < |some| ==> hashKey(some[j].addr) != hashKey(some[i].addr)
      ensures hashKey(some[i].addr) in Registered(before, some)
      ensures Registered(before, some)[hashKey(some[i].addr)] == some[i]
      decreases |some|
    {
      var n := |some| - 1;
      if i < n {
        assert some[..n][i] == some[i];
        forall j | i < j < n ensures hashKey(some[..n][j].addr) != hashKey(some[i].addr) {
          assert some[..n][j] == some[j];
        }
        LastIsRegistered(before, some[..n], i);
      }
    }

    method InsertId(id: Id)
      modifies this`ids
      ensures ids == Insert(old(ids), id)
    {
      if |ids| == 0 {
        ids := ids + [id];
        return;
      }
      var found := FindIndex(ids, id);
      var newIdPos := found + 1;
      var newIds := [];
      newIds := newIds + ids[..newIdPos];
      newIds := newIds + [id];
      newIds := newIds + ids[newIdPos..];
      ids := newIds;
    }

    method RemoveId(id: Id)
      requires ids != []
      modifies this`ids
      ensures ids == Remove(old(ids), id)
    {
      var index := FindIndex(ids, id);
      ids := ids[..index] + ids[index + 1..];
    }

    /** Registers every node; the list gains exactly their ids and stays in step with the map. */
    method AddNode(added: seq<Node>)
      modifies this
      ensures ids == InsertAll(old(ids), KeysOf(added))
      ensures nodes == Registered(old(nodes), added)
      ensures multiset(ids) == old(multiset(ids)) + multiset(KeysOf(added))
      ensures old(Agrees()) ==> Agrees()
    {
      ghost var before, listed := nodes, ids;
      var i := 0;
      while i < |added|
        invariant 0 <= i <= |added|
        invariant ids == InsertAll(listed, KeysOf(added[..i]))
        invariant nodes == Registered(before, added[..i])
      {
        OneMoreAdded(added, i, listed, before);
        Register(added[i]);
        i := i + 1;
      }
      assert added[..i] == added;
      AddedAgrees(listed, before, added);
    }

    method Register(node: Node)
      modifies this
      ensures ids == Insert(old(ids), hashKey(node.addr)) && nodes == old(nodes)[hashKey(node.addr) as int := node]
    {
      var nodeKey := hashKey(node.addr);
      InsertId(nodeKey);
      nodes := nodes[nodeKey as int := node];
    }

    /** Unregisters every node; each removal takes one id out of the list, as Remove says which.
        An empty list has no index to cut at, so there must be an id for each removal. */
    method RemoveNode(removed: seq<Node>)
      requires |removed| <= |ids|
      modifies this
      ensures ids == RemoveAll(old(ids), KeysOf(removed))
      ensures nodes == old(nodes) - set k: int | k in KeysOf(removed)
    {
      var i := 0;
      while i < |removed|
        invariant 0 <= i <= |removed| && |ids| == old(|ids|) - i
        invariant ids == RemoveAll(old(ids), KeysOf(removed[..i]))
        invariant nodes == Unregistered(old(nodes), removed[..i])
      {
        var nodeKey := hashKey(removed[i].addr);
        OneMore(removed, i, old(nodes));
        RemoveOneMore(old(ids), KeysOf(removed[..i]), nodeKey);
        nodes := nodes - {nodeKey};
        RemoveId(nodeKey);
        i := i + 1;
      }
      assert removed[..i] == removed;
    }

    function Lookup(key: string): Result<Node>
      reads this
    {
      var closest := ClosestFor(ids, hashKey(key));
      if closest in nodes then Ok(nodes[closest]) else Err(NodeNotFound)
    }

    /** The node at the id nearest to the key's hash, on a ring in good order. A key whose hash is itself an id may
        not be found, on a ring of five or more. */
    method GetNodeForKey(key: string) returns (r: Result<Node>)
      ensures r == Lookup(key)
      ensures Agrees() && StrictlySorted(ids) && ids != [] ==> (r.Ok? <==> Findable(ids, hashKey(key)))
      ensures Agrees() && StrictlySorted(ids) && ids != [] && NoOverflow(ids, hashKey(key)) && hashKey(key) !in ids
              ==> Scan(ids, hashKey(key)) in nodes && r == Ok(nodes[Scan(ids, hashKey(key))])
    {
      var hashedKey := hashKey(key);
      var closestNodeId := FindClosestElement(ids, hashedKey);
      if StrictlySorted(ids) && ids != [] {
        ClosestIsListedExactly(ids, hashedKey);
        if hashedKey !in ids {
          ClosestRefinesScan(ids, hashedKey);
        }
      }
      if closestNodeId !in nodes {
        return Err(NodeNotFound);
      }
      return Ok(nodes[closestNodeId]);
    }

    method NodeExists(key: string) returns (ok: bool)
      ensures ok <==> hashKey(key) in nodes
    {
      var hashedKey := hashKey(key);
      ok := hashedKey in nodes;
    }

    // -------------------------------------------------------------- announcements

    method AnnounceNewNode(address: string) returns (r: Result<()>)
      modifies this
      ensures View() == Join(old(View()), hashKey(address))
      ensures r == if old(hashKey(address) in nodes) then Err(AlreadyExists) else Ok(())
      ensures r.Ok? ==> Lookupable(address)
      ensures forall v :: v in old(nodes) ==> v in nodes && nodes[v] == old(nodes)[v]
      ensures forall v :: v in nodes ==> v in old(nodes) || (r.Ok? && v == hashKey(address))
    {
      var exists_ := NodeExists(address);
      if exists_ {
        return Err(AlreadyExists);
      }
      var node := new Node(address);
      assert [node][..0] == [];
      assert KeysOf([node]) == [hashKey(address)];
      assert [hashKey(address)][..0] == [];
      AddNode([node]);
      r := Ok(());
    }

    method AnnounceRemoveNode(address: string) returns (r: Result<()>)
      requires |nodes| <= |ids|
      modifies this
      ensures View() == Leave(old(View()), hashKey(address))
      ensures r == if old(hashKey(address) in nodes) then Ok(()) else Err(NodeNotFound)
      ensures nodes == old(nodes) - {hashKey(address)}
    {
      var exists_ := NodeExists(address);
      if !exists_ {
        return Err(NodeNotFound);
      }
      var node := new Node(address);
      assert [node][..0] == [];
      assert KeysOf([node]) == [hashKey(address)];
      assert [hashKey(address)][..0] == [];
      HasSome(nodes, hashKey(address));
      RemoveNode([node]);
      r := Ok(());
    }

    ghost predicate Lookupable(address: string)
      reads this
    {
      hashKey(address) in nodes && nodes[hashKey(address)].addr == address && hashKey(address) in ids
    }

    /** The ring as a value. */
    function View(): Ring
      reads this
    {
      Ring(ids, nodes.Keys)
    }
  }

  // ---------------------------------------------------------------- runs of announcements

  /** The id list and the registered ids. */
  datatype Ring = Ring(ids: seq<Id>, members: set<int>)

  datatype Announcement = JoinOf(id: Id) | LeaveOf(id: Id)

  function Join(r: Ring, x: Id): Ring {
    if x in r.members then r else Ring(Insert(r.ids, x), r.members + {x})
  }

  function Leave(r: Ring, x: Id): Ring
    requires x in r.members ==> r.ids != []
  {
    if x !in r.members then r else Ring(Remove(r.ids, x), r.members - {x})
  }

  /** At least as many ids in the list as in the map: enough for a guarded removal to have an id to cut. A list
      loaded with a repeated address has more. */
  ghost predicate Balanced(r: Ring) {
    |r.members| <= |r.ids|
  }

  lemma BalancedHasIds(r: Ring, x: Id)
    requires Balanced(r) && x in r.members
    ensures r.ids != []
  {
    assert |r.members| != 0;
  }

  /** The ring after a run of guarded announcements: no removal in it ever meets an empty list. */
  ghost function Run(r: Ring, run: seq<Announcement>): (after: Ring)
    requires Balanced(r)
    ensures Balanced(after)
    decreases |run|
  {
    if run == [] then r
    else
      var before := Run(r, run[..|run| - 1]);
      match run[|run| - 1]
      case JoinOf(x) => InsertKeepsMembers(before.ids, x); Join(before, x)
      case LeaveOf(x) =>
        assert x in before.members ==> before.ids != [] by {
          if x in before.members { BalancedHasIds(before, x); }
        }
        Leave(before, x)
  }

  ghost predicate InStep(r: Ring) {
    && Distinct(r.ids)
    && forall v: int :: v in r.ids <==> v in r.members
  }

  /** Guarded joins in any order keep the list free of duplicates and in step with the map. */
  lemma JoinKeepsStep(r: Ring, x: Id)
    requires InStep(r)
    ensures InStep(Join(r, x))
    ensures r.ids != [] && StrictlySorted(r.ids) && x !in r.ids ==> (StrictlySorted(Join(r, x).ids) <==> r.ids[0] < x)
  {
    if x !in r.members {
      InsertKeepsMembers(r.ids, x);
      if r.ids != [] {
        SplicedDistinct(r.ids, x, IndexFor(r.ids, x) + 1);
        InsertSortedExactly(r.ids, x);
      }
    }
  }

  lemma SplicedDistinct(arr: seq<Id>, x: Id, pos: nat)
    requires Distinct(arr) && x !in arr && pos <= |arr|
    ensures Distinct(arr[..pos] + [x] + arr[pos..])
  {
    var s := arr[..pos] + [x] + arr[pos..];
    forall i, j | 0 <= i < j < |s| ensures s[i] != s[j] {
      assert i < pos ==> s[i] == arr[i];
      assert i > pos ==> s[i] == arr[i - 1];
      assert j < pos ==> s[j] == arr[j];
      assert j > pos ==> s[j] == arr[j - 1];
    }
  }

  /** A guarded removal from a sorted ring keeps list and map in step exactly if the search locates the id;
      otherwise the removed node stays in the list although it is no longer registered. */
  lemma LeaveKeepsStepExactly(r: Ring, p: nat)
    requires InStep(r) && StrictlySorted(r.ids) && p < |r.ids|
    ensures var after := Leave(r, r.ids[p]);
      && StrictlySorted(after.ids)
      && (InStep(after) <==> Locatable(|r.ids|, p))
      && (!Locatable(|r.ids|, p) ==> r.ids[p] in after.ids && r.ids[p] !in after.members)
  {
    var x := r.ids[p];
    assert x in r.ids;
    RemoveExact(r.ids, p);
    var after := Leave(r, x);
    if Locatable(|r.ids|, p) {
      forall v: int ensures v in after.ids <==> v in after.members {
        if -TWO_63 <= v < TWO_63 {
          var w: Id := v;
          assert w in after.ids <==> w in r.ids && w != x;
        }
      }
    }
  }
}

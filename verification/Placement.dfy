/** The ring as the cluster's owner function: what a joining node does to the placement of keys. */
module Placement {
  import opened Int64
  import opened Results
  import opened RingSearch
  import opened RingTheory
  import opened Topologies
  import opened Rebasing
  import HashRings

  /** A ring with the addresses of its nodes. */
  datatype Members = Members(ids: seq<Id>, addrs: map<int, string>)

  function OwnerAddr(m: Members, keyHash: Id): Result<string> {
    var closest := ClosestFor(m.ids, keyHash);
    if closest in m.addrs then Ok(m.addrs[closest]) else Err(NodeNotFound)
  }

  ghost predicate InOrder(m: Members) {
    && m.ids != [] && StrictlySorted(m.ids)
    && forall v: int :: v in m.ids <==> v in m.addrs
  }

  function Joined(m: Members, x: Id, addr: string): Members {
    Members(Insert(m.ids, x), m.addrs[x as int := addr])
  }

  /** The ring object's lookup answers the owner of this model. */
  lemma LookupIsOwnerAddr(ring: HashRings.HashRing, m: Members, key: string)
    requires m.ids == ring.ids && m.addrs == map v | v in ring.nodes :: ring.nodes[v].addr
    ensures ring.Lookup(key).Ok? <==> OwnerAddr(m, ring.hashKey(key)).Ok?
    ensures ring.Lookup(key).Ok? ==> OwnerAddr(m, ring.hashKey(key)) == Ok(ring.Lookup(key).value.addr)
  {
  }

  /** On a ring in good order every key has an owner, and a newcomer that fits takes keys over without moving
      any key between the old nodes. */
  lemma JoinRedirectsToNewcomer(m: Members, x: Id, addr: string, keyHash: Id)
    requires InOrder(m) && x !in m.ids && JoinFits(m.ids, x) && keyHash !in m.ids && keyHash != x
    ensures OwnerAddr(m, keyHash).Ok? && OwnerAddr(Joined(m, x, addr), keyHash).Ok?
    ensures OwnerAddr(Joined(m, x, addr), keyHash) in {OwnerAddr(m, keyHash), Ok(addr)}
  {
    ClosestRefinesScan(m.ids, keyHash);
    JoinMovesOnlyToTheNewcomerExactly(m.ids, x);
    var before: Id := ClosestFor(m.ids, keyHash);
    assert before in m.ids;
  }

  /** `topo` answers owners from the ring `m`. */
  ghost predicate OwnsBy(topo: Topology, m: Members, hashKey: string -> Id) {
    forall k :: topo.owner(k) == OwnerAddr(m, hashKey(k))
  }

  /** If nothing was misplaced on a node before a node joined, then everything that its next rebase moves
      goes to the newcomer. */
  lemma RebaseAfterJoinFeedsTheNewcomer(before: Topology, after: Topology, m: Members, hashKey: string -> Id,
                                        x: Id, addr: string, self: NodeId, keys: seq<string>)
    requires OwnsBy(before, m, hashKey) && OwnsBy(after, Joined(m, x, addr), hashKey)
    requires before.selfAddr(self) == after.selfAddr(self)
    requires InOrder(m) && x !in m.ids && JoinFits(m.ids, x)
    requires forall k :: k in keys ==> hashKey(k) !in m.ids && hashKey(k) != x
    requires MisplacedKeys(before, self, keys) == {}
    ensures forall k :: k in InfoOf(after, self, keys) ==> InfoOf(after, self, keys)[k] == addr
  {
    forall k | k in InfoOf(after, self, keys) ensures InfoOf(after, self, keys)[k] == addr {
      JoinRedirectsToNewcomer(m, x, addr, hashKey(k));
      assert k !in MisplacedKeys(before, self, keys);
    }
  }
}

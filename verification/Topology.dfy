/** Who owns a key, who listens where, and what each node stores. */
module Topologies {
  import opened Results
  import opened StoreModel

  type NodeId = nat
  type Stores = map<NodeId, Store>

  /** What stays fixed during a pass: the address that the ring answers for a key, the address a node calls
      its own, and the node that listens at an address. */
  datatype Topology = Topology(owner: string -> Result<string>, selfAddr: NodeId -> string, resolve: string -> NodeId) {
    /** Node `n` is where `key` belongs. */
    predicate Home(key: string, n: NodeId) {
      owner(key).Ok? && resolve(owner(key).value) == n
    }

    /** checkForRebase compares addresses, not nodes. */
    predicate Misplaced(self: NodeId, key: string) {
      owner(key).Ok? && owner(key).value != selfAddr(self)
    }
  }

  ghost predicate AllConsistent(stores: Stores) {
    forall n :: n in stores ==> Consistent(stores[n])
  }

  function MisplacedKeys(topo: Topology, self: NodeId, keys: seq<string>): set<string> {
    set k | k in keys && topo.Misplaced(self, k)
  }

  /** The stores after one file of `from` has reached `to`. */
  function Delivered(stores: Stores, from: NodeId, to: NodeId, key: string, hash: Hash): Stores
    requires from in stores && to in stores && MakePathFromHash(hash) in stores[from].files
  {
    stores[to := SaveCompressed(stores[to], key, hash, stores[from].files[MakePathFromHash(hash)]).0]
  }
}

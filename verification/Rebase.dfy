/** The client side of a rebase: checking a page of keys, copying the misplaced ones, removing them here. */
module Rebasing {
  import opened Results
  import opened StoreModel
  import opened Transfers
  import opened RebasePaging
  import opened Topologies
  import opened ClusterMachine
  import opened ClusterRuns

  // ---------------------------------------------------------------- what copying does to the stores

  /** `bytes` are what `src` stores under `path`, for one of its indexed hashes. */
  ghost predicate OwnBytes(src: Store, path: Path, bytes: Bytes) {
    && path in src.files && src.files[path] == bytes
    && exists r :: r in src.rows && MakePathFromHash(r.hash) == path
  }

  /** Node `n` went from `b` to `a` by receiving files of `src`: it lost no row and no file, gained only rows
      of `src` that belong at `n`, and files changed only to the bytes `src` has. */
  ghost predicate Grew(topo: Topology, n: NodeId, b: Store, a: Store, src: Store) {
    && b.rows <= a.rows
    && (forall r :: r in a.rows ==> r in b.rows || (r in src.rows && topo.Home(r.key, n)))
    && forall p :: p in b.files ==> p in a.files && (a.files[p] == b.files[p] || OwnBytes(src, p, a.files[p]))
  }

  lemma GrewTransitive(topo: Topology, n: NodeId, b: Store, m: Store, a: Store, src: Store)
    requires Grew(topo, n, b, m, src) && Grew(topo, n, m, a, src)
    ensures Grew(topo, n, b, a, src)
  {
  }

  ghost predicate Copied(topo: Topology, self: NodeId, before: Stores, after: Stores) {
    && self in before && after.Keys == before.Keys
    && after[self] == before[self]
    && forall n :: n in before ==> Grew(topo, n, before[n], after[n], before[self])
  }

  lemma CopiedTransitive(topo: Topology, self: NodeId, before: Stores, mid: Stores, after: Stores)
    requires Copied(topo, self, before, mid) && Copied(topo, self, mid, after)
    ensures Copied(topo, self, before, after)
  {
    forall n | n in before ensures Grew(topo, n, before[n], after[n], before[self]) {
      GrewTransitive(topo, n, before[n], mid[n], after[n], before[self]);
    }
  }

  /** `r` is indexed at `to`, with the bytes that `src` has for it. */
  ghost predicate Shipped(src: Store, to: Store, r: Row) {
    var path := MakePathFromHash(r.hash);
    r in to.rows && path in to.files && path in src.files && to.files[path] == src.files[path]
  }

  /** `r` of `self` is safe at `to`, another node. */
  ghost predicate Arrived(stores: Stores, self: NodeId, to: NodeId, r: Row)
    requires self in stores
  {
    to in stores && to != self && Shipped(stores[self], stores[to], r)
  }

  lemma ArrivedStays(topo: Topology, before: Stores, after: Stores, self: NodeId, to: NodeId, r: Row)
    requires self in before && Copied(topo, self, before, after) && Arrived(before, self, to, r)
    ensures Arrived(after, self, to, r)
  {
    ShippedStays(topo, to, before[to], after[to], before[self], r);
  }

  lemma ShippedStays(topo: Topology, n: NodeId, b: Store, a: Store, src: Store, r: Row)
    requires Shipped(src, b, r) && Grew(topo, n, b, a, src)
    ensures Shipped(src, a, r)
  {
    assert r in a.rows;
  }

  /** Sending an indexed hash home is copying; it is accepted exactly if the receiver does not index the
      hash yet, and never by the sender itself, whose store it leaves as it was. */
  lemma DeliveryCopies(topo: Topology, stores: Stores, self: NodeId, to: NodeId, key: string, hash: Hash)
    requires AllConsistent(stores) && self in stores && to in stores
    requires Row(key, hash) in stores[self].rows && topo.Home(key, to)
    ensures var after := Delivered(stores, self, to, key, hash);
      && AllConsistent(after) && Copied(topo, self, stores, after)
      && (Indexed(stores[to].rows, hash) ==> after[to].rows == stores[to].rows)
      && (!Indexed(stores[to].rows, hash) ==>
            && Arrived(after, self, to, Row(key, hash))
            && after[to].rows == stores[to].rows + [Row(key, hash)])
  {
    var path := MakePathFromHash(hash);
    var bytes := stores[self].files[path];
    var after := Delivered(stores, self, to, key, hash);
    WriteKeepsConsistency(stores[to], path, bytes);
    AddRowKeepsConsistency(WithFile(WithFolder(stores[to], path.dir), path, bytes), key, hash);
    assert OwnBytes(stores[self], path, bytes);
    if to == self {
      assert Indexed(stores[to].rows, hash);
      SelfSaveChangesNothing(stores[self], key, hash);
    }
  }

  lemma SelfSaveChangesNothing(st: Store, key: string, hash: Hash)
    requires Consistent(st) && Row(key, hash) in st.rows
    ensures SaveCompressed(st, key, hash, st.files[MakePathFromHash(hash)]) == (st, Err(HashTaken))
  {
    var path := MakePathFromHash(hash);
    assert Row(key, hash).hash == hash && Indexed(st.rows, hash);
    assert path.dir in DirsOf(st.files);
    assert st.files[path := st.files[path]] == st.files;
    assert st.dirs + {path.dir} == st.dirs;
  }

  // ---------------------------------------------------------------- keys that can be moved

  /** Every hash of `key` at `self` would be accepted at the key's home, which is another node. */
  ghost predicate Free(topo: Topology, stores: Stores, self: NodeId, key: string)
    requires self in stores
  {
    exists to :: Open(topo, stores, self, key, to)
  }

  ghost predicate Open(topo: Topology, stores: Stores, self: NodeId, key: string, to: NodeId)
    requires self in stores
  {
    && topo.Home(key, to) && to in stores && to != self
    && forall h :: Row(key, h) in stores[self].rows ==> !Indexed(stores[to].rows, h)
  }

  /** Delivering a hash of one key takes nothing away from the other keys. */
  lemma DeliveryKeepsFree(topo: Topology, stores: Stores, self: NodeId, to: NodeId, key: string, hash: Hash,
                          other: string)
    requires AllConsistent(stores) && self in stores && to in stores
    requires Row(key, hash) in stores[self].rows && topo.Home(key, to)
    requires key != other && Free(topo, stores, self, other)
    ensures Free(topo, Delivered(stores, self, to, key, hash), self, other)
  {
    DeliveryCopies(topo, stores, self, to, key, hash);
    var after := Delivered(stores, self, to, key, hash);
    var t :| Open(topo, stores, self, other, t);
    forall h | Row(other, h) in after[self].rows ensures !Indexed(after[t].rows, h) {
      UniqueInRows(stores[self].rows, key, hash, other, h);
    }
    assert Open(topo, after, self, other, t);
  }

  lemma UniqueInRows(rows: seq<Row>, key: string, hash: Hash, other: string, h: Hash)
    requires UniqueHashes(rows) && Row(key, hash) in rows && Row(other, h) in rows && key != other
    ensures h != hash
  {
    if h == hash { UniqueRow(rows, Row(key, hash), Row(other, h)); }
  }

  /** From `before` to `now` nothing but rows of these keys has come to or gone from a node, and no node but
      `self` and their homes has changed. */
  ghost predicate Concerns(topo: Topology, self: NodeId, keys: set<string>, before: Stores, now: Stores) {
    && now.Keys == before.Keys
    && (forall n :: n in before && n != self && now[n] != before[n] ==> exists k :: k in keys && topo.Home(k, n))
    && (forall n, r :: n in before && r in now[n].rows ==> r in before[n].rows || r.key in keys)
    && forall n, r :: n in before && r in before[n].rows ==> r in now[n].rows || r.key in keys
  }

  lemma ConcernsTransitive(topo: Topology, self: NodeId, some: set<string>, more: set<string>, keys: set<string>,
                           before: Stores, mid: Stores, now: Stores)
    requires Concerns(topo, self, some, before, mid) && Concerns(topo, self, more, mid, now)
    requires some <= keys && more <= keys
    ensures Concerns(topo, self, keys, before, now)
  {
    forall n | n in before && n != self && now[n] != before[n] ensures exists k :: k in keys && topo.Home(k, n) {
      if mid[n] != before[n] {
        var k :| k in some && topo.Home(k, n);
      } else {
        var k :| k in more && topo.Home(k, n);
      }
    }
  }

  /** From `before` to `now`, sends of `key` have only copied, and left the other keys free to move. */
  ghost predicate Sending(topo: Topology, self: NodeId, key: string, before: Stores, now: Stores) {
    && AllConsistent(now) && Copied(topo, self, before, now) && Concerns(topo, self, {key}, before, now)
    && forall k :: k != key && Free(topo, before, self, k) ==> Free(topo, now, self, k)
  }

  lemma DeliveryConcerns(topo: Topology, now: Stores, self: NodeId, to: NodeId, key: string, hash: Hash)
    requires AllConsistent(now) && self in now && to in now && Row(key, hash) in now[self].rows && topo.Home(key, to)
    ensures Concerns(topo, self, {key}, now, Delivered(now, self, to, key, hash))
  {
    DeliveryCopies(topo, now, self, to, key, hash);
    assert key in {key} && topo.Home(key, to);
  }

  lemma SendingGoesOn(topo: Topology, self: NodeId, to: NodeId, key: string, hash: Hash, before: Stores, now: Stores)
    requires self in before && Sending(topo, self, key, before, now) && to in now
    requires Row(key, hash) in now[self].rows && topo.Home(key, to)
    ensures Sending(topo, self, key, before, Delivered(now, self, to, key, hash))
  {
    DeliveryCopies(topo, now, self, to, key, hash);
    DeliveryConcerns(topo, now, self, to, key, hash);
    ConcernsTransitive(topo, self, {key}, {key}, {key}, before, now, Delivered(now, self, to, key, hash));
    CopiedTransitive(topo, self, before, now, Delivered(now, self, to, key, hash));
    forall k | k != key && Free(topo, before, self, k)
      ensures Free(topo, Delivered(now, self, to, key, hash), self, k)
    {
      DeliveryKeepsFree(topo, now, self, to, key, hash, k);
    }
  }

  /** The first `i` hashes have arrived, and were not indexed by the receiver before. */
  ghost predicate SentUpTo(before: Stores, now: Stores, self: NodeId, to: NodeId, key: string, hashes: seq<Hash>,
                           i: nat)
    requires self in now && i <= |hashes|
  {
    forall j :: 0 <= j < i ==>
      Arrived(now, self, to, Row(key, hashes[j])) && to in before && !Indexed(before[to].rows, hashes[j])
  }

  /** The receiver would still accept the hashes from `i` on. */
  ghost predicate OpenFrom(now: Stores, to: NodeId, hashes: seq<Hash>, i: nat) {
    to in now && forall j :: i <= j < |hashes| ==> !Indexed(now[to].rows, hashes[j])
  }

  lemma SentOneMore(topo: Topology, before: Stores, now: Stores, self: NodeId, to: NodeId, key: string,
                    hashes: seq<Hash>, i: nat)
    requires AllConsistent(now) && self in now && to in now && i < |hashes|
    requires Row(key, hashes[i]) in now[self].rows && topo.Home(key, to) && !Indexed(now[to].rows, hashes[i])
    requires Copied(topo, self, before, now) && SentUpTo(before, now, self, to, key, hashes, i)
    requires forall j, k :: 0 <= j < k < |hashes| ==> hashes[j] != hashes[k]
    ensures SentUpTo(before, Delivered(now, self, to, key, hashes[i]), self, to, key, hashes, i + 1)
    ensures OpenFrom(now, to, hashes, i) ==> OpenFrom(Delivered(now, self, to, key, hashes[i]), to, hashes, i + 1)
  {
    DeliveryCopies(topo, now, self, to, key, hashes[i]);
    RowsOnlyGrow(topo, self, to, before, now, hashes[i]);
    var after := Delivered(now, self, to, key, hashes[i]);
    forall j | 0 <= j < i ensures Arrived(after, self, to, Row(key, hashes[j])) {
      ArrivedStays(topo, now, after, self, to, Row(key, hashes[j]));
    }
    assert after[to].rows == now[to].rows + [Row(key, hashes[i])];
  }

  /** Of the keys of `info`, all but `todo` have arrived, and `todo` is as free to move as before. */
  ghost predicate CopiedBut(topo: Topology, self: NodeId, info: map<string, string>, todo: set<string>, before: Stores,
                            now: Stores) {
    && AllConsistent(now) && Copied(topo, self, before, now) && Concerns(topo, self, info.Keys, before, now)
    && (forall row :: row in now[self].rows && row.key in info && row.key !in todo ==>
          Arrived(now, self, topo.resolve(info[row.key]), row))
    && forall k :: (k in todo || k !in info) && Free(topo, before, self, k) ==> Free(topo, now, self, k)
  }

  lemma CopyOneMore(topo: Topology, self: NodeId, info: map<string, string>, todo: set<string>, key: string,
                    before: Stores, now: Stores, after: Stores)
    requires self in before && CopiedBut(topo, self, info, todo, before, now) && key in info
    requires Sending(topo, self, key, now, after)
    requires forall h :: Row(key, h) in after[self].rows ==> Arrived(after, self, topo.resolve(info[key]), Row(key, h))
    ensures CopiedBut(topo, self, info, todo - {key}, before, after)
  {
    CopiedTransitive(topo, self, before, now, after);
    ConcernsTransitive(topo, self, info.Keys, {key}, info.Keys, before, now, after);
    OthersStayCopied(topo, self, info, todo, now, after);
    forall row | row in after[self].rows && row.key in info && row.key !in todo - {key}
      ensures Arrived(after, self, topo.resolve(info[row.key]), row)
    {
      if row.key == key {
        assert Row(key, row.hash) == row;
      }
    }
  }

  lemma OthersStayCopied(topo: Topology, self: NodeId, info: map<string, string>, todo: set<string>, now: Stores,
                         after: Stores)
    requires self in now && Copied(topo, self, now, after)
    requires forall row :: row in now[self].rows && row.key in info && row.key !in todo ==>
      Arrived(now, self, topo.resolve(info[row.key]), row)
    ensures forall row :: row in after[self].rows && row.key in info && row.key !in todo ==>
      Arrived(after, self, topo.resolve(info[row.key]), row)
  {
    forall row | row in after[self].rows && row.key in info && row.key !in todo
      ensures Arrived(after, self, topo.resolve(info[row.key]), row)
    {
      ArrivedStays(topo, now, after, self, topo.resolve(info[row.key]), row);
    }
  }

  /** What a receiver does not index after some copying, it did not index before. */
  lemma RowsOnlyGrow(topo: Topology, self: NodeId, to: NodeId, before: Stores, now: Stores, hash: Hash)
    requires Copied(topo, self, before, now)
    ensures to in now && !Indexed(now[to].rows, hash) ==> to in before && !Indexed(before[to].rows, hash)
  {
    if to in before {
      assert Grew(topo, to, before[to], now[to], before[self]);
    }
  }

  /** A key whose hashes all arrived was free to move. */
  lemma CopiedWasFree(topo: Topology, self: NodeId, to: NodeId, key: string, hashes: seq<Hash>, before: Stores,
                      now: Stores)
    requires self in before && topo.Home(key, to) && Copied(topo, self, before, now)
    requires hashes == HashesOf(before[self].rows, key) && SentUpTo(before, now, self, to, key, hashes, |hashes|)
    ensures (exists h :: Row(key, h) in before[self].rows) ==> Free(topo, before, self, key)
  {
    HashesOfMembers(before[self].rows, key);
    if h :| Row(key, h) in before[self].rows {
      assert h in hashes;
      assert Arrived(now, self, to, Row(key, hashes[0]));
      assert Open(topo, before, self, key, to);
    }
  }

  /** The keys of `info` that are copied already, and have rows, were free to move. */
  ghost predicate WereFree(topo: Topology, self: NodeId, info: map<string, string>, todo: set<string>, before: Stores)
    requires self in before
  {
    forall row :: row in before[self].rows && row.key in info && row.key !in todo ==> Free(topo, before, self, row.key)
  }

  lemma OneMoreWasFree(topo: Topology, self: NodeId, info: map<string, string>, todo: set<string>, key: string,
                       before: Stores, now: Stores)
    requires self in before && WereFree(topo, self, info, todo, before) && Copied(topo, self, before, now)
    requires (exists h :: Row(key, h) in now[self].rows) ==> Free(topo, now, self, key)
    ensures WereFree(topo, self, info, todo - {key}, before)
  {
    forall row | row in before[self].rows && row.key in info && row.key !in todo - {key}
      ensures Free(topo, before, self, row.key)
    {
      if row.key == key {
        assert Row(key, row.hash) in now[self].rows;
        var to :| Open(topo, now, self, key, to);
        forall h | Row(key, h) in before[self].rows ensures !Indexed(before[to].rows, h) {
          RowsOnlyGrow(topo, self, to, before, now, h);
        }
        assert Open(topo, before, self, key, to);
      }
    }
  }

  /** Copying the keys of `info`, with `todo` to go. */
  ghost predicate CopyGoesOn(cfg: Config, self: NodeId, info: map<string, string>, todo: set<string>, offset: nat,
                             last: bool, before: Stores, now: Stores) {
    && self in before && todo <= info.Keys
    && CopiedBut(cfg.topo, self, info, todo, before, now) && WereFree(cfg.topo, self, info, todo, before)
    && Performs(cfg, self, before, Copying(offset, last, info.Keys, info.Keys, NoCursor),
                now, Copying(offset, last, info.Keys, todo, NoCursor))
  }

  lemma CopyBegins(cfg: Config, self: NodeId, info: map<string, string>, offset: nat, last: bool, before: Stores)
    requires self in before && AllConsistent(before)
    ensures CopyGoesOn(cfg, self, info, info.Keys, offset, last, before, before)
  {
    PerformsNothing(cfg, self, before, Copying(offset, last, info.Keys, info.Keys, NoCursor));
  }

  lemma OneMoreKey(cfg: Config, self: NodeId, info: map<string, string>, todo: set<string>, offset: nat, last: bool,
                   key: string, before: Stores, now: Stores, after: Stores)
    requires CopyGoesOn(cfg, self, info, todo, offset, last, before, now) && key in todo
    requires Sending(cfg.topo, self, key, now, after)
    requires forall h :: Row(key, h) in after[self].rows ==>
      Arrived(after, self, cfg.topo.resolve(info[key]), Row(key, h))
    requires (exists h :: Row(key, h) in now[self].rows) ==> Free(cfg.topo, now, self, key)
    requires var p := Copying(offset, last, info.Keys, todo, NoCursor); Performs(cfg, self, now, p, after, Past(p, key))
    ensures CopyGoesOn(cfg, self, info, todo - {key}, offset, last, before, after)
  {
    var p := Copying(offset, last, info.Keys, todo, NoCursor);
    PerformsMore(cfg, self, before, Copying(offset, last, info.Keys, info.Keys, NoCursor), now, p, after, Past(p, key));
    CopyOneMore(cfg.topo, self, info, todo, key, before, now, after);
    OneMoreWasFree(cfg.topo, self, info, todo, key, before, now);
  }

  lemma CopyStops(cfg: Config, reliable: bool, self: NodeId, info: map<string, string>, todo: set<string>, offset: nat,
                  last: bool, key: string, before: Stores, now: Stores, after: Stores, r: Result<()>)
    requires CopyGoesOn(cfg, self, info, todo, offset, last, before, now) && key in todo
    requires Sending(cfg.topo, self, key, now, after) && (Free(cfg.topo, now, self, key) ==> OkOrFault(reliable, r))
    requires Performs(cfg, self, now, Copying(offset, last, info.Keys, todo, NoCursor), after, Resting)
    ensures AllConsistent(after) && Copied(cfg.topo, self, before, after)
    ensures Concerns(cfg.topo, self, info.Keys, before, after)
    ensures (forall k :: k in info ==> Free(cfg.topo, before, self, k)) ==> OkOrFault(reliable, r)
    ensures forall k :: k !in info && Free(cfg.topo, before, self, k) ==> Free(cfg.topo, after, self, k)
    ensures Performs(cfg, self, before, Copying(offset, last, info.Keys, info.Keys, NoCursor), after, Resting)
  {
    PerformsMore(cfg, self, before, Copying(offset, last, info.Keys, info.Keys, NoCursor),
                 now, Copying(offset, last, info.Keys, todo, NoCursor), after, Resting);
    CopiedTransitive(cfg.topo, self, before, now, after);
    ConcernsTransitive(cfg.topo, self, info.Keys, {key}, info.Keys, before, now, after);
  }

  // ---------------------------------------------------------------- removing what was copied

  /** `a` is `b` without the rows of `gone`; the rows that stay keep their files. */
  ghost predicate Trimmed(b: Store, a: Store, gone: set<string>) {
    && Consistent(a)
    && DistinctKeys(a.rows) == Dropped(DistinctKeys(b.rows), gone)
    && (forall r :: r in a.rows <==> r in b.rows && r.key !in gone)
    && forall r :: r in a.rows ==> StillHere(b, a, r)
  }

  ghost predicate StillHere(b: Store, a: Store, r: Row) {
    var path := MakePathFromHash(r.hash);
    r in a.rows && path in b.files && path in a.files && a.files[path] == b.files[path]
  }

  lemma TrimmedNothing(b: Store)
    requires Consistent(b)
    ensures Trimmed(b, b, {})
  {
    NothingCounted(DistinctKeys(b.rows), {});
    DroppedNothing(DistinctKeys(b.rows), {});
  }

  lemma TrimOneMore(b: Store, m: Store, gone: set<string>, key: string)
    requires Trimmed(b, m, gone) && key != ""
    ensures RemoveByKey(m, key).1.Ok? && Trimmed(b, RemoveByKey(m, key).0, gone + {key})
  {
    var a := RemoveByKey(m, key).0;
    RemoveByKeyExact(m, key);
    WithoutMembers(m.rows, key);
    DistinctKeysWithout(m.rows, key);
    DroppedTwice(DistinctKeys(b.rows), gone, {key});
    forall r | r in a.rows ensures StillHere(b, a, r) {
      assert StillHere(b, m, r) && r in m.rows && r.key != key;
    }
  }

  lemma TrimKeepsFree(topo: Topology, stores: Stores, self: NodeId, a: Store, gone: set<string>, key: string)
    requires self in stores && Trimmed(stores[self], a, gone) && Free(topo, stores, self, key)
    ensures Free(topo, stores[self := a], self, key)
  {
    var to :| Open(topo, stores, self, key, to);
    assert Open(topo, stores[self := a], self, key, to);
  }

  /** Removing copied keys, with `todo` to go. */
  ghost predicate RemovalGoesOn(cfg: Config, self: NodeId, keys: set<string>, todo: set<string>, offset: nat,
                                last: bool, before: Stores, now: Stores) {
    && self in before && self in now && now == before[self := now[self]] && todo <= keys
    && Trimmed(before[self], now[self], keys - todo)
    && Performs(cfg, self, before, Copying(offset, last, keys, {}, NoCursor), now, Removing(offset, last, todo, NoDrop))
  }

  lemma RemovalBegins(cfg: Config, self: NodeId, keys: set<string>, offset: nat, last: bool, before: Stores)
    requires self in before && AllConsistent(before)
    ensures RemovalGoesOn(cfg, self, keys, keys, offset, last, before, before)
  {
    assert keys - keys == {};
    TrimmedNothing(before[self]);
    StartRun(cfg, self, before, offset, last, keys);
  }

  lemma OneMoreRemoved(cfg: Config, self: NodeId, keys: set<string>, todo: set<string>, offset: nat, last: bool,
                       before: Stores, now: Stores, key: string)
    requires RemovalGoesOn(cfg, self, keys, todo, offset, last, before, now) && key in todo && key != ""
    ensures RemoveByKey(now[self], key).1.Ok?
    ensures RemovalGoesOn(cfg, self, keys, todo - {key}, offset, last, before,
                          now[self := RemoveByKey(now[self], key).0])
  {
    TrimOneMore(before[self], now[self], keys - todo, key);
    assert keys - (todo - {key}) == (keys - todo) + {key};
    RemovedKeyRun(cfg, self, before, Copying(offset, last, keys, {}, NoCursor), now, offset, last, todo, key);
  }

  lemma RemovalConcerns(topo: Topology, self: NodeId, keys: set<string>, before: Stores, copies: Stores, a: Store)
    requires self in copies && Concerns(topo, self, keys, before, copies) && Trimmed(copies[self], a, keys)
    ensures Concerns(topo, self, keys, before, copies[self := a])
  {
  }

  // ---------------------------------------------------------------- what a pass keeps

  /** `r` is still at `self`, or at home with the same bytes. */
  ghost predicate Safe(topo: Topology, self: NodeId, before: Stores, now: Stores, r: Row)
    requires self in before && self in now
  {
    || StillHere(before[self], now[self], r)
    || exists to :: SafeAt(topo, self, before, now, r, to)
  }

  ghost predicate SafeAt(topo: Topology, self: NodeId, before: Stores, now: Stores, r: Row, to: NodeId)
    requires self in before
  {
    topo.Home(r.key, to) && to != self && to in now && Shipped(before[self], now[to], r)
  }

  /** What any part of a pass of `self`, complete or aborted, has done: no row is lost, none is invented, and
      the other nodes lose nothing. */
  ghost predicate Rebased(topo: Topology, self: NodeId, before: Stores, now: Stores) {
    && self in before && Consistent(before[self]) && now.Keys == before.Keys && AllConsistent(now)
    && (forall n :: n in before && n != self ==> Grew(topo, n, before[n], now[n], before[self]))
    && (forall r :: r in before[self].rows ==> Safe(topo, self, before, now, r))
    && (forall r :: r in now[self].rows ==> r in before[self].rows && StillHere(before[self], now[self], r))
  }

  lemma RebasedNothing(topo: Topology, self: NodeId, stores: Stores)
    requires self in stores && AllConsistent(stores)
    ensures Rebased(topo, self, stores, stores)
  {
  }

  /** Copying from a node that has only lost rows is copying from the node as it was. */
  lemma GrewWiden(topo: Topology, n: NodeId, b: Store, a: Store, now: Store, before: Store)
    requires Grew(topo, n, b, a, now)
    requires forall r :: r in now.rows ==> r in before.rows && StillHere(before, now, r)
    ensures Grew(topo, n, b, a, before)
  {
    forall p | p in b.files && a.files[p] != b.files[p] ensures OwnBytes(before, p, a.files[p]) {
      assert OwnBytes(now, p, a.files[p]);
      var r :| r in now.rows && MakePathFromHash(r.hash) == p;
      assert StillHere(before, now, r);
    }
  }

  /** A row that is safe elsewhere stays safe there: only its own hash could overwrite its file, and `self`
      no longer has that hash under another key. */
  lemma SafeElsewhereStays(topo: Topology, self: NodeId, before: Stores, now: Stores, after: Stores, r: Row, to: NodeId)
    requires self in before && Rebased(topo, self, before, now)
    requires Copied(topo, self, now, after) && r in before[self].rows && SafeAt(topo, self, before, now, r, to)
    ensures SafeAt(topo, self, before, after, r, to)
  {
    var path := MakePathFromHash(r.hash);
    assert Grew(topo, to, now[to], after[to], now[self]);
    assert r in after[to].rows;
    if s :| s in now[self].rows && MakePathFromHash(s.hash) == path {
      PathsAreInjective(s.hash, r.hash);
      UniqueRow(before[self].rows, r, s);
      assert StillHere(before[self], now[self], s);
    }
  }

  lemma CopyKeepsRebased(topo: Topology, self: NodeId, before: Stores, now: Stores, after: Stores)
    requires self in before && Rebased(topo, self, before, now)
    requires Copied(topo, self, now, after) && AllConsistent(after)
    ensures Rebased(topo, self, before, after)
  {
    forall n | n in before && n != self ensures Grew(topo, n, before[n], after[n], before[self]) {
      GrewWiden(topo, n, now[n], after[n], now[self], before[self]);
      GrewTransitive(topo, n, before[n], now[n], after[n], before[self]);
    }
    forall r | r in before[self].rows ensures Safe(topo, self, before, after, r) {
      if !StillHere(before[self], now[self], r) {
        var to :| SafeAt(topo, self, before, now, r, to);
        SafeElsewhereStays(topo, self, before, now, after, r, to);
      }
    }
  }

  /** Removing keys whose rows have all arrived at home loses nothing. */
  lemma TrimKeepsRebased(topo: Topology, self: NodeId, before: Stores, now: Stores, a: Store, info: map<string, string>)
    requires self in before && Rebased(topo, self, before, now) && Trimmed(now[self], a, info.Keys)
    requires forall k :: k in info ==> topo.owner(k) == Ok(info[k])
    requires forall r :: r in now[self].rows && r.key in info ==> Arrived(now, self, topo.resolve(info[r.key]), r)
    ensures Rebased(topo, self, before, now[self := a])
  {
    var after := now[self := a];
    forall r | r in before[self].rows ensures Safe(topo, self, before, after, r) {
      if StillHere(before[self], now[self], r) {
        if r.key in info {
          assert SafeAt(topo, self, before, after, r, topo.resolve(info[r.key]));
        } else {
          assert StillHere(now[self], a, r);
        }
      } else {
        var to :| SafeAt(topo, self, before, now, r, to);
        assert SafeAt(topo, self, before, after, r, to);
      }
    }
    forall r | r in a.rows ensures r in before[self].rows && StillHere(before[self], a, r) {
      assert StillHere(now[self], a, r) && StillHere(before[self], now[self], r);
    }
  }

  function InfoOf(topo: Topology, self: NodeId, keys: seq<string>): map<string, string> {
    map k | k in keys && topo.Misplaced(self, k) :: topo.owner(k).value
  }

  /** Nothing but a transport fault can stop a pass: every owner is known and alive, and no owner of a
      misplaced key is an alias of this node or already indexes one of the key's hashes. */
  ghost predicate Ready(topo: Topology, alive: set<string>, stores: Stores, self: NodeId)
    requires self in stores
  {
    PageReady(topo, alive, stores, self, DistinctKeys(stores[self].rows))
  }

  /** A pass of `self` that ended well. */
  ghost predicate Passed(topo: Topology, alive: set<string>, self: NodeId, before: Stores, after: Stores) {
    && Rebased(topo, self, before, after)
    && (var keys := DistinctKeys(before[self].rows);
        DistinctKeys(after[self].rows) == Pass(keys, 0, MisplacedKeys(topo, self, keys)))
    && (Ready(topo, alive, before, self) ==> Ready(topo, alive, after, self))
  }

  /** The owner of this key is unknown or dead, with that error. */
  predicate StopsPage(topo: Topology, alive: set<string>, key: string, error: Error) {
    topo.owner(key) == Err(error) || (topo.owner(key).Ok? && topo.owner(key).value !in alive && error == NodeNotAlive)
  }

  /** Nothing went wrong, or nothing but a transport fault did. */
  predicate OkOrFault(reliable: bool, r: Result<()>) {
    r.Ok? || (r == Err(Disconnected) && !reliable)
  }

  // ---------------------------------------------------------------- the client

  class Client {
    const codec: Codec
    const topo: Topology
    /** Whether the network makes no transport fault. */
    const reliable: bool
    var alive: set<string>
    var stores: Stores

    ghost function Cfg(): Config { Config(topo, codec) }

    constructor (codec: Codec, topo: Topology, reliable: bool, alive: set<string>, stores: Stores)
      ensures this.codec == codec && this.topo == topo && this.reliable == reliable
      ensures this.alive == alive && this.stores == stores
    {
      this.codec := codec;
      this.topo := topo;
      this.reliable := reliable;
      this.alive := alive;
      this.stores := stores;
    }

    /** Streams the packed file to the node at `addr` and waits for its answer; a transport fault may hit
        before the receiver has everything or after it has answered. */
    method SendFile(self: NodeId, addr: string, key: string, hash: Hash) returns (r: Result<()>)
      requires self in stores && key != ""
      modifies this`stores
      ensures stores.Keys == old(stores.Keys)
      ensures var to, path := topo.resolve(addr), MakePathFromHash(hash);
        if path !in old(stores)[self].files then r == Err(FileMissing) && stores == old(stores)
        else if to !in old(stores) then r == Err(Disconnected) && stores == old(stores)
        else
          && (stores == old(stores) || stores == Delivered(old(stores), self, to, key, hash))
          && (r.Ok? ==> stores == Delivered(old(stores), self, to, key, hash) && !Indexed(old(stores)[to].rows, hash))
          && (reliable ==> stores == Delivered(old(stores), self, to, key, hash) && r != Err(Disconnected))
          && (r.Err? && r.error != Disconnected ==>
                && r.error == HashTaken && Indexed(old(stores)[to].rows, hash)
                && stores == Delivered(old(stores), self, to, key, hash))
    {
      var path := MakePathFromHash(hash);
      if path !in stores[self].files {
        return Err(FileMissing);
      }
      var to := topo.resolve(addr);
      if to !in stores {
        return Err(Disconnected);
      }
      var file := stores[self].files[path];
      var sent, streamed := StreamFileByChunks(file, reliable);
      if streamed.Err? {
        BrokenTransferStoresNothing(codec, stores[to], key, hash, sent);
        var aborted := Received(codec, stores[to], StreamOf(key, hash, sent), Broken);
        stores := stores[to := aborted.0];
        return Err(Disconnected);
      }
      TransferIsOneSave(codec, stores[to], key, hash, file, sent);
      var answer := Received(codec, stores[to], StreamOf(key, hash, sent), Eof);
      stores := stores[to := answer.0];
      var lost: bool := *;
      if lost && !reliable {
        return Err(Disconnected);
      }
      if answer.1.Err? {
        return Err(HashTaken);
      }
      r := Ok(());
    }

    /** Sends every hash of a key to the key's owner. */
    method RebaseHashesByKeyAndNode(self: NodeId, key: string, addr: string, ghost p: Phase) returns (r: Result<()>)
      requires self in stores && AllConsistent(stores)
      requires key != "" && topo.owner(key) == Ok(addr)
      requires p.Copying? && p.cursor.NoCursor? && key in p.todo
      modifies this`stores
      ensures Sending(topo, self, key, old(stores), stores)
      ensures r.Ok? ==> forall h :: Row(key, h) in stores[self].rows ==>
        Arrived(stores, self, topo.resolve(addr), Row(key, h))
      ensures Free(topo, old(stores), self, key) ==> OkOrFault(reliable, r)
      ensures r.Ok? && (exists h :: Row(key, h) in old(stores)[self].rows) ==> Free(topo, old(stores), self, key)
      ensures Performs(Cfg(), self, old(stores), p, stores, if r.Ok? then Past(p, key) else Resting)
    {
      var hashes := HashesOf(stores[self].rows, key);
      HashesOfMembers(stores[self].rows, key);
      HashesOfDistinct(stores[self].rows, key);
      var to := topo.resolve(addr);
      assert Free(topo, stores, self, key) ==> OpenFrom(stores, to, hashes, 0);
      PickRun(Cfg(), self, stores, p, key);
      assert hashes[0..] == hashes;
      for i := 0 to |hashes|
        invariant Sending(topo, self, key, old(stores), stores)
        invariant SentUpTo(old(stores), stores, self, to, key, hashes, i)
        invariant Free(topo, old(stores), self, key) ==> OpenFrom(stores, to, hashes, i)
        invariant Performs(Cfg(), self, old(stores), p, stores, Midway(p, key, hashes[i..], i > 0))
      {
        assert hashes[i] in hashes;
        ghost var now := stores;
        var sent := SendFile(self, addr, key, hashes[i]);
        SendRun(Cfg(), self, old(stores), p, to, key, hashes, i, now, stores, sent.Ok?);
        if to in now {
          SendingGoesOn(topo, self, to, key, hashes[i], old(stores), now);
        }
        if sent.Err? {
          return sent;
        }
        SentOneMore(topo, old(stores), now, self, to, key, hashes, i);
      }
      forall h | Row(key, h) in stores[self].rows ensures Arrived(stores, self, to, Row(key, h)) {
        assert h in hashes;
      }
      CopiedKeyRun(Cfg(), self, old(stores), p, key, hashes, stores);
      CopiedWasFree(topo, self, to, key, hashes, old(stores), stores);
      r := Ok(());
    }

    /** The misplaced keys of a page with their owners; an unknown or dead owner of any key stops the pass. */
    method CheckForRebase(self: NodeId, keys: seq<string>) returns (r: Result<map<string, string>>)
      ensures r.Ok? <==> forall k :: k in keys ==> topo.owner(k).Ok? && topo.owner(k).value in alive
      ensures r.Err? ==> exists k :: k in keys && StopsPage(topo, alive, k, r.error)
      ensures r.Ok? ==> r.value == InfoOf(topo, self, keys)
      ensures r.Ok? ==> forall k :: k in r.value <==>
        k in keys && topo.owner(k).Ok? && topo.owner(k).value != topo.selfAddr(self)
      ensures r.Ok? ==> forall k :: k in r.value ==> topo.owner(k) == Ok(r.value[k])
    {
      var rebaseInfo: map<string, string> := map[];
      for i := 0 to |keys|
        invariant forall k :: k in keys[..i] ==> topo.owner(k).Ok? && topo.owner(k).value in alive
        invariant rebaseInfo == InfoOf(topo, self, keys[..i])
      {
        var node := topo.owner(keys[i]);
        assert keys[i] in keys;
        assert forall k :: k in keys[..i + 1] <==> k in keys[..i] || k == keys[i];
        if node.Err? {
          return Err(node.error);
        }
        if node.value !in alive {
          return Err(NodeNotAlive);
        }
        if topo.selfAddr(self) != node.value {
          rebaseInfo := rebaseInfo[keys[i] := node.value];
        }
      }
      assert keys[..|keys|] == keys;
      r := Ok(rebaseInfo);
    }

    /** Copies the keys in any order, up to the first error. An owner that is this very node under another
        address refuses the first hash, so such a page is never copied completely. */
    method CopyStorage(self: NodeId, info: map<string, string>, ghost offset: nat, ghost last: bool)
        returns (r: Result<()>)
      requires self in stores && AllConsistent(stores)
      requires forall k :: k in info ==> k != "" && topo.owner(k) == Ok(info[k])
      modifies this`stores
      ensures AllConsistent(stores) && Copied(topo, self, old(stores), stores)
      ensures r.Ok? ==> forall row :: row in stores[self].rows && row.key in info ==>
        Arrived(stores, self, topo.resolve(info[row.key]), row)
      ensures r.Ok? ==>
        forall row :: row in old(stores)[self].rows && row.key in info ==> topo.resolve(info[row.key]) != self
      ensures Concerns(topo, self, info.Keys, old(stores), stores)
      ensures (forall k :: k in info ==> Free(topo, old(stores), self, k)) ==> OkOrFault(reliable, r)
      ensures r.Ok? ==>
        forall row :: row in old(stores)[self].rows && row.key in info ==> Free(topo, old(stores), self, row.key)
      ensures forall k :: k !in info && Free(topo, old(stores), self, k) ==> Free(topo, stores, self, k)
      ensures Performs(Cfg(), self, old(stores), Copying(offset, last, info.Keys, info.Keys, NoCursor), stores,
                       if r.Ok? then Copying(offset, last, info.Keys, {}, NoCursor) else Resting)
    {
      var todo := info.Keys;
      ghost var before := stores;
      CopyBegins(Cfg(), self, info, offset, last, stores);
      while todo != {}
        invariant CopyGoesOn(Cfg(), self, info, todo, offset, last, before, stores)
        decreases |todo|
      {
        var key :| key in todo;
        ghost var now, p := stores, Copying(offset, last, info.Keys, todo, NoCursor);
        r := RebaseHashesByKeyAndNode(self, key, info[key], p);
        if r.Err? {
          CopyStops(Cfg(), reliable, self, info, todo, offset, last, key, before, now, stores, r);
          return;
        }
        OneMoreKey(Cfg(), self, info, todo, offset, last, key, before, now, stores);
        todo := todo - {key};
      }
      r := Ok(());
    }

    /** Removes the keys here, in any order. */
    method RemoveKeys(self: NodeId, info: map<string, string>, ghost offset: nat, ghost last: bool)
        returns (r: Result<()>)
      requires self in stores && AllConsistent(stores)
      requires forall k :: k in info ==> k != ""
      modifies this`stores
      ensures r.Ok? && self in stores && stores == old(stores)[self := stores[self]]
      ensures Trimmed(old(stores)[self], stores[self], info.Keys)
      ensures Performs(Cfg(), self, old(stores), Copying(offset, last, info.Keys, {}, NoCursor), stores,
                       Removing(offset, last, {}, NoDrop))
    {
      var todo := info.Keys;
      ghost var before := stores;
      RemovalBegins(Cfg(), self, info.Keys, offset, last, stores);
      while todo != {}
        invariant RemovalGoesOn(Cfg(), self, info.Keys, todo, offset, last, before, stores)
        decreases |todo|
      {
        var key :| key in todo;
        OneMoreRemoved(Cfg(), self, info.Keys, todo, offset, last, before, stores, key);
        var removed := RemoveByKey(stores[self], key);
        stores := stores[self := removed.0];
        if removed.1.Err? {
          return removed.1;
        }
        todo := todo - {key};
      }
      assert info.Keys - {} == info.Keys;
      r := Ok(());
    }

    /** One page of a pass: check, copy, remove, stopping at the first error. */
    method RebasePage(self: NodeId, keys: seq<string>, ghost offset: nat) returns (r: Result<()>, ghost copies: Stores)
      requires self in stores && AllConsistent(stores) && "" !in keys
      requires keys == Page(DistinctKeys(stores[self].rows), offset)
      modifies this`stores
      ensures PageCopied(topo, self, keys, old(stores), copies)
      ensures r.Err? ==> stores == copies
      ensures r.Ok? ==>
        self in stores && stores == copies[self := stores[self]] && PageMoved(topo, self, keys, copies, stores[self])
      ensures PageReady(topo, alive, old(stores), self, keys) ==> OkOrFault(reliable, r)
      ensures r.Ok? ==> PageReady(topo, alive, old(stores), self, keys)
      ensures r.Ok? ==> forall k :: k in keys ==> topo.owner(k).Ok? && topo.owner(k).value in alive
      ensures (exists k :: k in keys && !(topo.owner(k).Ok? && topo.owner(k).value in alive)) ==>
        r.Err? && stores == old(stores)
      ensures Concerns(topo, self, InfoOf(topo, self, keys).Keys, old(stores), stores)
      ensures Performs(Cfg(), self, old(stores), Paging(offset), stores,
                       if r.Ok? then Removing(offset, |keys| < DB_CHUNK_SIZE, {}, NoDrop) else Resting)
    {
      copies := stores;
      ghost var last := |keys| < DB_CHUNK_SIZE;
      AbortRun(Cfg(), self, stores, Paging(offset));
      var info := CheckForRebase(self, keys);
      if info.Err? {
        return Err(info.error), copies;
      }
      PageRun(Cfg(), self, stores, offset, keys, info.value);
      r := CopyStorage(self, info.value, offset, last);
      copies := stores;
      PerformsMore(Cfg(), self, old(stores), Paging(offset),
                   old(stores), Copying(offset, last, info.value.Keys, info.value.Keys, NoCursor),
                   copies, if r.Ok? then Copying(offset, last, info.value.Keys, {}, NoCursor) else Resting);
      if r.Err? {
        return;
      }
      PageWasReady(topo, alive, old(stores), self, keys, info.value);
      r := RemoveKeys(self, info.value, offset, last);
      RemovalConcerns(topo, self, info.value.Keys, old(stores), copies, stores[self]);
      PerformsMore(Cfg(), self, old(stores), Paging(offset), copies,
                   Copying(offset, last, info.value.Keys, {}, NoCursor), stores, Removing(offset, last, {}, NoDrop));
    }

    /** The page at `offset` of a pass that started from `before`. */
    method RebaseNextPage(self: NodeId, offset: nat, ghost at: nat, ghost before: Stores, ghost bad: set<string>)
        returns (r: Result<()>, full: bool, ghost next: nat)
      requires at == offset && self in stores && OnTheWay(topo, alive, self, before, stores, at, bad)
      modifies this`stores
      ensures next == offset + DB_CHUNK_SIZE
      ensures PageTurn(Cfg(), alive, reliable, self, before, old(stores), stores, at, next, bad, full, r)
    {
      ghost var now := stores;
      next := offset + DB_CHUNK_SIZE;
      var keys := Page(DistinctKeys(stores[self].rows), offset);
      PageOfKeys(topo, alive, now, self, keys, at);
      ghost var copies;
      r, copies := RebasePage(self, keys, at);
      full := |keys| >= DB_CHUNK_SIZE;
      PageStepTaken(topo, alive, reliable, self, before, now, copies, stores, keys, at, next, bad, full, r);
      PageIsARun(Cfg(), alive, self, now, stores, keys, at, next, full, r);
      PageWayTurned(topo, alive, reliable, self, DistinctKeys(before[self].rows), now, copies, stores, keys, at, next,
                    bad, full, r);
    }

    /** One pass over the keys of this node, page by page. However it ends, nothing is lost, and only keys with a
        live owner are spoken of; if it ends well, the keys that stay are those of the paged pass, so at most half
        of the misplaced ones. It ends well exactly if the pages it reads are ready, but for transport faults. */
    method HandleRebaseSignal(self: NodeId) returns (r: Result<()>)
      requires self in stores && AllConsistent(stores)
      modifies this`stores
      ensures Rebased(topo, self, old(stores), stores)
      ensures Concerns(topo, self, LiveKeys(topo, alive, DistinctKeys(old(stores)[self].rows)), old(stores), stores)
      ensures DeadOnPage(topo, alive, DistinctKeys(old(stores)[self].rows), 0) ==> r.Err? && stores == old(stores)
      ensures var keys := DistinctKeys(old(stores)[self].rows);
        var clear := WayClear(topo, alive, old(stores), self, keys, 0, MisplacedKeys(topo, self, keys));
        (clear ==> OkOrFault(reliable, r)) && (r.Ok? ==> clear)
      ensures r.Ok? ==>
        var before, after := DistinctKeys(old(stores)[self].rows), DistinctKeys(stores[self].rows);
        var bad := MisplacedKeys(topo, self, before);
        after == Pass(before, 0, bad) && 2 * Count(after, bad) <= Count(before, bad)
      ensures Ready(topo, alive, old(stores), self) ==>
        OkOrFault(reliable, r) && (r.Ok? ==> Ready(topo, alive, stores, self))
      ensures r.Ok? ==> Passed(topo, alive, self, old(stores), stores)
      ensures Performs(Cfg(), self, old(stores), Resting, stores, Resting)
    {
      ghost var before := stores;
      ghost var bad := MisplacedKeys(topo, self, DistinctKeys(stores[self].rows));
      PassBegins(Cfg(), alive, self, stores);
      var offset: nat := 0;
      ghost var at: nat := 0;
      while true
        invariant at == offset && PassGoesOn(Cfg(), alive, self, before, stores, at, bad)
        decreases |DistinctKeys(stores[self].rows)| - offset
      {
        var full;
        ghost var now, next := stores, at;
        r, full, next := RebaseNextPage(self, offset, at, before, bad);
        if r.Err? || !full {
          EndOfPass(Cfg(), alive, reliable, self, before, now, stores, at, next, bad, full, r);
          return;
        }
        OneMorePage(Cfg(), alive, reliable, self, before, now, stores, at, next, bad, r);
        offset, at := offset + DB_CHUNK_SIZE, next;
      }
    }

    /** One pass for each rebase signal; errors are only logged. From a state in which every owner is alive and
        would accept what it is to get, the first error, if any, is a transport fault. If there is none and
        there were floor(log2 M) + 1 signals for M misplaced keys, exactly the well-placed keys are left. */
    method ServeRebaseSignals(self: NodeId, signals: nat) returns (logged: seq<Error>)
      requires self in stores && AllConsistent(stores)
      modifies this`stores
      ensures self in stores && AllConsistent(stores)
      ensures var all := DistinctKeys(old(stores)[self].rows);
        var bad := MisplacedKeys(topo, self, all);
        PassesNeeded(Count(all, bad)) <= signals &&
        (logged == [] || (Ready(topo, alive, old(stores), self) && Disconnected !in logged)) ==>
          DistinctKeys(stores[self].rows) == Dropped(all, bad)
      ensures Ready(topo, alive, old(stores), self) ==>
        if logged == [] then Ready(topo, alive, stores, self) else logged[0] == Disconnected && !reliable
      ensures Performs(Cfg(), self, old(stores), Resting, stores, Resting)
    {
      ghost var first, left := stores, signals;
      ServingBegins(Cfg(), alive, reliable, self, stores, signals);
      logged := [];
      for i := 0 to signals
        invariant left == signals - i && Serving(Cfg(), alive, reliable, self, first, stores, logged, left, signals)
      {
        logged, left := ServeSignal(self, logged, first, left, signals);
      }
      ServingEnds(Cfg(), alive, reliable, self, first, stores, logged, signals);
    }

    /** One of the signals: a pass, and its error, if any, in the log. */
    method ServeSignal(self: NodeId, log: seq<Error>, ghost first: Stores, ghost left: nat, ghost signals: nat)
        returns (logged: seq<Error>, ghost rest: nat)
      requires left > 0 && Serving(Cfg(), alive, reliable, self, first, stores, log, left, signals)
      modifies this`stores
      ensures rest == left - 1 && Serving(Cfg(), alive, reliable, self, first, stores, logged, rest, signals)
    {
      ghost var now := stores;
      var r := HandleRebaseSignal(self);
      rest := left - 1;
      OneMoreServed(Cfg(), alive, reliable, self, first, now, stores, log, r, left, rest, signals);
      logged := if r.Err? then log + [r.error] else log;
    }
  }

  /** Some signals are served and `left` are to go: the passes so far are a run of the machine, and while nothing
      was logged they were passes that ended well. */
  ghost predicate Serving(cfg: Config, alive: set<string>, reliable: bool, self: NodeId, first: Stores, now: Stores,
                          logged: seq<Error>, left: nat, signals: nat) {
    && self in first && self in now && AllConsistent(now)
    && Performs(cfg, self, first, Resting, now, Resting)
    && (logged == [] ==> PassesDone(cfg.topo, self, DistinctKeys(first[self].rows), now, left, signals))
    && (Ready(cfg.topo, alive, first, self) ==>
          if logged == [] then Ready(cfg.topo, alive, now, self) else logged[0] == Disconnected && !reliable)
  }

  lemma ServingBegins(cfg: Config, alive: set<string>, reliable: bool, self: NodeId, first: Stores, signals: nat)
    requires self in first && AllConsistent(first)
    ensures Serving(cfg, alive, reliable, self, first, first, [], signals, signals)
  {
    PerformsNothing(cfg, self, first, Resting);
  }

  lemma OneMoreServed(cfg: Config, alive: set<string>, reliable: bool, self: NodeId, first: Stores, now: Stores,
                      after: Stores, log: seq<Error>, r: Result<()>, left: nat, rest: nat, signals: nat)
    requires left == rest + 1 && Serving(cfg, alive, reliable, self, first, now, log, left, signals)
    requires Rebased(cfg.topo, self, now, after) && Performs(cfg, self, now, Resting, after, Resting)
    requires r.Ok? ==> Passed(cfg.topo, alive, self, now, after)
    requires Ready(cfg.topo, alive, now, self) ==> OkOrFault(reliable, r)
    ensures Serving(cfg, alive, reliable, self, first, after, if r.Err? then log + [r.error] else log, rest, signals)
  {
    PerformsMore(cfg, self, first, Resting, now, Resting, after, Resting);
    if r.Ok? && log == [] {
      OneMorePass(cfg.topo, self, DistinctKeys(first[self].rows), now, after, left, rest, signals);
    }
  }

  lemma ServingEnds(cfg: Config, alive: set<string>, reliable: bool, self: NodeId, first: Stores, now: Stores,
                    logged: seq<Error>, signals: nat)
    requires Serving(cfg, alive, reliable, self, first, now, logged, 0, signals)
    ensures var all := DistinctKeys(first[self].rows);
      var bad := MisplacedKeys(cfg.topo, self, all);
      PassesNeeded(Count(all, bad)) <= signals &&
      (logged == [] || (Ready(cfg.topo, alive, first, self) && Disconnected !in logged)) ==>
        DistinctKeys(now[self].rows) == Dropped(all, bad)
  {
    if logged == [] {
      SignalsClear(cfg.topo, self, first[self].rows, now, signals);
    }
  }

  // ---------------------------------------------------------------- passes as runs of the machine

  lemma PageRun(cfg: Config, self: NodeId, stores: Stores, offset: nat, keys: seq<string>, info: map<string, string>)
    requires self in stores && keys == Page(DistinctKeys(stores[self].rows), offset)
    requires info == InfoOf(cfg.topo, self, keys)
    requires forall k :: k in keys ==> cfg.topo.owner(k).Ok?
    ensures Performs(cfg, self, stores, Paging(offset), stores,
                     Copying(offset, |keys| < DB_CHUNK_SIZE, info.Keys, info.Keys, NoCursor))
  {
    ReadRun(cfg, self, stores, offset, keys);
    assert info.Keys == MisplacedKeys(cfg.topo, self, keys);
  }

  lemma PageEnds(cfg: Config, self: NodeId, before: Stores, offset: nat, next: nat, last: bool, after: Stores, ok: bool)
    requires next == offset + DB_CHUNK_SIZE
    requires Performs(cfg, self, before, Paging(offset), after,
                      if ok then Removing(offset, last, {}, NoDrop) else Resting)
    ensures Performs(cfg, self, before, Paging(offset), after,
                     if ok && !last then Paging(next) else Resting)
  {
    if ok {
      NextPageRun(cfg, self, after, offset, last);
      PerformsMore(cfg, self, before, Paging(offset), after, Removing(offset, last, {}, NoDrop),
                   after, if last then Resting else Paging(next));
    }
  }

  lemma CopiedKeyRun(cfg: Config, self: NodeId, first: Stores, p: Phase, key: string, hashes: seq<Hash>, now: Stores)
    requires p.Copying? && Performs(cfg, self, first, p, now, Midway(p, key, hashes[|hashes|..], |hashes| > 0))
    ensures Performs(cfg, self, first, p, now, Past(p, key))
  {
    assert hashes[|hashes|..] == [];
    FinishRun(cfg, self, now, p, key, |hashes| > 0);
    PerformsMore(cfg, self, first, p, now, Midway(p, key, [], |hashes| > 0), now, Past(p, key));
  }

  lemma RemovedKeyRun(cfg: Config, self: NodeId, first: Stores, p: Phase, now: Stores, offset: nat, last: bool,
                      todo: set<string>, key: string)
    requires self in now && key in todo && key != "" && RemoveByKey(now[self], key).1.Ok?
    requires Performs(cfg, self, first, p, now, Removing(offset, last, todo, NoDrop))
    ensures Performs(cfg, self, first, p, now[self := RemoveByKey(now[self], key).0],
                     Removing(offset, last, todo - {key}, NoDrop))
  {
    RemovalRun(cfg, self, now, offset, last, todo, key);
    PerformsMore(cfg, self, first, p, now, Removing(offset, last, todo, NoDrop),
                 now[self := RemoveByKey(now[self], key).0], Removing(offset, last, todo - {key}, NoDrop));
  }

  /** After `done` of `signals` error-free passes. */
  ghost predicate PassesDone(topo: Topology, self: NodeId, all: seq<string>, now: Stores, left: nat, signals: nat) {
    && self in now && AllConsistent(now)
    && var keys, bad := DistinctKeys(now[self].rows), MisplacedKeys(topo, self, all);
       && (forall k :: k in keys ==> k in all)
       && Passes(keys, left, bad) == Passes(all, signals, bad)
  }

  /** Enough error-free passes leave exactly the well-placed keys. */
  lemma SignalsClear(topo: Topology, self: NodeId, rows: seq<Row>, now: Stores, signals: nat)
    requires PassesDone(topo, self, DistinctKeys(rows), now, 0, signals)
    ensures var all := DistinctKeys(rows);
      var bad := MisplacedKeys(topo, self, all);
      PassesNeeded(Count(all, bad)) <= signals ==> DistinctKeys(now[self].rows) == Dropped(all, bad)
  {
    var all := DistinctKeys(rows);
    var bad := MisplacedKeys(topo, self, all);
    if PassesNeeded(Count(all, bad)) <= signals {
      DistinctKeysMembers(rows);
      PassesClear(all, signals, bad);
    }
  }

  lemma OneMorePass(topo: Topology, self: NodeId, all: seq<string>, now: Stores, after: Stores, left: nat, rest: nat,
                    signals: nat)
    requires PassesDone(topo, self, all, now, left, signals) && left == rest + 1 && Rebased(topo, self, now, after)
    requires var keys := DistinctKeys(now[self].rows);
      DistinctKeys(after[self].rows) == Pass(keys, 0, MisplacedKeys(topo, self, keys))
    ensures PassesDone(topo, self, all, after, rest, signals)
  {
    var keys, bad := DistinctKeys(now[self].rows), MisplacedKeys(topo, self, all);
    PassDependsOnMembers(keys, 0, bad, MisplacedKeys(topo, self, keys));
    KeysShrink(topo, self, now, after);
  }

  lemma KeysShrink(topo: Topology, self: NodeId, now: Stores, after: Stores)
    requires Rebased(topo, self, now, after)
    ensures forall k :: k in DistinctKeys(after[self].rows) ==> k in DistinctKeys(now[self].rows)
  {
    DistinctKeysMembers(now[self].rows);
    DistinctKeysMembers(after[self].rows);
  }

  /** Copying a page has only copied, and left the keys outside the page free to move. */
  ghost predicate PageCopied(topo: Topology, self: NodeId, keys: seq<string>, before: Stores, copies: Stores) {
    && AllConsistent(copies) && Copied(topo, self, before, copies)
    && Concerns(topo, self, InfoOf(topo, self, keys).Keys, before, copies)
    && forall k :: k !in InfoOf(topo, self, keys) && Free(topo, before, self, k) ==> Free(topo, copies, self, k)
  }

  /** The misplaced keys of the page have arrived at their homes and are gone here. */
  ghost predicate PageMoved(topo: Topology, self: NodeId, keys: seq<string>, copies: Stores, a: Store)
    requires self in copies
  {
    var info := InfoOf(topo, self, keys);
    && Trimmed(copies[self], a, info.Keys)
    && forall r :: r in copies[self].rows && r.key in info ==> Arrived(copies, self, topo.resolve(info[r.key]), r)
  }

  ghost predicate PageReady(topo: Topology, alive: set<string>, stores: Stores, self: NodeId, keys: seq<string>)
    requires self in stores
  {
    forall k :: k in keys ==>
      && topo.owner(k).Ok? && topo.owner(k).value in alive
      && (topo.Misplaced(self, k) ==> Free(topo, stores, self, k))
  }

  /** A page whose copying ended well was ready. */
  lemma PageWasReady(topo: Topology, alive: set<string>, stores: Stores, self: NodeId, keys: seq<string>,
                     info: map<string, string>)
    requires self in stores && info == InfoOf(topo, self, keys)
    requires forall k :: k in keys ==> topo.owner(k).Ok? && topo.owner(k).value in alive
    requires forall k :: k in keys ==> k in DistinctKeys(stores[self].rows)
    requires forall row :: row in stores[self].rows && row.key in info ==> Free(topo, stores, self, row.key)
    ensures PageReady(topo, alive, stores, self, keys)
  {
    DistinctKeysMembers(stores[self].rows);
    forall k | k in keys && topo.Misplaced(self, k) ensures Free(topo, stores, self, k) {
      var row :| row in stores[self].rows && row.key == k;
      assert row.key in info;
    }
  }

  /** The middle of a pass: what is still to do from `offset` on gives what the whole pass promised. */
  ghost predicate OnTheWay(topo: Topology, alive: set<string>, self: NodeId, before: Stores, now: Stores, offset: nat,
                           bad: set<string>) {
    && Rebased(topo, self, before, now)
    && bad == MisplacedKeys(topo, self, DistinctKeys(before[self].rows))
    && Pass(DistinctKeys(now[self].rows), offset, bad) == Pass(DistinctKeys(before[self].rows), 0, bad)
    && (forall k :: k in DistinctKeys(now[self].rows) ==> k in DistinctKeys(before[self].rows))
    && (Ready(topo, alive, before, self) ==> Ready(topo, alive, now, self))
  }

  // ---------------------------------------------------------------- the pages that a pass reads

  /** The keys whose owner is known and alive. */
  function LiveKeys(topo: Topology, alive: set<string>, keys: seq<string>): set<string> {
    set k | k in keys && topo.owner(k).Ok? && topo.owner(k).value in alive
  }

  ghost predicate DeadOnPage(topo: Topology, alive: set<string>, keys: seq<string>, offset: nat) {
    exists k :: k in Page(keys, offset) && k !in LiveKeys(topo, alive, keys)
  }

  /** Every page that a pass from `offset` on reads is ready. */
  ghost predicate WayClear(topo: Topology, alive: set<string>, stores: Stores, self: NodeId, keys: seq<string>,
                           offset: nat, bad: set<string>)
    requires self in stores
    decreases |keys| - offset
  {
    var page := Page(keys, offset);
    if |page| < DB_CHUNK_SIZE then PageReady(topo, alive, stores, self, page)
    else
      DroppedShortens(keys, MovedFrom(page, bad));
      && PageReady(topo, alive, stores, self, page)
      && WayClear(topo, alive, stores, self, Dropped(keys, MovedFrom(page, bad)), offset + DB_CHUNK_SIZE, bad)
  }

  ghost predicate SameReadiness(topo: Topology, before: Stores, after: Stores, self: NodeId, keys: seq<string>)
    requires self in before && self in after
  {
    forall k :: k in keys ==> (Free(topo, before, self, k) <==> Free(topo, after, self, k))
  }

  /** What is clear depends on the listed keys only. */
  lemma {:induction false} SameWay(topo: Topology, alive: set<string>, before: Stores, after: Stores, self: NodeId,
                                   keys: seq<string>, offset: nat, bad: set<string>)
    requires self in before && self in after && SameReadiness(topo, before, after, self, keys)
    ensures WayClear(topo, alive, before, self, keys, offset, bad)
       <==> WayClear(topo, alive, after, self, keys, offset, bad)
    decreases |keys| - offset
  {
    var page := Page(keys, offset);
    var moved := MovedFrom(page, bad);
    assert forall k :: k in page ==> k in keys;
    assert PageReady(topo, alive, before, self, page) <==> PageReady(topo, alive, after, self, page);
    if |page| == DB_CHUNK_SIZE {
      DroppedShortens(keys, moved);
      DroppedMembers(keys, moved);
      SameWay(topo, alive, before, after, self, Dropped(keys, moved), offset + DB_CHUNK_SIZE, bad);
    }
  }

  /** Moving the misplaced keys of a page leaves the others as free as they were. */
  lemma MovingKeepsReadiness(topo: Topology, self: NodeId, now: Stores, copies: Stores, a: Store, keys: seq<string>)
    requires self in now && PageCopied(topo, self, keys, now, copies) && PageMoved(topo, self, keys, copies, a)
    ensures SameReadiness(topo, now, copies[self := a], self, DistinctKeys(a.rows))
  {
    var info, after := InfoOf(topo, self, keys), copies[self := a];
    DistinctKeysMembers(a.rows);
    forall k | k in DistinctKeys(a.rows) ensures Free(topo, now, self, k) <==> Free(topo, after, self, k) {
      assert k !in info;
      if Free(topo, now, self, k) {
        TrimKeepsFree(topo, copies, self, a, info.Keys, k);
      }
      if to :| Open(topo, after, self, k, to) {
        forall h | Row(k, h) in now[self].rows ensures !Indexed(now[to].rows, h) {
          RowsOnlyGrow(topo, self, to, now, copies, h);
        }
        assert Open(topo, now, self, k, to);
      }
    }
  }

  lemma WayAfterPage(topo: Topology, alive: set<string>, stores: Stores, self: NodeId, keys: seq<string>,
                     left: seq<string>, offset: nat, next: nat, bad: set<string>)
    requires self in stores && PageReady(topo, alive, stores, self, Page(keys, offset))
    requires next == offset + DB_CHUNK_SIZE
    requires left == Dropped(keys, MovedFrom(Page(keys, offset), bad))
    ensures WayClear(topo, alive, stores, self, keys, offset, bad)
       <==> |Page(keys, offset)| == DB_CHUNK_SIZE ==> WayClear(topo, alive, stores, self, left, next, bad)
  {
  }

  lemma PageClears(topo: Topology, alive: set<string>, self: NodeId, all: seq<string>, now: Stores, copies: Stores,
                   after: Stores, keys: seq<string>, offset: nat, next: nat, bad: set<string>)
    requires self in now && next == offset + DB_CHUNK_SIZE
    requires bad == MisplacedKeys(topo, self, all) && forall k :: k in DistinctKeys(now[self].rows) ==> k in all
    requires keys == Page(DistinctKeys(now[self].rows), offset) && PageReady(topo, alive, now, self, keys)
    requires PageCopied(topo, self, keys, now, copies)
    requires self in after && after == copies[self := after[self]] && PageMoved(topo, self, keys, copies, after[self])
    ensures WayClear(topo, alive, now, self, DistinctKeys(now[self].rows), offset, bad) <==>
      |keys| == DB_CHUNK_SIZE ==> WayClear(topo, alive, after, self, DistinctKeys(after[self].rows), next, bad)
  {
    var listed, left := DistinctKeys(now[self].rows), DistinctKeys(after[self].rows);
    PageInfo(topo, self, all, listed, keys, offset);
    assert left == Dropped(listed, MovedFrom(keys, bad));
    WayAfterPage(topo, alive, now, self, listed, left, offset, next, bad);
    MovingKeepsReadiness(topo, self, now, copies, after[self], keys);
    SameWay(topo, alive, now, after, self, left, next, bad);
  }

  /** A page that is not stopped at once has live owners only. */
  lemma PageSpeaksToTheLiving(topo: Topology, alive: set<string>, self: NodeId, now: Stores, after: Stores,
                              keys: seq<string>)
    requires self in now && (forall k :: k in keys ==> k in DistinctKeys(now[self].rows))
    requires Concerns(topo, self, InfoOf(topo, self, keys).Keys, now, after)
    requires (exists k :: k in keys && !(topo.owner(k).Ok? && topo.owner(k).value in alive)) ==> after == now
    ensures Concerns(topo, self, LiveKeys(topo, alive, DistinctKeys(now[self].rows)), now, after)
  {
    var live := LiveKeys(topo, alive, DistinctKeys(now[self].rows));
    if after != now {
      assert InfoOf(topo, self, keys).Keys <= live;
      ConcernsTransitive(topo, self, InfoOf(topo, self, keys).Keys, {}, live, now, after, after);
    }
  }

  // ---------------------------------------------------------------- a whole pass

  /** The middle of a pass, for all that is promised of it. */
  ghost predicate PassGoesOn(cfg: Config, alive: set<string>, self: NodeId, before: Stores, now: Stores, offset: nat,
                             bad: set<string>) {
    && OnTheWay(cfg.topo, alive, self, before, now, offset, bad)
    && self in before && self in now
    && Performs(cfg, self, before, Resting, now, Paging(offset))
    && Concerns(cfg.topo, self, LiveKeys(cfg.topo, alive, DistinctKeys(before[self].rows)), before, now)
    && (WayClear(cfg.topo, alive, before, self, DistinctKeys(before[self].rows), 0, bad) <==>
          WayClear(cfg.topo, alive, now, self, DistinctKeys(now[self].rows), offset, bad))
    && (if offset == 0 then now == before else !DeadOnPage(cfg.topo, alive, DistinctKeys(before[self].rows), 0))
  }

  lemma PassBegins(cfg: Config, alive: set<string>, self: NodeId, stores: Stores)
    requires self in stores && AllConsistent(stores)
    ensures var bad := MisplacedKeys(cfg.topo, self, DistinctKeys(stores[self].rows));
      PassGoesOn(cfg, alive, self, stores, stores, 0, bad)
  {
    RebasedNothing(cfg.topo, self, stores);
    SignalRun(cfg, self, stores);
  }

  /** The page at `offset` of a pass from `before`, as it was read at `now` and left at `after`; the next one
      starts at `next`. */
  ghost predicate PageStep(topo: Topology, alive: set<string>, reliable: bool, self: NodeId, before: Stores,
                           now: Stores, after: Stores, next: nat, bad: set<string>, full: bool, r: Result<()>) {
    && self in before && self in now && self in after && Rebased(topo, self, before, after)
    && (r.Ok? && !full ==> DistinctKeys(after[self].rows) == Pass(DistinctKeys(before[self].rows), 0, bad))
    && (r.Ok? && full ==> OnTheWay(topo, alive, self, before, after, next, bad))
    && (r.Ok? && full ==> next <= |DistinctKeys(now[self].rows)|)
    && (r.Ok? ==> |DistinctKeys(after[self].rows)| <= |DistinctKeys(now[self].rows)|)
    && (Ready(topo, alive, before, self) ==> OkOrFault(reliable, r) && (r.Ok? ==> Ready(topo, alive, after, self)))
  }

  /** The page as a part of a run, in which only keys with a live owner are spoken of. */
  ghost predicate PageRan(cfg: Config, alive: set<string>, self: NodeId, now: Stores, after: Stores, offset: nat,
                          next: Phase)
    requires self in now
  {
    && Performs(cfg, self, now, Paging(offset), after, next)
    && Concerns(cfg.topo, self, LiveKeys(cfg.topo, alive, DistinctKeys(now[self].rows)), now, after)
  }

  /** The page fails at once if it names a dead owner; a way that is clear stays so, and a page that was read leaves
      as much to clear as there was. */
  ghost predicate PageWay(topo: Topology, alive: set<string>, reliable: bool, self: NodeId, now: Stores, after: Stores,
                          offset: nat, next: nat, bad: set<string>, full: bool, r: Result<()>)
    requires self in now && self in after
  {
    && (DeadOnPage(topo, alive, DistinctKeys(now[self].rows), offset) ==> r.Err? && after == now)
    && (WayClear(topo, alive, now, self, DistinctKeys(now[self].rows), offset, bad) ==> OkOrFault(reliable, r))
    && (r.Ok? ==> (WayClear(topo, alive, now, self, DistinctKeys(now[self].rows), offset, bad) <==>
          full ==> WayClear(topo, alive, after, self, DistinctKeys(after[self].rows), next, bad)))
  }

  lemma PageWayTurned(topo: Topology, alive: set<string>, reliable: bool, self: NodeId, all: seq<string>, now: Stores,
                      copies: Stores, after: Stores, keys: seq<string>, offset: nat, next: nat, bad: set<string>,
                      full: bool, r: Result<()>)
    requires self in now && self in after
    requires bad == MisplacedKeys(topo, self, all) && forall k :: k in DistinctKeys(now[self].rows) ==> k in all
    requires next == offset + DB_CHUNK_SIZE && (full <==> |keys| == DB_CHUNK_SIZE)
    requires keys == Page(DistinctKeys(now[self].rows), offset) && PageCopied(topo, self, keys, now, copies)
    requires r.Ok? ==> after == copies[self := after[self]] && PageMoved(topo, self, keys, copies, after[self])
    requires PageReady(topo, alive, now, self, keys) ==> OkOrFault(reliable, r)
    requires r.Ok? ==> PageReady(topo, alive, now, self, keys)
    requires (exists k :: k in keys && !(topo.owner(k).Ok? && topo.owner(k).value in alive)) ==> r.Err? && after == now
    ensures PageWay(topo, alive, reliable, self, now, after, offset, next, bad, full, r)
  {
    if WayClear(topo, alive, now, self, DistinctKeys(now[self].rows), offset, bad) {
      ClearWayIsReady(topo, alive, now, self, DistinctKeys(now[self].rows), offset, bad);
    }
    assert forall k :: k in keys ==> k in DistinctKeys(now[self].rows);
    if r.Ok? {
      PageClears(topo, alive, self, all, now, copies, after, keys, offset, next, bad);
    }
  }

  lemma ClearWayIsReady(topo: Topology, alive: set<string>, stores: Stores, self: NodeId, keys: seq<string>,
                        offset: nat, bad: set<string>)
    requires self in stores && WayClear(topo, alive, stores, self, keys, offset, bad)
    ensures PageReady(topo, alive, stores, self, Page(keys, offset))
  {
  }

  lemma PageStepTaken(topo: Topology, alive: set<string>, reliable: bool, self: NodeId, before: Stores, now: Stores,
                      copies: Stores, after: Stores, keys: seq<string>, offset: nat, next: nat, bad: set<string>,
                      full: bool, r: Result<()>)
    requires self in before && self in now && OnTheWay(topo, alive, self, before, now, offset, bad)
    requires next == offset + DB_CHUNK_SIZE && (full <==> |keys| >= DB_CHUNK_SIZE)
    requires keys == Page(DistinctKeys(now[self].rows), offset) && PageCopied(topo, self, keys, now, copies)
    requires r.Err? ==> after == copies
    requires r.Ok? ==>
      self in after && after == copies[self := after[self]] && PageMoved(topo, self, keys, copies, after[self])
    requires PageReady(topo, alive, now, self, keys) ==> OkOrFault(reliable, r)
    ensures PageStep(topo, alive, reliable, self, before, now, after, next, bad, full, r)
  {
    PageOfKeys(topo, alive, now, self, keys, offset);
    PageOutcome(topo, alive, self, before, now, copies, after, r.Ok?, keys, offset, next, bad);
  }

  lemma PageIsARun(cfg: Config, alive: set<string>, self: NodeId, now: Stores, after: Stores, keys: seq<string>,
                   offset: nat, next: nat, full: bool, r: Result<()>)
    requires self in now && next == offset + DB_CHUNK_SIZE && (full <==> |keys| >= DB_CHUNK_SIZE)
    requires keys == Page(DistinctKeys(now[self].rows), offset)
    requires (exists k :: k in keys && !(cfg.topo.owner(k).Ok? && cfg.topo.owner(k).value in alive)) ==> after == now
    requires Concerns(cfg.topo, self, InfoOf(cfg.topo, self, keys).Keys, now, after)
    requires Performs(cfg, self, now, Paging(offset), after,
                      if r.Ok? then Removing(offset, |keys| < DB_CHUNK_SIZE, {}, NoDrop) else Resting)
    ensures PageRan(cfg, alive, self, now, after, offset, if r.Ok? && full then Paging(next) else Resting)
  {
    PageEnds(cfg, self, now, offset, next, !full, after, r.Ok?);
    assert forall k :: k in keys ==> k in DistinctKeys(now[self].rows);
    PageSpeaksToTheLiving(cfg.topo, alive, self, now, after, keys);
  }

  ghost predicate PageTurn(cfg: Config, alive: set<string>, reliable: bool, self: NodeId, before: Stores, now: Stores,
                           after: Stores, offset: nat, next: nat, bad: set<string>, full: bool, r: Result<()>) {
    && PageStep(cfg.topo, alive, reliable, self, before, now, after, next, bad, full, r)
    && PageRan(cfg, alive, self, now, after, offset, if r.Ok? && full then Paging(next) else Resting)
    && PageWay(cfg.topo, alive, reliable, self, now, after, offset, next, bad, full, r)
  }

  lemma TurnInPass(cfg: Config, alive: set<string>, self: NodeId, before: Stores, now: Stores, after: Stores,
                   offset: nat, next: Phase)
    requires self in before && self in now && Rebased(cfg.topo, self, before, now)
    requires Performs(cfg, self, before, Resting, now, Paging(offset))
    requires Performs(cfg, self, now, Paging(offset), after, next)
    requires Concerns(cfg.topo, self, LiveKeys(cfg.topo, alive, DistinctKeys(before[self].rows)), before, now)
    requires Concerns(cfg.topo, self, LiveKeys(cfg.topo, alive, DistinctKeys(now[self].rows)), now, after)
    ensures Performs(cfg, self, before, Resting, after, next)
    ensures Concerns(cfg.topo, self, LiveKeys(cfg.topo, alive, DistinctKeys(before[self].rows)), before, after)
  {
    var live := LiveKeys(cfg.topo, alive, DistinctKeys(before[self].rows));
    KeysShrink(cfg.topo, self, before, now);
    PerformsMore(cfg, self, before, Resting, now, Paging(offset), after, next);
    ConcernsTransitive(cfg.topo, self, live, LiveKeys(cfg.topo, alive, DistinctKeys(now[self].rows)), live,
                       before, now, after);
  }

  lemma OneMorePage(cfg: Config, alive: set<string>, reliable: bool, self: NodeId, before: Stores, now: Stores,
                    after: Stores, offset: nat, next: nat, bad: set<string>, r: Result<()>)
    requires PassGoesOn(cfg, alive, self, before, now, offset, bad) && r.Ok? && next > offset
    requires PageTurn(cfg, alive, reliable, self, before, now, after, offset, next, bad, true, r)
    ensures PassGoesOn(cfg, alive, self, before, after, next, bad)
  {
    TurnInPass(cfg, alive, self, before, now, after, offset, Paging(next));
  }

  /** A pass ends with a page that failed or was not full. */
  lemma EndOfPass(cfg: Config, alive: set<string>, reliable: bool, self: NodeId, before: Stores, now: Stores,
                 after: Stores, offset: nat, next: nat, bad: set<string>, full: bool, r: Result<()>)
    requires PassGoesOn(cfg, alive, self, before, now, offset, bad) && (r.Err? || !full)
    requires bad == MisplacedKeys(cfg.topo, self, DistinctKeys(before[self].rows))
    requires PageTurn(cfg, alive, reliable, self, before, now, after, offset, next, bad, full, r)
    ensures PassDone(cfg, alive, reliable, self, before, after, r)
  {
    TurnInPass(cfg, alive, self, before, now, after, offset, Resting);
    DistinctKeysMembers(before[self].rows);
    PassHalves(DistinctKeys(before[self].rows), bad);
  }

  /** All that is promised of a pass. */
  ghost predicate PassDone(cfg: Config, alive: set<string>, reliable: bool, self: NodeId, before: Stores, after: Stores,
                           r: Result<()>) {
    && self in before && self in after && Rebased(cfg.topo, self, before, after)
    && Performs(cfg, self, before, Resting, after, Resting)
    && var keys, left := DistinctKeys(before[self].rows), DistinctKeys(after[self].rows);
       var bad := MisplacedKeys(cfg.topo, self, keys);
       && Concerns(cfg.topo, self, LiveKeys(cfg.topo, alive, keys), before, after)
       && (DeadOnPage(cfg.topo, alive, keys, 0) ==> r.Err? && after == before)
       && (WayClear(cfg.topo, alive, before, self, keys, 0, bad) ==> OkOrFault(reliable, r))
       && (r.Ok? ==> WayClear(cfg.topo, alive, before, self, keys, 0, bad))
       && (r.Ok? ==> left == Pass(keys, 0, bad) && 2 * Count(left, bad) <= Count(keys, bad))
       && (Ready(cfg.topo, alive, before, self) ==>
             OkOrFault(reliable, r) && (r.Ok? ==> Ready(cfg.topo, alive, after, self)))
  }

  /** On the list of keys, a page is one unfolding of the paged pass. */
  lemma PageShortens(all: seq<string>, listed: seq<string>, after: seq<string>, keys: seq<string>, offset: nat,
                     next: nat, bad: set<string>)
    requires next == offset + DB_CHUNK_SIZE
    requires keys == Page(listed, offset) && after == Dropped(listed, MovedFrom(keys, bad))
    requires Pass(listed, offset, bad) == Pass(all, 0, bad) && forall k :: k in listed ==> k in all
    ensures |keys| < DB_CHUNK_SIZE ==> after == Pass(all, 0, bad)
    ensures |keys| == DB_CHUNK_SIZE ==> Pass(after, next, bad) == Pass(all, 0, bad)
    ensures (forall k :: k in after ==> k in all) && |after| <= |listed|
  {
    DroppedMembers(listed, MovedFrom(keys, bad));
    DroppedShortens(listed, MovedFrom(keys, bad));
  }

  lemma PageCopyKeepsRebased(topo: Topology, alive: set<string>, self: NodeId, before: Stores, now: Stores,
                             copies: Stores, keys: seq<string>, offset: nat, bad: set<string>)
    requires self in before && OnTheWay(topo, alive, self, before, now, offset, bad)
    requires PageCopied(topo, self, keys, now, copies)
    ensures Rebased(topo, self, before, copies) && copies[self] == now[self]
  {
    CopyKeepsRebased(topo, self, before, now, copies);
  }

  /** A page that is checked, copied and removed is one step of the paged pass. */
  lemma PageDone(topo: Topology, alive: set<string>, self: NodeId, before: Stores, now: Stores, copies: Stores,
                 a: Store, keys: seq<string>, offset: nat, next: nat, bad: set<string>)
    requires next == offset + DB_CHUNK_SIZE
    requires self in before && OnTheWay(topo, alive, self, before, now, offset, bad)
    requires keys == Page(DistinctKeys(now[self].rows), offset) && PageCopied(topo, self, keys, now, copies)
    requires Rebased(topo, self, before, copies) && copies[self] == now[self] && PageMoved(topo, self, keys, copies, a)
    ensures Rebased(topo, self, before, copies[self := a])
    ensures |keys| < DB_CHUNK_SIZE ==> DistinctKeys(a.rows) == Pass(DistinctKeys(before[self].rows), 0, bad)
    ensures |keys| == DB_CHUNK_SIZE ==>
      OnTheWay(topo, alive, self, before, copies[self := a], next, bad)
    ensures Ready(topo, alive, before, self) ==> Ready(topo, alive, copies[self := a], self)
    ensures |DistinctKeys(a.rows)| <= |DistinctKeys(now[self].rows)|
  {
    PageInfo(topo, self, DistinctKeys(before[self].rows), DistinctKeys(now[self].rows), keys, offset);
    TrimKeepsRebased(topo, self, before, copies, a, InfoOf(topo, self, keys));
    TrimmedPage(topo, alive, self, before, now, copies, a, keys, InfoOf(topo, self, keys), offset, next, bad);
  }

  lemma PageOutcome(topo: Topology, alive: set<string>, self: NodeId, before: Stores, now: Stores, copies: Stores,
                    after: Stores, ok: bool, keys: seq<string>, offset: nat, next: nat, bad: set<string>)
    requires next == offset + DB_CHUNK_SIZE
    requires self in before && OnTheWay(topo, alive, self, before, now, offset, bad)
    requires keys == Page(DistinctKeys(now[self].rows), offset) && PageCopied(topo, self, keys, now, copies)
    requires !ok ==> after == copies
    requires ok ==>
      self in after && after == copies[self := after[self]] && PageMoved(topo, self, keys, copies, after[self])
    ensures Rebased(topo, self, before, after)
    ensures ok && |keys| < DB_CHUNK_SIZE ==>
      DistinctKeys(after[self].rows) == Pass(DistinctKeys(before[self].rows), 0, bad)
    ensures ok && |keys| == DB_CHUNK_SIZE ==> OnTheWay(topo, alive, self, before, after, next, bad)
    ensures ok && Ready(topo, alive, before, self) ==> self in after && Ready(topo, alive, after, self)
    ensures ok ==> |DistinctKeys(after[self].rows)| <= |DistinctKeys(now[self].rows)|
  {
    PageCopyKeepsRebased(topo, alive, self, before, now, copies, keys, offset, bad);
    if ok {
      PageDone(topo, alive, self, before, now, copies, after[self], keys, offset, next, bad);
    }
  }

  lemma TrimmedPage(topo: Topology, alive: set<string>, self: NodeId, before: Stores, now: Stores, copies: Stores,
                    a: Store, keys: seq<string>, info: map<string, string>, offset: nat, next: nat, bad: set<string>)
    requires next == offset + DB_CHUNK_SIZE
    requires OnTheWay(topo, alive, self, before, now, offset, bad)
    requires self in copies && copies[self] == now[self] && Rebased(topo, self, before, copies[self := a])
    requires keys == Page(DistinctKeys(now[self].rows), offset) && info.Keys == MovedFrom(keys, bad)
    requires forall k :: k !in info && Free(topo, now, self, k) ==> Free(topo, copies, self, k)
    requires Trimmed(copies[self], a, info.Keys)
    ensures |keys| < DB_CHUNK_SIZE ==> DistinctKeys(a.rows) == Pass(DistinctKeys(before[self].rows), 0, bad)
    ensures |keys| == DB_CHUNK_SIZE ==>
      OnTheWay(topo, alive, self, before, copies[self := a], next, bad)
    ensures Ready(topo, alive, before, self) ==> Ready(topo, alive, copies[self := a], self)
    ensures |DistinctKeys(a.rows)| <= |DistinctKeys(now[self].rows)|
  {
    PageShortens(DistinctKeys(before[self].rows), DistinctKeys(now[self].rows), DistinctKeys(a.rows), keys, offset,
                 next, bad);
    if Ready(topo, alive, now, self) {
      PageKeepsReady(topo, alive, self, now, copies, a, info);
    }
  }

  /** The misplaced keys of a page are those that the pass as a whole calls misplaced. */
  lemma PageInfo(topo: Topology, self: NodeId, all: seq<string>, listed: seq<string>, keys: seq<string>, offset: nat)
    requires keys == Page(listed, offset) && forall k :: k in listed ==> k in all
    ensures InfoOf(topo, self, keys).Keys == MovedFrom(keys, MisplacedKeys(topo, self, all))
    ensures forall k :: k in InfoOf(topo, self, keys) ==> topo.owner(k) == Ok(InfoOf(topo, self, keys)[k])
  {
    assert forall k :: k in keys ==> k in listed;
  }

  lemma PageOfKeys(topo: Topology, alive: set<string>, stores: Stores, self: NodeId, keys: seq<string>, offset: nat)
    requires self in stores && AllConsistent(stores) && keys == Page(DistinctKeys(stores[self].rows), offset)
    ensures "" !in keys
    ensures Ready(topo, alive, stores, self) ==> PageReady(topo, alive, stores, self, keys)
    ensures |keys| == DB_CHUNK_SIZE ==> offset + DB_CHUNK_SIZE <= |DistinctKeys(stores[self].rows)|
    ensures |keys| <= DB_CHUNK_SIZE
  {
    DistinctKeysMembers(stores[self].rows);
    var all := DistinctKeys(stores[self].rows);
    assert forall k :: k in keys ==> k in all;
    assert forall k :: k in all ==> exists r :: r in stores[self].rows && r.key == k;
  }

  lemma PageKeepsReady(topo: Topology, alive: set<string>, self: NodeId, now: Stores, copies: Stores, a: Store,
                       info: map<string, string>)
    requires self in now && self in copies && Ready(topo, alive, now, self)
    requires copies[self] == now[self] && Trimmed(copies[self], a, info.Keys)
    requires forall k :: k !in info && Free(topo, now, self, k) ==> Free(topo, copies, self, k)
    ensures Ready(topo, alive, copies[self := a], self)
  {
    DroppedMembers(DistinctKeys(now[self].rows), info.Keys);
    forall k | k in DistinctKeys(a.rows) && topo.Misplaced(self, k) ensures Free(topo, copies[self := a], self, k) {
      assert k !in info && k in DistinctKeys(now[self].rows);
      TrimKeepsFree(topo, copies, self, a, info.Keys, k);
    }
  }
}

/** No interleaving of rebases, saves and replications loses an indexed hash. */
module ClusterSafety {
  import opened Results
  import opened StoreModel
  import opened Topologies
  import opened ClusterMachine
  import opened ClusterRuns

  /** `n` indexes `hash` under `key`. */
  ghost predicate Has(c: Cluster, n: NodeId, key: string, hash: Hash) {
    n in c.stores && Row(key, hash) in c.stores[n].rows
  }

  ghost predicate HasFile(c: Cluster, n: NodeId, hash: Hash) {
    n in c.stores && MakePathFromHash(hash) in c.stores[n].files
  }

  /** Some node indexes `hash` under a key it is home to, and has the file. */
  ghost predicate Settled(cfg: Config, c: Cluster, hash: Hash) {
    exists n, key :: SettledAt(cfg, c, n, key, hash)
  }

  ghost predicate SettledAt(cfg: Config, c: Cluster, n: NodeId, key: string, hash: Hash) {
    cfg.topo.Home(key, n) && Has(c, n, key, hash) && HasFile(c, n, hash)
  }

  /** The row has reached its home, and its hash is settled. */
  ghost predicate Landed(cfg: Config, c: Cluster, key: string, hash: Hash) {
    Settled(cfg, c, hash) && exists n :: cfg.topo.Home(key, n) && Has(c, n, key, hash)
  }

  /** `n` may drop `key`: the key is misplaced, `n` is not its home, and all that `n` has for it is delivered. */
  ghost predicate Cleared(cfg: Config, c: Cluster, n: NodeId, key: string) {
    && cfg.topo.Misplaced(n, key) && !cfg.topo.Home(key, n)
    && forall hash :: Has(c, n, key, hash) ==> Landed(cfg, c, key, hash)
  }

  // ---------------------------------------------------------------- the invariant

  ghost predicate NodeOk(cfg: Config, c: Cluster, n: NodeId)
    requires n in c.stores
  {
    && UniqueHashes(c.stores[n].rows)
    && forall key, hash :: Has(c, n, key, hash) ==> HasFile(c, n, hash) || Settled(cfg, c, hash)
  }

  ghost predicate SaveOk(cfg: Config, c: Cluster, s: Save) {
    && s.at in c.stores && cfg.topo.Home(s.key, s.at)
    && (s.status.Written? ==> HasFile(c, s.at, s.hash) || Settled(cfg, c, s.hash))
    && (s.status.Accepted? ==> Has(c, s.at, s.key, s.hash) && Settled(cfg, c, s.hash))
  }

  /** A key whose copying is under way: what is neither still to send nor awaited is delivered, a first accept
      proves that the node is not the key's home, and an awaited send to the node itself is never accepted. */
  ghost predicate CursorOk(cfg: Config, c: Cluster, n: NodeId, cur: Cursor)
    requires cur.Cursor?
  {
    && (cur.accepted ==> !cfg.topo.Home(cur.key, n))
    && (!cur.accepted ==> cur.rest != [] || cur.wait.WaitFor?)
    && (forall hash :: hash in cur.rest ==> Has(c, n, cur.key, hash))
    && (cur.wait.WaitFor? ==> WaitOk(c, n, cur.key, cur.wait))
    && (cfg.topo.Home(cur.key, n) ||
        forall hash :: Has(c, n, cur.key, hash) ==> Pending(cur, hash) || Landed(cfg, c, cur.key, hash))
  }

  ghost predicate Pending(cur: Cursor, hash: Hash)
    requires cur.Cursor?
  {
    hash in cur.rest || (cur.wait.WaitFor? && cur.wait.hash == hash)
  }

  ghost predicate WaitOk(c: Cluster, n: NodeId, key: string, wait: Wait)
    requires wait.WaitFor?
  {
    && wait.id < |c.saves| && c.saves[wait.id].key == key && c.saves[wait.id].hash == wait.hash
    && Has(c, n, key, wait.hash)
    && (c.saves[wait.id].at == n ==> !c.saves[wait.id].status.Accepted?)
  }

  ghost predicate PhaseOk(cfg: Config, c: Cluster, n: NodeId, phase: Phase) {
    match phase
    case Copying(_, _, info, todo, cursor) =>
      && todo <= info
      && (forall key :: key in info ==> cfg.topo.Misplaced(n, key) && exists hash :: Has(c, n, key, hash))
      && (forall key :: key in info && key !in todo && (cursor.Cursor? ==> key != cursor.key) ==>
            Cleared(cfg, c, n, key))
      && (cursor.Cursor? ==> cursor.key in info && CursorOk(cfg, c, n, cursor))
    case Removing(_, _, todo, drop) =>
      && (forall key :: key in todo ==> Cleared(cfg, c, n, key))
      && (drop.Drop? ==> Cleared(cfg, c, n, drop.key) && forall hash :: hash in drop.rest ==> Has(c, n, drop.key, hash))
    case _ => true
  }

  ghost predicate Inv(cfg: Config, c: Cluster) {
    && WellFormed(c)
    && (forall n :: n in c.stores ==> NodeOk(cfg, c, n) && PhaseOk(cfg, c, n, c.phases[n]))
    && forall i :: 0 <= i < |c.saves| ==> SaveOk(cfg, c, c.saves[i])
  }

  lemma RestIsSafe(cfg: Config, c: Cluster)
    requires AtRest(c)
    ensures Inv(cfg, c)
  {
  }

  // ---------------------------------------------------------------- what every step preserves

  /** Rows at their home and settled hashes stay; a file goes only once its hash is settled; new rows appear only
      at their home; saves keep their identity, and are accepted only where their hash was not indexed. */
  ghost predicate Evolves(cfg: Config, c: Cluster, d: Cluster) {
    && d.stores.Keys == c.stores.Keys
    && (forall n, key, hash :: Has(c, n, key, hash) && cfg.topo.Home(key, n) ==> Has(d, n, key, hash))
    && (forall n, key, hash :: SettledAt(cfg, c, n, key, hash) ==> SettledAt(cfg, d, n, key, hash))
    && (forall hash :: Settled(cfg, c, hash) ==> Settled(cfg, d, hash))
    && (forall n, hash :: HasFile(c, n, hash) ==> HasFile(d, n, hash) || Settled(cfg, d, hash))
    && (forall n, key, hash :: Has(d, n, key, hash) ==> Has(c, n, key, hash) || cfg.topo.Home(key, n))
    && |c.saves| <= |d.saves|
    && forall i :: 0 <= i < |c.saves| ==> SaveEvolves(c, c.saves[i], d.saves[i])
  }

  ghost predicate SaveEvolves(c: Cluster, s: Save, t: Save) {
    && t == s.(status := t.status)
    && (t.status.Accepted? && !s.status.Accepted? ==> s.at in c.stores && !Indexed(c.stores[s.at].rows, s.hash))
  }

  ghost predicate RowsKept(c: Cluster, d: Cluster, n: NodeId) {
    forall key, hash :: Has(c, n, key, hash) ==> Has(d, n, key, hash)
  }

  lemma SettledEverywhere(cfg: Config, c: Cluster, d: Cluster)
    requires forall n, key, hash :: SettledAt(cfg, c, n, key, hash) ==> SettledAt(cfg, d, n, key, hash)
    ensures forall hash :: Settled(cfg, c, hash) ==> Settled(cfg, d, hash)
  {
    forall hash | Settled(cfg, c, hash) ensures Settled(cfg, d, hash) {
      var n, key :| SettledAt(cfg, c, n, key, hash);
      assert SettledAt(cfg, d, n, key, hash);
    }
  }

  lemma LandedStays(cfg: Config, c: Cluster, d: Cluster, key: string, hash: Hash)
    requires Evolves(cfg, c, d) && Landed(cfg, c, key, hash)
    ensures Landed(cfg, d, key, hash)
  {
    var n :| cfg.topo.Home(key, n) && Has(c, n, key, hash);
    assert Has(d, n, key, hash);
  }

  lemma ClearedStays(cfg: Config, c: Cluster, d: Cluster, n: NodeId, key: string)
    requires Evolves(cfg, c, d) && Cleared(cfg, c, n, key)
    ensures Cleared(cfg, d, n, key)
  {
    forall hash | Has(d, n, key, hash) ensures Landed(cfg, d, key, hash) {
      assert Has(c, n, key, hash);
      LandedStays(cfg, c, d, key, hash);
    }
  }

  lemma CursorStays(cfg: Config, c: Cluster, d: Cluster, n: NodeId, cur: Cursor)
    requires Evolves(cfg, c, d) && RowsKept(c, d, n) && cur.Cursor? && CursorOk(cfg, c, n, cur)
    ensures CursorOk(cfg, d, n, cur)
  {
    if cur.wait.WaitFor? {
      WaitStays(cfg, c, d, n, cur.key, cur.wait);
    }
    if !cfg.topo.Home(cur.key, n) {
      forall hash | Has(d, n, cur.key, hash) && !Pending(cur, hash) ensures Landed(cfg, d, cur.key, hash) {
        assert Has(c, n, cur.key, hash);
        LandedStays(cfg, c, d, cur.key, hash);
      }
    }
  }

  lemma WaitStays(cfg: Config, c: Cluster, d: Cluster, n: NodeId, key: string, wait: Wait)
    requires Evolves(cfg, c, d) && RowsKept(c, d, n) && wait.WaitFor? && WaitOk(c, n, key, wait)
    ensures WaitOk(d, n, key, wait)
  {
    var s := c.saves[wait.id];
    assert SaveEvolves(c, s, d.saves[wait.id]);
    if s.at == n {
      assert Row(key, wait.hash) in c.stores[n].rows;
      assert Indexed(c.stores[n].rows, wait.hash);
    }
  }

  lemma PhaseStays(cfg: Config, c: Cluster, d: Cluster, n: NodeId, phase: Phase)
    requires Evolves(cfg, c, d) && RowsKept(c, d, n) && PhaseOk(cfg, c, n, phase)
    ensures PhaseOk(cfg, d, n, phase)
  {
    match phase
    case Copying(_, _, info, todo, cursor) =>
      forall key | key in info ensures exists hash :: Has(d, n, key, hash) {
        var hash :| Has(c, n, key, hash);
        assert Has(d, n, key, hash);
      }
      forall key | key in info && key !in todo && (cursor.Cursor? ==> key != cursor.key)
        ensures Cleared(cfg, d, n, key)
      {
        ClearedStays(cfg, c, d, n, key);
      }
      if cursor.Cursor? { CursorStays(cfg, c, d, n, cursor); }
    case Removing(_, _, todo, drop) =>
      forall key | key in todo ensures Cleared(cfg, d, n, key) { ClearedStays(cfg, c, d, n, key); }
      if drop.Drop? { ClearedStays(cfg, c, d, n, drop.key); }
    case _ =>
  }

  /** The invariant after a step that evolves the cluster, given what the step did to rows, saves and phases. */
  lemma Assemble(cfg: Config, c: Cluster, d: Cluster)
    requires Inv(cfg, c) && Evolves(cfg, c, d) && WellFormed(d)
    requires forall n :: n in d.stores ==> UniqueHashes(d.stores[n].rows)
    requires forall n, key, hash :: Has(d, n, key, hash) ==> Has(c, n, key, hash) || Settled(cfg, d, hash)
    requires forall n :: n in d.stores ==>
      (d.phases[n] == c.phases[n] && RowsKept(c, d, n)) || PhaseOk(cfg, d, n, d.phases[n])
    requires forall i :: 0 <= i < |d.saves| ==>
      (i < |c.saves| && d.saves[i] == c.saves[i]) || SaveOk(cfg, d, d.saves[i])
    ensures Inv(cfg, d)
  {
    forall n | n in d.stores ensures NodeOk(cfg, d, n) && PhaseOk(cfg, d, n, d.phases[n]) {
      assert NodeOk(cfg, c, n) && PhaseOk(cfg, c, n, c.phases[n]);
      if d.phases[n] == c.phases[n] && RowsKept(c, d, n) {
        PhaseStays(cfg, c, d, n, c.phases[n]);
      }
      forall key, hash | Has(d, n, key, hash) ensures HasFile(d, n, hash) || Settled(cfg, d, hash) {
        if Has(c, n, key, hash) {
          assert HasFile(c, n, hash) || Settled(cfg, c, hash);
        }
      }
    }
    forall i | 0 <= i < |d.saves| ensures SaveOk(cfg, d, d.saves[i]) {
      if i < |c.saves| && d.saves[i] == c.saves[i] {
        SaveStays(cfg, c, d, c.saves[i]);
      }
    }
  }

  lemma SaveStays(cfg: Config, c: Cluster, d: Cluster, s: Save)
    requires Evolves(cfg, c, d) && SaveOk(cfg, c, s)
    ensures SaveOk(cfg, d, s)
  {
  }

  // ---------------------------------------------------------------- steps that touch no store

  lemma SameStoresEvolve(cfg: Config, c: Cluster, d: Cluster)
    requires d.stores == c.stores && |c.saves| <= |d.saves|
    requires forall i :: 0 <= i < |c.saves| ==> SaveEvolves(c, c.saves[i], d.saves[i])
    ensures Evolves(cfg, c, d)
    ensures forall n :: RowsKept(c, d, n)
    ensures forall n, key, hash :: Has(d, n, key, hash) <==> Has(c, n, key, hash)
  {
    SettledEverywhere(cfg, c, d);
  }

  lemma PhaseChange(cfg: Config, c: Cluster, n: NodeId, phase: Phase)
    requires Inv(cfg, c) && n in c.stores && PhaseOk(cfg, c, n, phase)
    ensures Inv(cfg, WithPhase(c, n, phase)) && Evolves(cfg, c, WithPhase(c, n, phase))
  {
    var d := WithPhase(c, n, phase);
    SameStoresEvolve(cfg, c, d);
    PhaseStays(cfg, c, d, n, phase);
    Assemble(cfg, c, d);
  }

  lemma NewSave(cfg: Config, c: Cluster, s: Save)
    requires Inv(cfg, c) && s.at in c.stores && cfg.topo.Home(s.key, s.at) && s.status.Started?
    ensures Inv(cfg, WithSave(c, s)) && Evolves(cfg, c, WithSave(c, s))
  {
    var d := WithSave(c, s);
    SameStoresEvolve(cfg, c, d);
    assert forall t :: t in d.saves ==> t in c.saves || t == s;
    Assemble(cfg, c, d);
  }

  lemma StatusChange(cfg: Config, c: Cluster, id: nat, status: Status)
    requires Inv(cfg, c) && id < |c.saves| && SaveOk(cfg, c, c.saves[id].(status := status)) && !status.Accepted?
    ensures Inv(cfg, WithStatus(c, id, status)) && Evolves(cfg, c, WithStatus(c, id, status))
  {
    var d := WithStatus(c, id, status);
    SameStoresEvolve(cfg, c, d);
    SaveStays(cfg, c, d, d.saves[id]);
    StatusKeepsWellFormed(c, id, status);
    Assemble(cfg, c, d);
  }

  lemma StatusKeepsWellFormed(c: Cluster, id: nat, status: Status)
    requires WellFormed(c) && id < |c.saves|
    ensures WellFormed(WithStatus(c, id, status))
  {
    var d := WithStatus(c, id, status);
    forall s | s in d.saves ensures s.at in d.stores {
      var i :| 0 <= i < |d.saves| && d.saves[i] == s;
      assert c.saves[i] in c.saves;
    }
  }

  // ---------------------------------------------------------------- the steps of a pass

  lemma PageIsOk(cfg: Config, c: Cluster, n: NodeId)
    requires Inv(cfg, c) && Enabled(cfg, c, ReadPage(n))
    ensures Inv(cfg, Next(cfg, c, ReadPage(n))) && Evolves(cfg, c, Next(cfg, c, ReadPage(n)))
  {
    var all := DistinctKeys(c.stores[n].rows);
    var keys := Page(all, c.phases[n].offset);
    var info := MisplacedKeys(cfg.topo, n, keys);
    DistinctKeysMembers(c.stores[n].rows);
    forall key | key in info ensures exists hash :: Has(c, n, key, hash) {
      assert key in all;
      var r :| r in c.stores[n].rows && r.key == key;
      assert Has(c, n, key, r.hash);
    }
    PhaseChange(cfg, c, n, Copying(c.phases[n].offset, |keys| < DB_CHUNK_SIZE, info, info, NoCursor));
  }

  lemma PickedIsOk(cfg: Config, c: Cluster, n: NodeId, key: string)
    requires Inv(cfg, c) && Enabled(cfg, c, PickCopy(n, key))
    ensures Inv(cfg, Next(cfg, c, PickCopy(n, key))) && Evolves(cfg, c, Next(cfg, c, PickCopy(n, key)))
  {
    var p, rows := c.phases[n], c.stores[n].rows;
    assert PhaseOk(cfg, c, n, p);
    HashesOfMembers(rows, key);
    var hash :| Has(c, n, key, hash);
    var cur := Cursor(key, HashesOf(rows, key), NoWait, false);
    assert hash in cur.rest;
    assert CursorOk(cfg, c, n, cur);
    PhaseChange(cfg, c, n, p.(todo := p.todo - {key}, cursor := cur));
  }

  lemma SentIsOk(cfg: Config, c: Cluster, n: NodeId, to: NodeId)
    requires Inv(cfg, c) && Enabled(cfg, c, SendHash(n, to))
    ensures Inv(cfg, Next(cfg, c, SendHash(n, to))) && Evolves(cfg, c, Next(cfg, c, SendHash(n, to)))
  {
    var p := c.phases[n];
    var cur := p.cursor;
    var save := Save(to, cur.key, cur.rest[0], c.stores[n].files[MakePathFromHash(cur.rest[0])], false, Started);
    var next := cur.(rest := cur.rest[1..], wait := WaitFor(cur.rest[0], |c.saves|));
    var d := WithSave(c, save);
    NewSave(cfg, c, save);
    SentPhaseIsOk(cfg, c, n, p, save, next);
    PhaseChange(cfg, d, n, p.(cursor := next));
    assert Next(cfg, c, SendHash(n, to)) == WithPhase(d, n, p.(cursor := next));
    SameStoresEvolve(cfg, c, Next(cfg, c, SendHash(n, to)));
  }

  /** The hash that was sent is awaited from then on. */
  lemma SentPhaseIsOk(cfg: Config, c: Cluster, n: NodeId, p: Phase, save: Save, next: Cursor)
    requires Inv(cfg, c) && n in c.stores && PhaseOk(cfg, c, n, p) && p.Copying? && p.cursor.Cursor?
    requires p.cursor.rest != [] && p.cursor.wait.NoWait? && save.status.Started?
    requires save.key == p.cursor.key && save.hash == p.cursor.rest[0]
    requires next == p.cursor.(rest := p.cursor.rest[1..], wait := WaitFor(p.cursor.rest[0], |c.saves|))
    ensures PhaseOk(cfg, WithSave(c, save), n, p.(cursor := next))
  {
    var cur, d := p.cursor, WithSave(c, save);
    SameStoresEvolve(cfg, c, d);
    CursorStays(cfg, c, d, n, cur);
    PhaseStays(cfg, c, d, n, p);
    assert forall h :: h in cur.rest <==> h == cur.rest[0] || h in cur.rest[1..];
    assert CursorOk(cfg, d, n, next);
  }

  lemma ConfirmedIsOk(cfg: Config, c: Cluster, n: NodeId)
    requires Inv(cfg, c) && Enabled(cfg, c, Confirm(n))
    ensures Inv(cfg, Next(cfg, c, Confirm(n))) && Evolves(cfg, c, Next(cfg, c, Confirm(n)))
  {
    var p := c.phases[n];
    var cur := p.cursor;
    assert PhaseOk(cfg, c, n, p) && CursorOk(cfg, c, n, cur) && WaitOk(c, n, cur.key, cur.wait);
    var s := c.saves[cur.wait.id];
    assert SaveOk(cfg, c, s) && s.at != n;
    assert Landed(cfg, c, cur.key, cur.wait.hash) by {
      assert cfg.topo.Home(s.key, s.at) && Has(c, s.at, s.key, s.hash);
    }
    var next := cur.(wait := NoWait, accepted := true);
    assert CursorOk(cfg, c, n, next);
    PhaseChange(cfg, c, n, p.(cursor := next));
  }

  lemma FinishedIsOk(cfg: Config, c: Cluster, n: NodeId)
    requires Inv(cfg, c) && Enabled(cfg, c, FinishCopy(n))
    ensures Inv(cfg, Next(cfg, c, FinishCopy(n))) && Evolves(cfg, c, Next(cfg, c, FinishCopy(n)))
  {
    var p := c.phases[n];
    assert PhaseOk(cfg, c, n, p) && CursorOk(cfg, c, n, p.cursor);
    assert Cleared(cfg, c, n, p.cursor.key);
    PhaseChange(cfg, c, n, p.(cursor := NoCursor));
  }

  lemma StartedIsOk(cfg: Config, c: Cluster, n: NodeId)
    requires Inv(cfg, c) && Enabled(cfg, c, StartRemoving(n))
    ensures Inv(cfg, Next(cfg, c, StartRemoving(n))) && Evolves(cfg, c, Next(cfg, c, StartRemoving(n)))
  {
    var p := c.phases[n];
    assert PhaseOk(cfg, c, n, p);
    PhaseChange(cfg, c, n, Removing(p.offset, p.last, p.info, NoDrop));
  }

  lemma PickedRemovalIsOk(cfg: Config, c: Cluster, n: NodeId, key: string)
    requires Inv(cfg, c) && Enabled(cfg, c, PickRemoval(n, key))
    ensures Inv(cfg, Next(cfg, c, PickRemoval(n, key))) && Evolves(cfg, c, Next(cfg, c, PickRemoval(n, key)))
  {
    var p := c.phases[n];
    assert PhaseOk(cfg, c, n, p);
    HashesOfMembers(c.stores[n].rows, key);
    PhaseChange(cfg, c, n, p.(todo := p.todo - {key}, drop := Drop(key, HashesOf(c.stores[n].rows, key))));
  }

  // ---------------------------------------------------------------- the steps that change a store

  /** Removing a file of a cleared key: the file is not one that settles its hash. */
  lemma DeletedFileIsOk(cfg: Config, c: Cluster, n: NodeId)
    requires Inv(cfg, c) && Enabled(cfg, c, DeleteFile(n))
    ensures Inv(cfg, Next(cfg, c, DeleteFile(n))) && Evolves(cfg, c, Next(cfg, c, DeleteFile(n)))
  {
    var p := c.phases[n];
    var drop := p.drop;
    var gone, d := drop.rest[0], Next(cfg, c, DeleteFile(n));
    assert PhaseOk(cfg, c, n, p) && NodeOk(cfg, c, n) && Has(c, n, drop.key, gone);
    FileEvolves(cfg, c, d, n, drop.key, gone);
    ShorterDropIsOk(cfg, c, n, p);
    PhaseStays(cfg, c, d, n, p.(drop := drop.(rest := drop.rest[1..])));
    Assemble(cfg, c, d);
  }

  lemma ShorterDropIsOk(cfg: Config, c: Cluster, n: NodeId, p: Phase)
    requires PhaseOk(cfg, c, n, p) && p.Removing? && p.drop.Drop? && p.drop.rest != []
    ensures PhaseOk(cfg, c, n, p.(drop := p.drop.(rest := p.drop.rest[1..])))
  {
    assert forall h :: h in p.drop.rest[1..] ==> h in p.drop.rest;
  }

  lemma FileEvolves(cfg: Config, c: Cluster, d: Cluster, n: NodeId, key: string, gone: Hash)
    requires n in c.stores && NodeOk(cfg, c, n) && Cleared(cfg, c, n, key) && Has(c, n, key, gone)
    requires HasFile(c, n, gone) && d.saves == c.saves
    requires d.stores == c.stores[n := RemoveByHash(c.stores[n], gone).0]
    ensures Evolves(cfg, c, d)
    ensures forall m :: RowsKept(c, d, m)
    ensures forall m, k, hash :: Has(d, m, k, hash) ==> Has(c, m, k, hash)
  {
    assert d.stores[n].rows == c.stores[n].rows;
    forall m, k, hash | SettledAt(cfg, c, m, k, hash) ensures SettledAt(cfg, d, m, k, hash) {
      if m == n {
        PathsAreInjective(hash, gone);
        if hash == gone {
          UniqueRow(c.stores[n].rows, Row(k, hash), Row(key, gone));
        }
      }
    }
    SettledEverywhere(cfg, c, d);
    assert Settled(cfg, d, gone) by { assert Landed(cfg, c, key, gone); }
    forall m, hash | HasFile(c, m, hash) && hash != gone ensures HasFile(d, m, hash) {
      PathsAreInjective(hash, gone);
    }
  }

  /** Deleting the rows of a cleared key: none of them is at its home. */
  lemma DeletedRowsAreOk(cfg: Config, c: Cluster, n: NodeId)
    requires Inv(cfg, c) && Enabled(cfg, c, DeleteRows(n))
    ensures Inv(cfg, Next(cfg, c, DeleteRows(n))) && Evolves(cfg, c, Next(cfg, c, DeleteRows(n)))
  {
    var p := c.phases[n];
    var d, key := Next(cfg, c, DeleteRows(n)), p.drop.key;
    assert PhaseOk(cfg, c, n, p) && NodeOk(cfg, c, n) && Cleared(cfg, c, n, key);
    RowsEvolve(cfg, c, d, n, key);
    forall k | k in p.todo ensures Cleared(cfg, d, n, k) { ClearedStays(cfg, c, d, n, k); }
    Assemble(cfg, c, d);
  }

  lemma RowsEvolve(cfg: Config, c: Cluster, d: Cluster, n: NodeId, key: string)
    requires n in c.stores && UniqueHashes(c.stores[n].rows) && !cfg.topo.Home(key, n)
    requires d.saves == c.saves
    requires d.stores == c.stores[n := c.stores[n].(rows := Without(c.stores[n].rows, key))]
    ensures Evolves(cfg, c, d) && UniqueHashes(d.stores[n].rows)
    ensures forall m :: m != n ==> RowsKept(c, d, m)
    ensures forall m, k, hash :: Has(d, m, k, hash) ==> Has(c, m, k, hash)
  {
    WithoutMembers(c.stores[n].rows, key);
    SettledEverywhere(cfg, c, d);
  }

  lemma WrittenIsOk(cfg: Config, c: Cluster, id: nat)
    requires Inv(cfg, c) && Enabled(cfg, c, WriteSave(id))
    ensures Inv(cfg, Next(cfg, c, WriteSave(id))) && Evolves(cfg, c, Next(cfg, c, WriteSave(id)))
  {
    var s := c.saves[id];
    assert SaveOk(cfg, c, s) && c.saves[id] in c.saves;
    var m, status := WriteParts(c, id);
    FilesAdded(cfg, c, m, s.at);
    StatusChange(cfg, m, id, status);
    EvolvesTwice(cfg, c, m, WithStatus(m, id, status));
  }

  /** A write first changes the files of a node, and then the status of the save. */
  lemma WriteParts(c: Cluster, id: nat) returns (m: Cluster, status: Status)
    requires id < |c.saves| && c.saves[id].at in c.stores
    ensures var s := c.saves[id];
      && s.at in m.stores && m == c.(stores := c.stores[s.at := m.stores[s.at]])
      && m.stores[s.at].rows == c.stores[s.at].rows && c.stores[s.at].files.Keys <= m.stores[s.at].files.Keys
      && AfterWrite(c, id) == WithStatus(m, id, status)
      && (status.Refused? || (status.Written? && HasFile(m, s.at, s.hash)))
  {
    var d := AfterWrite(c, id);
    m, status := c.(stores := d.stores), d.saves[id].status;
  }

  /** Folders and files may come to a node, and files may change, without harm. */
  lemma FilesAdded(cfg: Config, c: Cluster, m: Cluster, n: NodeId)
    requires Inv(cfg, c) && n in c.stores && n in m.stores && m == c.(stores := c.stores[n := m.stores[n]])
    requires m.stores[n].rows == c.stores[n].rows && c.stores[n].files.Keys <= m.stores[n].files.Keys
    ensures Inv(cfg, m) && Evolves(cfg, c, m)
  {
    SettledEverywhere(cfg, c, m);
    assert Evolves(cfg, c, m);
    forall k | k in m.stores ensures UniqueHashes(m.stores[k].rows) {
      assert NodeOk(cfg, c, k);
    }
    Assemble(cfg, c, m);
  }

  lemma EvolvesTwice(cfg: Config, c: Cluster, m: Cluster, d: Cluster)
    requires Evolves(cfg, c, m) && Evolves(cfg, m, d) && m.saves == c.saves && m.stores == d.stores
    requires forall i :: 0 <= i < |c.saves| ==> SaveEvolves(c, c.saves[i], d.saves[i])
    ensures Evolves(cfg, c, d)
  {
  }

  /** An accepted save settles its hash: here if the file is still there, elsewhere if it is gone again. */
  lemma IndexedIsOk(cfg: Config, c: Cluster, id: nat)
    requires Inv(cfg, c) && Enabled(cfg, c, IndexSave(id))
    ensures Inv(cfg, Next(cfg, c, IndexSave(id))) && Evolves(cfg, c, Next(cfg, c, IndexSave(id)))
  {
    var s := c.saves[id];
    assert SaveOk(cfg, c, s) && NodeOk(cfg, c, s.at);
    var added := AddRow(c.stores[s.at], s.key, s.hash);
    if added.1.Err? {
      StatusChange(cfg, c, id, Refused);
    } else {
      RowAdded(cfg, c, Next(cfg, c, IndexSave(id)), id);
    }
  }

  lemma RowAdded(cfg: Config, c: Cluster, d: Cluster, id: nat)
    requires Inv(cfg, c) && Enabled(cfg, c, IndexSave(id)) && d == Next(cfg, c, IndexSave(id))
    requires AddRow(c.stores[c.saves[id].at], c.saves[id].key, c.saves[id].hash).1.Ok?
    ensures Inv(cfg, d) && Evolves(cfg, c, d)
  {
    var s := c.saves[id];
    assert SaveOk(cfg, c, s);
    RowEvolves(cfg, c, d, id);
    StatusKeepsWellFormed(c, id, Accepted);
    assert NodeOk(cfg, c, s.at);
    AppendedIsUnique(c.stores[s.at].rows, Row(s.key, s.hash));
    RowsStayUnique(cfg, c, d, s.at);
    assert SaveOk(cfg, d, d.saves[id]);
    Assemble(cfg, c, d);
  }

  lemma RowsStayUnique(cfg: Config, c: Cluster, d: Cluster, n: NodeId)
    requires Inv(cfg, c) && n in c.stores && n in d.stores && d.stores == c.stores[n := d.stores[n]]
    requires UniqueHashes(d.stores[n].rows)
    ensures forall m :: m in d.stores ==> UniqueHashes(d.stores[m].rows)
  {
    forall m | m in d.stores ensures UniqueHashes(d.stores[m].rows) {
      assert m != n ==> NodeOk(cfg, c, m);
    }
  }

  lemma RowEvolves(cfg: Config, c: Cluster, d: Cluster, id: nat)
    requires id < |c.saves| && SaveOk(cfg, c, c.saves[id]) && c.saves[id].status.Written?
    requires var s := c.saves[id];
      && !Indexed(c.stores[s.at].rows, s.hash)
      && d.stores == c.stores[s.at := c.stores[s.at].(rows := c.stores[s.at].rows + [Row(s.key, s.hash)])]
      && d.saves == c.saves[id := s.(status := Accepted)]
    ensures Evolves(cfg, c, d) && Settled(cfg, d, c.saves[id].hash)
    ensures forall n :: RowsKept(c, d, n)
    ensures forall n, key, hash :: Has(d, n, key, hash) <==>
      Has(c, n, key, hash) || (n == c.saves[id].at && key == c.saves[id].key && hash == c.saves[id].hash)
  {
    var s := c.saves[id];
    assert d.stores[s.at].rows == c.stores[s.at].rows + [Row(s.key, s.hash)];
    SettledEverywhere(cfg, c, d);
    if HasFile(c, s.at, s.hash) {
      assert SettledAt(cfg, d, s.at, s.key, s.hash);
    }
  }

  lemma AppendedIsUnique(rows: seq<Row>, r: Row)
    requires UniqueHashes(rows) && !Indexed(rows, r.hash)
    ensures UniqueHashes(rows + [r])
  {
    forall i | 0 <= i < |rows| ensures rows[i].hash != r.hash {
      assert rows[i] in rows;
    }
  }

  // ---------------------------------------------------------------- every step, every run

  predicate OfCopying(s: Step) {
    s.ReadPage? || s.PickCopy? || s.SendHash? || s.Confirm? || s.FinishCopy?
  }

  lemma CopyingKeepsInv(cfg: Config, c: Cluster, s: Step)
    requires Inv(cfg, c) && Enabled(cfg, c, s) && OfCopying(s)
    ensures Inv(cfg, Next(cfg, c, s)) && Evolves(cfg, c, Next(cfg, c, s))
  {
    match s
    case ReadPage(n) => PageIsOk(cfg, c, n);
    case PickCopy(n, key) => PickedIsOk(cfg, c, n, key);
    case SendHash(n, to) => SentIsOk(cfg, c, n, to);
    case Confirm(n) => ConfirmedIsOk(cfg, c, n);
    case FinishCopy(n) => FinishedIsOk(cfg, c, n);
  }

  predicate OfPaging(s: Step) {
    s.Signal? || s.StartRemoving? || s.PickRemoval? || s.NextPage? || s.Abort?
  }

  lemma PagingKeepsInv(cfg: Config, c: Cluster, s: Step)
    requires Inv(cfg, c) && Enabled(cfg, c, s) && OfPaging(s)
    ensures Inv(cfg, Next(cfg, c, s)) && Evolves(cfg, c, Next(cfg, c, s))
  {
    match s
    case Signal(n) => PhaseChange(cfg, c, n, Paging(0));
    case StartRemoving(n) => StartedIsOk(cfg, c, n);
    case PickRemoval(n, key) => PickedRemovalIsOk(cfg, c, n, key);
    case NextPage(n) => PagedIsOk(cfg, c, n);
    case Abort(n) => PhaseChange(cfg, c, n, Resting);
  }

  lemma PagedIsOk(cfg: Config, c: Cluster, n: NodeId)
    requires Inv(cfg, c) && Enabled(cfg, c, NextPage(n))
    ensures Inv(cfg, Next(cfg, c, NextPage(n))) && Evolves(cfg, c, Next(cfg, c, NextPage(n)))
  {
    var next := if c.phases[n].last then Resting else Paging(c.phases[n].offset + DB_CHUNK_SIZE);
    assert Next(cfg, c, NextPage(n)) == WithPhase(c, n, next);
    PhaseChange(cfg, c, n, next);
  }

  lemma ArrivalKeepsInv(cfg: Config, c: Cluster, s: Step)
    requires Inv(cfg, c) && Enabled(cfg, c, s) && (s.RawArrives? || s.PackedArrives? || s.ReplicaArrives?)
    ensures Inv(cfg, Next(cfg, c, s)) && Evolves(cfg, c, Next(cfg, c, s))
  {
    match s
    case RawArrives(at, key, path, data) =>
      var raw := PrepareRawFile(path, data);
      NewSave(cfg, c, Save(at, key, cfg.codec.digest(raw), cfg.codec.pack(raw), true, Started));
    case PackedArrives(at, key, hash, bytes) => NewSave(cfg, c, Save(at, key, hash, bytes, false, Started));
    case ReplicaArrives(at, key, hash, from) =>
      NewSave(cfg, c, Save(at, key, hash, c.stores[from].files[MakePathFromHash(hash)], false, Started));
  }

  /** Every step keeps the invariant, whichever nodes it comes from. */
  lemma StepKeepsInv(cfg: Config, c: Cluster, s: Step)
    requires Inv(cfg, c) && Enabled(cfg, c, s)
    ensures Inv(cfg, Next(cfg, c, s)) && Evolves(cfg, c, Next(cfg, c, s))
  {
    if OfCopying(s) {
      CopyingKeepsInv(cfg, c, s);
    } else if OfPaging(s) {
      PagingKeepsInv(cfg, c, s);
    } else if s.RawArrives? || s.PackedArrives? || s.ReplicaArrives? {
      ArrivalKeepsInv(cfg, c, s);
    } else {
      match s
      case DeleteFile(n) => DeletedFileIsOk(cfg, c, n);
      case DeleteRows(n) => DeletedRowsAreOk(cfg, c, n);
      case WriteSave(id) => WrittenIsOk(cfg, c, id);
      case IndexSave(id) => IndexedIsOk(cfg, c, id);
      case FailSave(id) =>
        assert SaveOk(cfg, c, c.saves[id]);
        StatusChange(cfg, c, id, Refused);
    }
  }

  /** `key` has `hash` on some node. */
  ghost predicate Held(c: Cluster, key: string, hash: Hash) {
    exists n :: Has(c, n, key, hash)
  }

  /** A row leaves a node only after it has reached its home. */
  lemma StepKeepsRows(cfg: Config, c: Cluster, s: Step, key: string, hash: Hash)
    requires Inv(cfg, c) && Enabled(cfg, c, s) && Held(c, key, hash)
    ensures Held(Next(cfg, c, s), key, hash)
  {
    var d := Next(cfg, c, s);
    var n :| Has(c, n, key, hash);
    StepKeepsInv(cfg, c, s);
    if s.DeleteRows? && s.n == n {
      var gone := c.phases[n].drop.key;
      assert PhaseOk(cfg, c, n, c.phases[n]) && Cleared(cfg, c, n, gone);
      WithoutMembers(c.stores[n].rows, gone);
      if key == gone {
        assert Landed(cfg, c, key, hash);
        var home :| cfg.topo.Home(key, home) && Has(c, home, key, hash);
        assert Has(d, home, key, hash);
      } else {
        assert Has(d, n, key, hash);
      }
    } else {
      OnlyDeletionsDropRows(cfg, c, s, n, key, hash);
    }
  }

  lemma OnlyDeletionsDropRows(cfg: Config, c: Cluster, s: Step, n: NodeId, key: string, hash: Hash)
    requires Enabled(cfg, c, s) && Has(c, n, key, hash) && !(s.DeleteRows? && s.n == n)
    ensures Has(Next(cfg, c, s), n, key, hash)
  {
  }

  lemma {:induction false} RunKeepsInv(cfg: Config, trace: seq<Cluster>, steps: seq<Step>, k: nat)
    requires IsRun(cfg, trace, steps) && Inv(cfg, trace[0]) && k <= |steps|
    ensures Inv(cfg, trace[k])
    decreases k
  {
    if k > 0 {
      RunKeepsInv(cfg, trace, steps, k - 1);
      assert StepAt(cfg, trace, steps, k - 1);
      StepKeepsInv(cfg, trace[k - 1], steps[k - 1]);
    }
  }

  lemma {:induction false} RunKeepsRows(cfg: Config, trace: seq<Cluster>, steps: seq<Step>, i: nat, j: nat, key: string,
                                        hash: Hash)
    requires IsRun(cfg, trace, steps) && Inv(cfg, trace[0]) && i <= j <= |steps|
    requires Held(trace[i], key, hash)
    ensures Held(trace[j], key, hash)
    decreases j
  {
    if i < j {
      RunKeepsRows(cfg, trace, steps, i, j - 1, key, hash);
      RunKeepsInv(cfg, trace, steps, j - 1);
      assert StepAt(cfg, trace, steps, j - 1);
      StepKeepsRows(cfg, trace[j - 1], steps[j - 1], key, hash);
    }
  }

  // ---------------------------------------------------------------- content integrity

  /** Every stored and every travelling file is what its name says. */
  ghost predicate Intact(cfg: Config, c: Cluster) {
    && (forall n, hash :: HasFile(c, n, hash) ==> Genuine(cfg.codec, hash, c.stores[n].files[MakePathFromHash(hash)]))
    && forall i :: 0 <= i < |c.saves| ==> Genuine(cfg.codec, c.saves[i].hash, c.saves[i].bytes)
  }

  /** Raw saves, uploads, rebase transfers, replication transfers and removals all keep content and name
      together. */
  lemma StepKeepsIntact(cfg: Config, c: Cluster, s: Step)
    requires RoundTrips(cfg.codec) && Intact(cfg, c) && Enabled(cfg, c, s)
    ensures Intact(cfg, Next(cfg, c, s))
  {
    if s.RawArrives? || s.PackedArrives? || s.ReplicaArrives? || s.SendHash? {
      ArrivalIsIntact(cfg, c, s);
    } else if s.DeleteFile? {
      DeletionIsIntact(cfg, c, s.n);
    } else if s.WriteSave? {
      WriteIsIntact(cfg, c, s.id);
    } else {
      SameFilesIntact(cfg, c, Next(cfg, c, s));
    }
  }

  lemma SameFilesIntact(cfg: Config, c: Cluster, d: Cluster)
    requires Intact(cfg, c) && d.stores.Keys == c.stores.Keys && |d.saves| == |c.saves|
    requires forall n :: n in c.stores ==> d.stores[n].files == c.stores[n].files
    requires forall i :: 0 <= i < |c.saves| ==> d.saves[i] == c.saves[i].(status := d.saves[i].status)
    ensures Intact(cfg, d)
  {
    forall n, hash | HasFile(d, n, hash) ensures Genuine(cfg.codec, hash, d.stores[n].files[MakePathFromHash(hash)]) {
      assert HasFile(c, n, hash);
    }
  }

  lemma ArrivalIsIntact(cfg: Config, c: Cluster, s: Step)
    requires RoundTrips(cfg.codec) && Intact(cfg, c) && Enabled(cfg, c, s)
    requires s.RawArrives? || s.PackedArrives? || s.ReplicaArrives? || s.SendHash?
    ensures Intact(cfg, Next(cfg, c, s))
  {
    match s {
      case RawArrives(at, key, path, data) =>
        assert cfg.codec.unpack(cfg.codec.pack(PrepareRawFile(path, data))) == Ok(PrepareRawFile(path, data));
      case PackedArrives(at, key, hash, bytes) =>
      case ReplicaArrives(at, key, hash, from) => assert HasFile(c, from, hash);
      case SendHash(n, to) => assert HasFile(c, n, c.phases[n].cursor.rest[0]);
    }
    var d := Next(cfg, c, s);
    forall n, hash | HasFile(d, n, hash) ensures Genuine(cfg.codec, hash, d.stores[n].files[MakePathFromHash(hash)]) {
      assert HasFile(c, n, hash);
    }
  }

  lemma DeletionIsIntact(cfg: Config, c: Cluster, n: NodeId)
    requires Intact(cfg, c) && Enabled(cfg, c, DeleteFile(n))
    ensures Intact(cfg, Next(cfg, c, DeleteFile(n)))
  {
    FilesOnlyGo(c, n, c.phases[n].drop.rest[0]);
    var d := Next(cfg, c, DeleteFile(n));
    forall m, hash | HasFile(d, m, hash) ensures Genuine(cfg.codec, hash, d.stores[m].files[MakePathFromHash(hash)]) {
      assert HasFile(c, m, hash);
    }
  }

  lemma FilesOnlyGo(c: Cluster, n: NodeId, gone: Hash)
    requires n in c.stores
    ensures var after := RemoveByHash(c.stores[n], gone).0;
      forall p :: p in after.files ==> p in c.stores[n].files && after.files[p] == c.stores[n].files[p]
  {
  }

  lemma WriteIsIntact(cfg: Config, c: Cluster, id: nat)
    requires Intact(cfg, c) && Enabled(cfg, c, WriteSave(id))
    ensures Intact(cfg, AfterWrite(c, id))
  {
    var s, d := c.saves[id], AfterWrite(c, id);
    forall n, hash | HasFile(d, n, hash) ensures Genuine(cfg.codec, hash, d.stores[n].files[MakePathFromHash(hash)]) {
      PathsAreInjective(hash, s.hash);
      if d.stores[n] == c.stores[n] || hash != s.hash { assert HasFile(c, n, hash); }
    }
  }

  lemma {:induction false} RunKeepsIntact(cfg: Config, trace: seq<Cluster>, steps: seq<Step>, k: nat)
    requires RoundTrips(cfg.codec) && IsRun(cfg, trace, steps) && Intact(cfg, trace[0]) && k <= |steps|
    ensures Intact(cfg, trace[k])
    decreases k
  {
    if k > 0 {
      RunKeepsIntact(cfg, trace, steps, k - 1);
      assert StepAt(cfg, trace, steps, k - 1);
      StepKeepsIntact(cfg, trace[k - 1], steps[k - 1]);
    }
  }

  // ---------------------------------------------------------------- the main results

  /** Some node indexes `hash` and has a file for it that unpacks to data with that digest. */
  ghost predicate Retrievable(cfg: Config, c: Cluster, hash: Hash) {
    exists n, key ::
      Has(c, n, key, hash) && HasFile(c, n, hash) && Genuine(cfg.codec, hash, c.stores[n].files[MakePathFromHash(hash)])
  }

  /** No loss: from a cluster at rest, under every interleaving and every abort, a row that any node ever had
      stays indexed somewhere under its key, and its hash stays retrievable with its content. */
  lemma NothingIsEverLost(cfg: Config, trace: seq<Cluster>, steps: seq<Step>, i: nat, j: nat, n: NodeId, r: Row)
    requires RoundTrips(cfg.codec) && IsRun(cfg, trace, steps) && AtRest(trace[0]) && Intact(cfg, trace[0])
    requires i <= j <= |steps| && n in trace[i].stores && r in trace[i].stores[n].rows
    ensures Held(trace[j], r.key, r.hash) && Retrievable(cfg, trace[j], r.hash)
  {
    RestIsSafe(cfg, trace[0]);
    assert Has(trace[i], n, r.key, r.hash);
    RunKeepsRows(cfg, trace, steps, i, j, r.key, r.hash);
    RunKeepsInv(cfg, trace, steps, j);
    RunKeepsIntact(cfg, trace, steps, j);
    HeldIsRetrievable(cfg, trace[j], r.key, r.hash);
  }

  /** The same for what a client does: after any run from rest, whatever a node performs, a row that any node
      had is still indexed, and its hash retrievable. */
  lemma WhatANodePerformsLosesNothing(cfg: Config, first: Cluster, c: Cluster, n: NodeId, phase: Phase, after: Stores,
                                      next: Phase, at: NodeId, r: Row) returns (d: Cluster)
    requires RoundTrips(cfg.codec) && AtRest(first) && Intact(cfg, first) && Reaches(cfg, first, c)
    requires Tracks(c, c.stores, n, phase) && Performs(cfg, n, c.stores, phase, after, next)
    requires at in c.stores && r in c.stores[at].rows
    ensures Reaches(cfg, first, d) && Gets(cfg, c, d, n) && Tracks(d, after, n, next)
    ensures Held(d, r.key, r.hash) && Retrievable(cfg, d, r.hash)
  {
    d :| Gets(cfg, c, d, n) && Tracks(d, after, n, next);
    ReachesTransitive(cfg, first, c, d);
    NothingIsLostBetween(cfg, first, c, d, at, r);
  }

  lemma NothingIsLostBetween(cfg: Config, first: Cluster, c: Cluster, d: Cluster, at: NodeId, r: Row)
    requires RoundTrips(cfg.codec) && AtRest(first) && Intact(cfg, first) && Reaches(cfg, first, c)
    requires Reaches(cfg, c, d)
    requires at in c.stores && r in c.stores[at].rows
    ensures Held(d, r.key, r.hash) && Retrievable(cfg, d, r.hash)
  {
    var head, steps :| IsRun(cfg, head, steps) && head[0] == first && head[|steps|] == c;
    var tail, more :| IsRun(cfg, tail, more) && tail[0] == c && tail[|more|] == d;
    JoinedRun(cfg, head, steps, tail, more);
    var trace := head + tail[1..];
    assert trace[0] == first && trace[|steps|] == c && trace[|steps + more|] == d;
    NothingIsEverLost(cfg, trace, steps + more, |steps|, |steps + more|, at, r);
  }

  lemma HeldIsRetrievable(cfg: Config, c: Cluster, key: string, hash: Hash)
    requires Inv(cfg, c) && Intact(cfg, c) && Held(c, key, hash)
    ensures Retrievable(cfg, c, hash)
  {
    var n :| Has(c, n, key, hash);
    assert NodeOk(cfg, c, n);
    if HasFile(c, n, hash) {
      assert Genuine(cfg.codec, hash, c.stores[n].files[MakePathFromHash(hash)]);
    } else {
      var m, k :| SettledAt(cfg, c, m, k, hash);
      assert Genuine(cfg.codec, hash, c.stores[m].files[MakePathFromHash(hash)]);
    }
  }

  /** An accepted save is durable: its row is at its home for ever, and its hash is settled. */
  lemma AcceptedSavesAreDurable(cfg: Config, trace: seq<Cluster>, steps: seq<Step>, j: nat, id: nat)
    requires IsRun(cfg, trace, steps) && AtRest(trace[0]) && j <= |steps|
    requires id < |trace[j].saves| && trace[j].saves[id].status.Accepted?
    ensures var s := trace[j].saves[id];
      Has(trace[j], s.at, s.key, s.hash) && cfg.topo.Home(s.key, s.at) && Settled(cfg, trace[j], s.hash)
  {
    RestIsSafe(cfg, trace[0]);
    RunKeepsInv(cfg, trace, steps, j);
    assert SaveOk(cfg, trace[j], trace[j].saves[id]);
  }

  // ---------------------------------------------------------------- accepted saves keep their file

  /** A rebase of `n` never removes this key: it belongs here, or is not misplaced as far as `n` can tell. */
  ghost predicate Stays(cfg: Config, n: NodeId, key: string) {
    cfg.topo.Home(key, n) || !cfg.topo.Misplaced(n, key)
  }

  /** The file is there, and no rebase of the node will ever remove it, whichever key it has this content under. */
  ghost predicate Sheltered(cfg: Config, c: Cluster, n: NodeId, hash: Hash) {
    HasFile(c, n, hash) && forall key :: Has(c, n, key, hash) ==> Stays(cfg, n, key)
  }

  lemma StepKeepsSheltered(cfg: Config, c: Cluster, s: Step, n: NodeId, hash: Hash)
    requires Inv(cfg, c) && Enabled(cfg, c, s) && Sheltered(cfg, c, n, hash)
    ensures Sheltered(cfg, Next(cfg, c, s), n, hash)
  {
    StepKeepsInv(cfg, c, s);
    if s.DeleteFile? && s.n == n {
      RemovalsSpareSheltered(cfg, c, n, hash);
    } else {
      OnlyRemovalsDropFiles(cfg, c, s, n, hash);
    }
    forall key | Has(Next(cfg, c, s), n, key, hash) ensures Stays(cfg, n, key) {
      assert Has(c, n, key, hash) || cfg.topo.Home(key, n);
    }
  }

  lemma RemovalsSpareSheltered(cfg: Config, c: Cluster, n: NodeId, hash: Hash)
    requires Inv(cfg, c) && Enabled(cfg, c, DeleteFile(n)) && Sheltered(cfg, c, n, hash)
    ensures HasFile(Next(cfg, c, DeleteFile(n)), n, hash)
  {
    var drop := c.phases[n].drop;
    assert PhaseOk(cfg, c, n, c.phases[n]) && Cleared(cfg, c, n, drop.key) && Has(c, n, drop.key, drop.rest[0]);
    PathsAreInjective(hash, drop.rest[0]);
  }

  lemma OnlyRemovalsDropFiles(cfg: Config, c: Cluster, s: Step, n: NodeId, hash: Hash)
    requires Enabled(cfg, c, s) && HasFile(c, n, hash) && !(s.DeleteFile? && s.n == n)
    ensures HasFile(Next(cfg, c, s), n, hash)
  {
  }

  lemma {:induction false} RunKeepsSheltered(cfg: Config, trace: seq<Cluster>, steps: seq<Step>, k: nat, n: NodeId,
                                             hash: Hash)
    requires IsRun(cfg, trace, steps) && Inv(cfg, trace[0]) && k <= |steps| && Sheltered(cfg, trace[0], n, hash)
    ensures Sheltered(cfg, trace[k], n, hash)
    decreases k
  {
    if k > 0 {
      RunKeepsSheltered(cfg, trace, steps, k - 1, n, hash);
      RunKeepsInv(cfg, trace, steps, k - 1);
      assert StepAt(cfg, trace, steps, k - 1);
      StepKeepsSheltered(cfg, trace[k - 1], steps[k - 1], n, hash);
    }
  }

  lemma RestReaches(cfg: Config, first: Cluster, c: Cluster)
    requires AtRest(first) && Reaches(cfg, first, c)
    ensures Inv(cfg, c)
  {
    RestIsSafe(cfg, first);
    var trace, steps :| IsRun(cfg, trace, steps) && trace[0] == first && trace[|steps|] == c;
    RunKeepsInv(cfg, trace, steps, |steps|);
  }

  lemma WriteShelters(cfg: Config, c: Cluster, id: nat)
    requires Inv(cfg, c) && Enabled(cfg, c, WriteSave(id))
    requires forall key :: Has(c, c.saves[id].at, key, c.saves[id].hash) ==> Stays(cfg, c.saves[id].at, key)
    ensures Sheltered(cfg, Next(cfg, c, WriteSave(id)), c.saves[id].at, c.saves[id].hash)
  {
    assert c.saves[id] in c.saves;
    StepKeepsInv(cfg, c, WriteSave(id));
  }

  lemma {:induction false} RunKeepsSave(cfg: Config, trace: seq<Cluster>, steps: seq<Step>, k: nat, id: nat)
    requires IsRun(cfg, trace, steps) && Inv(cfg, trace[0]) && k <= |steps| && id < |trace[0].saves|
    ensures id < |trace[k].saves| && trace[k].saves[id] == trace[0].saves[id].(status := trace[k].saves[id].status)
    decreases k
  {
    if k > 0 {
      RunKeepsSave(cfg, trace, steps, k - 1, id);
      RunKeepsInv(cfg, trace, steps, k - 1);
      assert StepAt(cfg, trace, steps, k - 1);
      StepKeepsInv(cfg, trace[k - 1], steps[k - 1]);
      assert SaveEvolves(trace[k - 1], trace[k - 1].saves[id], trace[k].saves[id]);
    }
  }

  /** If a node has the content, when a save writes its file, under no key that a rebase would take away, then
      in every continuation the save, once accepted, can be read there. */
  lemma ShelteredSaveIsReadable(cfg: Config, first: Cluster, c: Cluster, id: nat, d: Cluster)
    requires AtRest(first) && Reaches(cfg, first, c) && Enabled(cfg, c, WriteSave(id))
    requires forall key :: Has(c, c.saves[id].at, key, c.saves[id].hash) ==> Stays(cfg, c.saves[id].at, key)
    requires Reaches(cfg, Next(cfg, c, WriteSave(id)), d) && id < |d.saves| && d.saves[id].status.Accepted?
    ensures SettledAt(cfg, d, c.saves[id].at, c.saves[id].key, c.saves[id].hash)
  {
    var written := Next(cfg, c, WriteSave(id));
    RestReaches(cfg, first, c);
    StepKeepsInv(cfg, c, WriteSave(id));
    WriteShelters(cfg, c, id);
    assert SaveEvolves(c, c.saves[id], written.saves[id]);
    var trace, steps :| IsRun(cfg, trace, steps) && trace[0] == written && trace[|steps|] == d;
    RunKeepsSheltered(cfg, trace, steps, |steps|, c.saves[id].at, c.saves[id].hash);
    RunKeepsSave(cfg, trace, steps, |steps|, id);
    RunKeepsInv(cfg, trace, steps, |steps|);
    assert SaveOk(cfg, d, d.saves[id]);
  }

  /** What can be read at its home once can be read there for ever. */
  lemma {:induction false} ReadableForEver(cfg: Config, trace: seq<Cluster>, steps: seq<Step>, i: nat, j: nat,
                                           n: NodeId, key: string, hash: Hash)
    requires IsRun(cfg, trace, steps) && AtRest(trace[0]) && i <= j <= |steps|
    requires SettledAt(cfg, trace[i], n, key, hash)
    ensures SettledAt(cfg, trace[j], n, key, hash)
    decreases j
  {
    if i < j {
      ReadableForEver(cfg, trace, steps, i, j - 1, n, key, hash);
      RunEvolves(cfg, trace, steps, j - 1);
    }
  }

  lemma RunEvolves(cfg: Config, trace: seq<Cluster>, steps: seq<Step>, k: nat)
    requires IsRun(cfg, trace, steps) && AtRest(trace[0]) && k < |steps|
    ensures Evolves(cfg, trace[k], trace[k + 1])
  {
    RestIsSafe(cfg, trace[0]);
    RunKeepsInv(cfg, trace, steps, k);
    assert StepAt(cfg, trace, steps, k);
    StepKeepsInv(cfg, trace[k], steps[k]);
  }
}

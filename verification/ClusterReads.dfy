/** What a reader gets in the cluster, in every continuation of an accepted raw save. */
module ClusterReads {
  import opened Results
  import opened StoreModel
  import opened Topologies
  import opened ClusterMachine
  import opened ClusterRuns
  import opened ClusterSafety

  /** No other content has the digest of this one. */
  ghost predicate NoCollision(c: Codec, content: Bytes) {
    forall x :: c.digest(x) == c.digest(content) ==> x == content
  }

  /** A file that is named by the digest of a prepared file reads as that path and data, if no other content has
      the digest. */
  lemma SettledFileReads(cfg: Config, c: Cluster, n: NodeId, path: Bytes, data: Bytes)
    requires Intact(cfg, c) && HasFile(c, n, cfg.codec.digest(PrepareRawFile(path, data)))
    requires 0 !in path && NoCollision(cfg.codec, PrepareRawFile(path, data))
    ensures ReadFile(cfg.codec, c.stores[n], MakePathFromHash(cfg.codec.digest(PrepareRawFile(path, data))))
         == Ok(File(path, data))
  {
    var hash := cfg.codec.digest(PrepareRawFile(path, data));
    assert Genuine(cfg.codec, hash, c.stores[n].files[MakePathFromHash(hash)]);
    HeaderRoundTripExact(path, data);
  }

  /** Where every file is genuine, reading a key succeeds exactly if no file of it is missing, and then gives the
      file of each of its hashes. */
  lemma {:induction false} KeyReads(cfg: Config, c: Cluster, n: NodeId, hashes: seq<Hash>)
    requires Intact(cfg, c) && n in c.stores
    ensures var got := ReadAll(cfg.codec, c.stores[n], hashes);
      && (got.Ok? <==> forall h :: h in hashes ==> HasFile(c, n, h))
      && (got.Ok? ==> forall h :: h in hashes ==> FileIn(cfg.codec, c.stores[n], h, got.value))
    decreases |hashes|
  {
    if hashes != [] {
      var front, last := hashes[..|hashes| - 1], hashes[|hashes| - 1];
      KeyReads(cfg, c, n, front);
      assert hashes == front + [last];
      if HasFile(c, n, last) {
        assert Genuine(cfg.codec, last, c.stores[n].files[MakePathFromHash(last)]);
      }
      var got := ReadAll(cfg.codec, c.stores[n], hashes);
      if got.Ok? {
        var before := ReadAll(cfg.codec, c.stores[n], front).value;
        forall h | h in hashes ensures FileIn(cfg.codec, c.stores[n], h, got.value) {
          if h in front { assert FileIn(cfg.codec, c.stores[n], h, before); }
        }
      }
    }
  }

  ghost predicate FileIn(c: Codec, st: Store, hash: Hash, files: seq<File>) {
    ReadFile(c, st, MakePathFromHash(hash)).Ok? && ReadFile(c, st, MakePathFromHash(hash)).value in files
  }

  /** A raw save that is accepted, and that wrote its file while the node had the content under no key that a
      rebase would take away, reads back in every continuation: its file is its path and data, and reading its key
      at its home contains it, exactly if no other file of the key is missing there. */
  lemma AcceptedRawSaveReadsBack(cfg: Config, first: Cluster, c: Cluster, id: nat, d: Cluster, path: Bytes, data: Bytes)
    requires RoundTrips(cfg.codec) && AtRest(first) && Intact(cfg, first) && Reaches(cfg, first, c)
    requires Enabled(cfg, c, WriteSave(id)) && c.saves[id].hash == cfg.codec.digest(PrepareRawFile(path, data))
    requires forall key :: Has(c, c.saves[id].at, key, c.saves[id].hash) ==> Stays(cfg, c.saves[id].at, key)
    requires Reaches(cfg, Next(cfg, c, WriteSave(id)), d) && id < |d.saves| && d.saves[id].status.Accepted?
    requires 0 !in path && NoCollision(cfg.codec, PrepareRawFile(path, data))
    ensures var at, key := c.saves[id].at, c.saves[id].key;
      && at in d.stores && cfg.topo.Home(key, at)
      && ReadFile(cfg.codec, d.stores[at], MakePathFromHash(c.saves[id].hash)) == Ok(File(path, data))
      && var got := ReadAll(cfg.codec, d.stores[at], HashesOf(d.stores[at].rows, key));
         && (got.Ok? <==> forall h :: Has(d, at, key, h) ==> HasFile(d, at, h))
         && (got.Ok? ==> File(path, data) in got.value)
  {
    var at, key, hash := c.saves[id].at, c.saves[id].key, c.saves[id].hash;
    ShelteredSaveIsReadable(cfg, first, c, id, d);
    ReachesNext(cfg, first, c, WriteSave(id));
    ReachesTransitive(cfg, first, Next(cfg, c, WriteSave(id)), d);
    ReachesIntact(cfg, first, d);
    SettledFileReads(cfg, d, at, path, data);
    HashesOfMembers(d.stores[at].rows, key);
    KeyReads(cfg, d, at, HashesOf(d.stores[at].rows, key));
    assert hash in HashesOf(d.stores[at].rows, key);
    if ReadAll(cfg.codec, d.stores[at], HashesOf(d.stores[at].rows, key)).Ok? {
      assert FileIn(cfg.codec, d.stores[at], hash,
                    ReadAll(cfg.codec, d.stores[at], HashesOf(d.stores[at].rows, key)).value);
    }
  }

  lemma ReachesIntact(cfg: Config, first: Cluster, d: Cluster)
    requires RoundTrips(cfg.codec) && Intact(cfg, first) && Reaches(cfg, first, d)
    ensures Intact(cfg, d)
  {
    var trace, steps :| IsRun(cfg, trace, steps) && trace[0] == first && trace[|steps|] == d;
    RunKeepsIntact(cfg, trace, steps, |steps|);
  }

  /** From upload to reader: a raw upload to a key's home, in a cluster that came from rest, reads back. */
  lemma UploadedFileReadsBack(cfg: Config, first: Cluster, c: Cluster, at: NodeId, key: string, path: Bytes,
                              data: Bytes, d: Cluster)
    requires RoundTrips(cfg.codec) && AtRest(first) && Intact(cfg, first) && Reaches(cfg, first, c)
    requires Enabled(cfg, c, RawArrives(at, key, path, data))
    requires 0 !in path && NoCollision(cfg.codec, PrepareRawFile(path, data))
    requires var hash := cfg.codec.digest(PrepareRawFile(path, data));
      forall k :: Has(c, at, k, hash) ==> Stays(cfg, at, k)
    requires var arrived := Next(cfg, c, RawArrives(at, key, path, data));
      Enabled(cfg, arrived, WriteSave(|c.saves|)) && Reaches(cfg, Next(cfg, arrived, WriteSave(|c.saves|)), d)
    requires |c.saves| < |d.saves| && d.saves[|c.saves|].status.Accepted?
    ensures at in d.stores
    ensures var got := ReadAll(cfg.codec, d.stores[at], HashesOf(d.stores[at].rows, key));
      && (got.Ok? <==> forall h :: Has(d, at, key, h) ==> HasFile(d, at, h))
      && (got.Ok? ==> File(path, data) in got.value)
  {
    var arrived := Next(cfg, c, RawArrives(at, key, path, data));
    ReachesNext(cfg, first, c, RawArrives(at, key, path, data));
    AcceptedRawSaveReadsBack(cfg, first, arrived, |c.saves|, d, path, data);
  }
}

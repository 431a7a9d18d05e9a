/** The key pages of a rebase pass: the offset advances over a list that the pass itself shortens. */
module RebasePaging {
  import opened StoreModel
  import opened Lists

  /** How many entries of `keys` are misplaced. */
  function Count(keys: seq<string>, bad: set<string>): (n: nat)
    ensures n <= |keys|
  {
    if keys == [] then 0
    else Count(keys[..|keys| - 1], bad) + if keys[|keys| - 1] in bad then 1 else 0
  }

  function MovedFrom(page: seq<string>, bad: set<string>): set<string> {
    set k | k in page && k in bad
  }

  /** The distinct keys that an error-free pass leaves, started at `offset`. */
  function Pass(keys: seq<string>, offset: nat, bad: set<string>): seq<string>
    decreases |keys| - offset
  {
    var page := Page(keys, offset);
    var rest := Dropped(keys, MovedFrom(page, bad));
    if |page| < DB_CHUNK_SIZE then rest
    else
      DroppedShortens(keys, MovedFrom(page, bad));
      Pass(rest, offset + DB_CHUNK_SIZE, bad)
  }

  /** The same pass without paging: each full page of hundred that loses r keys makes the pass skip the next
      r keys, or all that are left. */
  function Sweep(keys: seq<string>, bad: set<string>): seq<string>
    decreases |keys|
  {
    if |keys| < DB_CHUNK_SIZE then Dropped(keys, bad)
    else
      var page, tail := keys[..DB_CHUNK_SIZE], keys[DB_CHUNK_SIZE..];
      var skipped := Skipped(page, tail, bad);
      Dropped(page, bad) + tail[..skipped] + Sweep(tail[skipped..], bad)
  }

  function Skipped(page: seq<string>, tail: seq<string>, bad: set<string>): (n: nat)
    ensures n <= |tail|
  {
    if Count(page, bad) <= |tail| then Count(page, bad) else |tail|
  }

  // ---------------------------------------------------------------- lists with keys dropped

  lemma {:induction false} DroppedShortens(keys: seq<string>, gone: set<string>)
    ensures |Dropped(keys, gone)| == |keys| - Count(keys, gone)
  {
    if keys != [] {
      DroppedShortens(keys[..|keys| - 1], gone);
    }
  }

  lemma {:induction false} DroppedOfConcat(a: seq<string>, b: seq<string>, gone: set<string>)
    ensures Dropped(a + b, gone) == Dropped(a, gone) + Dropped(b, gone)
    ensures Count(a + b, gone) == Count(a, gone) + Count(b, gone)
    decreases |b|
  {
    if b == [] {
      assert a + b == a;
    } else {
      var front := b[..|b| - 1];
      assert (a + b)[..|a + b| - 1] == a + front;
      DroppedOfConcat(a, front, gone);
    }
  }

  /** Only the part of `gone` that occurs in the list matters. */
  lemma {:induction false} DroppedDependsOnMembers(keys: seq<string>, gone: set<string>, other: set<string>)
    requires forall k :: k in keys ==> (k in gone <==> k in other)
    ensures Dropped(keys, gone) == Dropped(keys, other)
    ensures Count(keys, gone) == Count(keys, other)
  {
    if keys != [] {
      var front := keys[..|keys| - 1];
      assert forall k :: k in front ==> k in keys;
      assert keys[|keys| - 1] in keys;
      DroppedDependsOnMembers(front, gone, other);
    }
  }

  lemma {:induction false} DroppedNothing(keys: seq<string>, gone: set<string>)
    requires Count(keys, gone) == 0
    ensures Dropped(keys, gone) == keys
  {
    if keys != [] {
      DroppedNothing(keys[..|keys| - 1], gone);
    }
  }

  lemma {:induction false} NothingCounted(keys: seq<string>, gone: set<string>)
    ensures Count(keys, gone) == 0 <==> forall k :: k in keys ==> k !in gone
  {
    if keys != [] {
      var front, last := keys[..|keys| - 1], keys[|keys| - 1];
      NothingCounted(front, gone);
      assert keys == front + [last];
    }
  }

  lemma {:induction false} DroppedTwice(keys: seq<string>, gone: set<string>, also: set<string>)
    ensures Dropped(Dropped(keys, gone), also) == Dropped(keys, gone + also)
    ensures Count(Dropped(keys, gone), gone) == 0
    decreases |keys|
  {
    if keys != [] {
      var front, last := keys[..|keys| - 1], keys[|keys| - 1];
      DroppedTwice(front, gone, also);
      if last !in gone {
        assert (Dropped(front, gone) + [last])[..|Dropped(front, gone)|] == Dropped(front, gone);
      } else {
        assert Dropped(keys, gone) == Dropped(front, gone);
      }
    }
  }

  lemma {:induction false} DroppedDistinct(keys: seq<string>, gone: set<string>)
    requires Distinct(keys)
    ensures Distinct(Dropped(keys, gone))
  {
    if keys != [] {
      var front, last := keys[..|keys| - 1], keys[|keys| - 1];
      DroppedDistinct(front, gone);
      DroppedMembers(front, gone);
      assert last !in front;
    }
  }

  // ---------------------------------------------------------------- the paged pass is the sweep

  /** One page: only the misplaced keys of the page go, everything before and after it stays. */
  lemma PageDrops(before: seq<string>, page: seq<string>, tail: seq<string>, bad: set<string>)
    requires Distinct(before + page + tail)
    ensures Dropped(before + page + tail, MovedFrom(page, bad)) == before + Dropped(page, bad) + tail
  {
    var keys, moved := before + page + tail, MovedFrom(page, bad);
    forall k | k in before || k in tail ensures k !in page {
      Apart(before, page, tail, k);
    }
    DroppedOfConcat(before + page, tail, moved);
    DroppedOfConcat(before, page, moved);
    DroppedDependsOnMembers(page, moved, bad);
    NothingCounted(before, moved);
    NothingCounted(tail, moved);
    DroppedNothing(before, moved);
    DroppedNothing(tail, moved);
  }

  lemma Apart(before: seq<string>, page: seq<string>, tail: seq<string>, k: string)
    requires Distinct(before + page + tail) && (k in before || k in tail)
    ensures k !in page
  {
    var keys := before + page + tail;
    forall i, j | 0 <= i < |page| && 0 <= j < |before| ensures page[i] != before[j] {
      assert keys[j] == before[j] && keys[|before| + i] == page[i];
    }
    forall i, j | 0 <= i < |page| && 0 <= j < |tail| ensures page[i] != tail[j] {
      assert keys[|before| + i] == page[i] && keys[|before| + |page| + j] == tail[j];
    }
  }

  /** A page past the end of the list ends the pass. */
  lemma PassBeyond(keys: seq<string>, offset: nat, bad: set<string>)
    requires |keys| <= offset
    ensures Pass(keys, offset, bad) == keys
  {
    NothingCounted(keys, {});
    DroppedNothing(keys, {});
    assert MovedFrom(Page(keys, offset), bad) == {};
  }

  /** The paging loop, with its growing offset over the shrinking list, is the sweep from the offset on. */
  lemma {:induction false} PassIsSweepFrom(before: seq<string>, keys: seq<string>, bad: set<string>)
    requires Distinct(before + keys)
    ensures Pass(before + keys, |before|, bad) == before + Sweep(keys, bad)
    decreases |keys|
  {
    if |keys| < DB_CHUNK_SIZE {
      LastPage(before, keys, bad);
    } else {
      var page, tail := keys[..DB_CHUNK_SIZE], keys[DB_CHUNK_SIZE..];
      var skipped := Skipped(page, tail, bad);
      FullPage(before, keys, page, tail, bad);
      NextPage(before, Dropped(page, bad), tail, skipped, bad);
      SweepUnfolds(before, keys, page, tail, bad);
    }
  }

  lemma SweepUnfolds(before: seq<string>, keys: seq<string>, page: seq<string>, tail: seq<string>, bad: set<string>)
    requires keys == page + tail && |page| == DB_CHUNK_SIZE
    ensures var skipped := Skipped(page, tail, bad);
      before + Dropped(page, bad) + tail[..skipped] + Sweep(tail[skipped..], bad) == before + Sweep(keys, bad)
  {
    assert keys[..DB_CHUNK_SIZE] == page && keys[DB_CHUNK_SIZE..] == tail;
  }

  lemma LastPage(before: seq<string>, page: seq<string>, bad: set<string>)
    requires Distinct(before + page) && |page| < DB_CHUNK_SIZE
    ensures Pass(before + page, |before|, bad) == before + Dropped(page, bad)
  {
    assert Page(before + page, |before|) == page && before + page + [] == before + page;
    PageDrops(before, page, [], bad);
  }

  lemma FullPage(before: seq<string>, keys: seq<string>, page: seq<string>, tail: seq<string>, bad: set<string>)
    requires Distinct(before + keys) && keys == page + tail && |page| == DB_CHUNK_SIZE
    ensures Pass(before + keys, |before|, bad)
         == Pass(before + Dropped(page, bad) + tail, |before| + DB_CHUNK_SIZE, bad)
    ensures Distinct(before + Dropped(page, bad) + tail)
    ensures |Dropped(page, bad)| + Count(page, bad) == DB_CHUNK_SIZE
  {
    var all := before + keys;
    assert all == before + page + tail;
    assert Page(all, |before|) == page;
    PageDrops(before, page, tail, bad);
    DroppedDistinct(all, MovedFrom(page, bad));
    DroppedShortens(page, bad);
  }

  /** The next page starts a hundred further on in the shortened list, past as many keys as were dropped. */
  lemma {:induction false} NextPage(before: seq<string>, kept: seq<string>, tail: seq<string>, skipped: nat,
                                    bad: set<string>)
    requires Distinct(before + kept + tail) && skipped <= |tail|
    requires |kept| + skipped == DB_CHUNK_SIZE || (|kept| + skipped < DB_CHUNK_SIZE && skipped == |tail|)
    ensures Pass(before + kept + tail, |before| + DB_CHUNK_SIZE, bad)
         == before + kept + tail[..skipped] + Sweep(tail[skipped..], bad)
    decreases |tail| + 1
  {
    var passed, ahead := before + kept + tail[..skipped], tail[skipped..];
    assert before + kept + tail == passed + ahead;
    if |kept| + skipped == DB_CHUNK_SIZE {
      PassIsSweepFrom(passed, ahead, bad);
    } else {
      PassBeyond(passed + ahead, |before| + DB_CHUNK_SIZE, bad);
      assert Sweep(ahead, bad) == [];
    }
  }

  lemma PassIsSweep(keys: seq<string>, bad: set<string>)
    requires Distinct(keys)
    ensures Pass(keys, 0, bad) == Sweep(keys, bad)
  {
    assert [] + keys == keys;
    PassIsSweepFrom([], keys, bad);
  }

  // ---------------------------------------------------------------- convergence

  /** A sweep leaves at most as many misplaced keys as it moves. */
  lemma {:induction false} SweepHalves(keys: seq<string>, bad: set<string>)
    ensures 2 * Count(Sweep(keys, bad), bad) <= Count(keys, bad)
    decreases |keys|
  {
    if |keys| < DB_CHUNK_SIZE {
      DroppedTwice(keys, bad, bad);
    } else {
      var page, tail := keys[..DB_CHUNK_SIZE], keys[DB_CHUNK_SIZE..];
      var skipped := Skipped(page, tail, bad);
      var left, right := tail[..skipped], tail[skipped..];
      assert keys == page + (left + right);
      DroppedOfConcat(page, left + right, bad);
      DroppedOfConcat(left, right, bad);
      DroppedTwice(page, bad, bad);
      DroppedOfConcat(Dropped(page, bad) + left, Sweep(right, bad), bad);
      DroppedOfConcat(Dropped(page, bad), left, bad);
      SweepHalves(right, bad);
    }
  }

  /** A sweep keeps the well-placed keys in order. */
  lemma {:induction false} SweepKeepsTheRest(keys: seq<string>, bad: set<string>)
    ensures Dropped(Sweep(keys, bad), bad) == Dropped(keys, bad)
    decreases |keys|
  {
    if |keys| < DB_CHUNK_SIZE {
      DroppedTwice(keys, bad, bad);
      assert bad + bad == bad;
    } else {
      var page, tail := keys[..DB_CHUNK_SIZE], keys[DB_CHUNK_SIZE..];
      var skipped := Skipped(page, tail, bad);
      var left, right := tail[..skipped], tail[skipped..];
      SweepKeepsTheRest(right, bad);
      DroppedTwice(page, bad, bad);
      assert bad + bad == bad;
      DroppedOfConcat(Dropped(page, bad) + left, Sweep(right, bad), bad);
      DroppedOfConcat(Dropped(page, bad), left, bad);
      assert keys == page + left + right;
      DroppedOfConcat(page + left, right, bad);
      DroppedOfConcat(page, left, bad);
    }
  }

  /** Every error-free pass at least halves the number of misplaced keys and moves no other key. */
  lemma PassHalves(keys: seq<string>, bad: set<string>)
    requires Distinct(keys)
    ensures 2 * Count(Pass(keys, 0, bad), bad) <= Count(keys, bad)
    ensures Dropped(Pass(keys, 0, bad), bad) == Dropped(keys, bad)
    ensures Distinct(Pass(keys, 0, bad))
  {
    PassIsSweep(keys, bad);
    SweepHalves(keys, bad);
    SweepKeepsTheRest(keys, bad);
    PassStaysDistinct(keys, 0, bad);
  }

  lemma {:induction false} PassStaysDistinct(keys: seq<string>, offset: nat, bad: set<string>)
    requires Distinct(keys)
    ensures Distinct(Pass(keys, offset, bad))
    decreases |keys| - offset
  {
    var moved := MovedFrom(Page(keys, offset), bad);
    DroppedDistinct(keys, moved);
    if |Page(keys, offset)| == DB_CHUNK_SIZE {
      DroppedShortens(keys, moved);
      PassStaysDistinct(Dropped(keys, moved), offset + DB_CHUNK_SIZE, bad);
    }
  }

  /** Only the misplaced keys that occur in the list matter to a pass. */
  lemma {:induction false} PassDependsOnMembers(keys: seq<string>, offset: nat, bad: set<string>, other: set<string>)
    requires forall k :: k in keys ==> (k in bad <==> k in other)
    ensures Pass(keys, offset, bad) == Pass(keys, offset, other)
    decreases |keys| - offset
  {
    var page := Page(keys, offset);
    assert forall k :: k in page ==> k in keys;
    assert MovedFrom(page, bad) == MovedFrom(page, other);
    var moved := MovedFrom(page, bad);
    if |page| == DB_CHUNK_SIZE {
      DroppedShortens(keys, moved);
      DroppedMembers(keys, moved);
      PassDependsOnMembers(Dropped(keys, moved), offset + DB_CHUNK_SIZE, bad, other);
    }
  }

  function Passes(keys: seq<string>, n: nat, bad: set<string>): seq<string>
    decreases n
  {
    if n == 0 then keys else Passes(Pass(keys, 0, bad), n - 1, bad)
  }

  /** Floor of the binary logarithm, plus one. */
  function PassesNeeded(misplaced: nat): nat {
    if misplaced == 0 then 0 else 1 + PassesNeeded(misplaced / 2)
  }

  /** floor(log2 M) + 1 error-free passes clear M misplaced keys and leave exactly the others, in order. */
  lemma {:induction false} PassesClear(keys: seq<string>, n: nat, bad: set<string>)
    requires Distinct(keys) && PassesNeeded(Count(keys, bad)) <= n
    ensures Passes(keys, n, bad) == Dropped(keys, bad)
    decreases n
  {
    if n == 0 {
      DroppedNothing(keys, bad);
    } else {
      PassHalves(keys, bad);
      var next := Pass(keys, 0, bad);
      NeedIsMonotone(Count(next, bad), Count(keys, bad) / 2);
      PassesClear(next, n - 1, bad);
    }
  }

  lemma {:induction false} NeedIsMonotone(a: nat, b: nat)
    requires a <= b
    ensures PassesNeeded(a) <= PassesNeeded(b)
  {
    if a > 0 {
      NeedIsMonotone(a / 2, b / 2);
    }
  }

  // ---------------------------------------------------------------- when one pass is enough

  /** No misplaced key is among those that a pass skips after a full page. */
  ghost predicate NothingSkipped(keys: seq<string>, bad: set<string>)
    decreases |keys|
  {
    |keys| >= DB_CHUNK_SIZE ==>
      var page, tail := keys[..DB_CHUNK_SIZE], keys[DB_CHUNK_SIZE..];
      var skipped := Skipped(page, tail, bad);
      (forall k :: k in tail[..skipped] ==> k !in bad) && NothingSkipped(tail[skipped..], bad)
  }

  /** A pass leaves no misplaced key behind exactly if it skips none. */
  lemma PassClearsExactly(keys: seq<string>, bad: set<string>)
    requires Distinct(keys)
    ensures Count(Pass(keys, 0, bad), bad) == 0 <==> NothingSkipped(keys, bad)
    ensures Pass(keys, 0, bad) == Dropped(keys, bad) <==> NothingSkipped(keys, bad)
  {
    PassIsSweep(keys, bad);
    SweepClearsExactly(keys, bad);
    SweepKeepsTheRest(keys, bad);
    DroppedTwice(keys, bad, bad);
    if NothingSkipped(keys, bad) {
      DroppedNothing(Sweep(keys, bad), bad);
    }
  }

  lemma {:induction false} SweepClearsExactly(keys: seq<string>, bad: set<string>)
    ensures Count(Sweep(keys, bad), bad) == 0 <==> NothingSkipped(keys, bad)
    decreases |keys|
  {
    if |keys| < DB_CHUNK_SIZE {
      DroppedTwice(keys, bad, bad);
    } else {
      var page, tail := keys[..DB_CHUNK_SIZE], keys[DB_CHUNK_SIZE..];
      var skipped := Skipped(page, tail, bad);
      var left, right := tail[..skipped], tail[skipped..];
      SweepClearsExactly(right, bad);
      DroppedTwice(page, bad, bad);
      DroppedOfConcat(Dropped(page, bad) + left, Sweep(right, bad), bad);
      DroppedOfConcat(Dropped(page, bad), left, bad);
      NothingCounted(left, bad);
    }
  }

  /** One pass is enough whatever is misplaced exactly if the node has at most a hundred keys. */
  lemma OnePassIsEnoughExactlyUpToAPage(keys: seq<string>)
    requires Distinct(keys)
    ensures (forall bad :: Count(Pass(keys, 0, bad), bad) == 0) <==> |keys| <= DB_CHUNK_SIZE
  {
    if |keys| <= DB_CHUNK_SIZE {
      forall bad: set<string> ensures Count(Pass(keys, 0, bad), bad) == 0 {
        SinglePageSkipsNothing(keys, bad);
      }
    } else {
      SkipsTheNextPage(keys);
    }
  }

  lemma SinglePageSkipsNothing(keys: seq<string>, bad: set<string>)
    requires Distinct(keys) && |keys| <= DB_CHUNK_SIZE
    ensures Count(Pass(keys, 0, bad), bad) == 0
  {
    assert |keys| == DB_CHUNK_SIZE ==> keys[DB_CHUNK_SIZE..] == [];
    PassClearsExactly(keys, bad);
  }

  /** A misplaced key on the first page makes the pass skip the first key behind that page. */
  lemma SkipsTheNextPage(keys: seq<string>)
    requires Distinct(keys) && |keys| > DB_CHUNK_SIZE
    ensures var bad := {keys[0], keys[DB_CHUNK_SIZE]}; Count(Pass(keys, 0, bad), bad) != 0
  {
    var bad := {keys[0], keys[DB_CHUNK_SIZE]};
    var page, tail := keys[..DB_CHUNK_SIZE], keys[DB_CHUNK_SIZE..];
    assert page[0] in page;
    NothingCounted(page, bad);
    var left := tail[..Skipped(page, tail, bad)];
    assert left[0] == keys[DB_CHUNK_SIZE] && left[0] in left;
    PassClearsExactly(keys, bad);
  }

  /** The halving bound is met: of a multiple of 200 keys, all misplaced, a pass leaves exactly half. */
  lemma HalvingIsTight(keys: seq<string>, bad: set<string>)
    requires Distinct(keys) && |keys| % (2 * DB_CHUNK_SIZE) == 0 && AllIn(keys, bad)
    ensures 2 * Count(Pass(keys, 0, bad), bad) == Count(keys, bad) == |keys|
  {
    PassIsSweep(keys, bad);
    SweepOfAllMisplaced(keys, bad, |keys| / (2 * DB_CHUNK_SIZE));
    AllCounted(keys, bad);
    AllCounted(Sweep(keys, bad), bad);
  }

  lemma {:induction false} AllCounted(keys: seq<string>, bad: set<string>)
    requires AllIn(keys, bad)
    ensures Count(keys, bad) == |keys| && Dropped(keys, bad) == []
  {
    if keys != [] {
      var front := keys[..|keys| - 1];
      assert keys[|keys| - 1] in keys;
      assert forall k :: k in front ==> k in keys;
      AllCounted(front, bad);
    }
  }

  ghost predicate AllIn(keys: seq<string>, bad: set<string>) {
    forall k :: k in keys ==> k in bad
  }

  lemma AllInConcat(a: seq<string>, b: seq<string>, bad: set<string>)
    ensures AllIn(a + b, bad) <==> AllIn(a, bad) && AllIn(b, bad)
  {
    assert forall k :: k in a + b <==> k in a || k in b;
  }

  lemma {:induction false} SweepOfAllMisplaced(keys: seq<string>, bad: set<string>, j: nat)
    requires |keys| == 200 * j && AllIn(keys, bad)
    ensures |Sweep(keys, bad)| == 100 * j && AllIn(Sweep(keys, bad), bad)
    decreases j
  {
    if j == 0 {
      EmptySweep(keys, bad);
    } else {
      var right := AllMisplacedPages(keys, bad);
      SweepOfAllMisplaced(right, bad, j - 1);
    }
  }

  lemma AllMisplacedPages(keys: seq<string>, bad: set<string>) returns (right: seq<string>)
    requires |keys| >= 200 && AllIn(keys, bad)
    ensures |right| == |keys| - 200 && AllIn(right, bad)
    ensures |Sweep(keys, bad)| == 100 + |Sweep(right, bad)|
    ensures AllIn(Sweep(right, bad), bad) ==> AllIn(Sweep(keys, bad), bad)
  {
    var page, left := keys[..DB_CHUNK_SIZE], keys[DB_CHUNK_SIZE..2 * DB_CHUNK_SIZE];
    right := keys[2 * DB_CHUNK_SIZE..];
    assert keys == page + left + right;
    AllInConcat(page + left, right, bad);
    AllInConcat(page, left, bad);
    AllMisplacedPage(keys, page, left, right, bad);
    AllInConcat(left, Sweep(right, bad), bad);
  }

  lemma EmptySweep(keys: seq<string>, bad: set<string>)
    requires keys == []
    ensures Sweep(keys, bad) == []
  {
  }

  /** A full page of misplaced keys is moved, and the hundred keys behind it are skipped. */
  lemma AllMisplacedPage(keys: seq<string>, page: seq<string>, left: seq<string>, right: seq<string>, bad: set<string>)
    requires keys == page + left + right && |page| == |left| == DB_CHUNK_SIZE
    requires AllIn(page, bad)
    ensures Sweep(keys, bad) == left + Sweep(right, bad)
  {
    AllCounted(page, bad);
    assert keys[..DB_CHUNK_SIZE] == page && keys[DB_CHUNK_SIZE..] == left + right;
    assert (left + right)[..DB_CHUNK_SIZE] == left && (left + right)[DB_CHUNK_SIZE..] == right;
  }
}

/** What the searches mean for key ownership: nearest ids, ring growth and ring shrinkage. */
module RingTheory {
  import opened Int64
  import opened RingSearch
  import opened Lists

  // ---------------------------------------------------------------- nearest element

  /** `v` is the nearest member of `arr` to `t`, the larger one on a tie. */
  ghost predicate IsNearest(arr: seq<Id>, t: int, v: int) {
    && v in arr
    && forall w :: w in arr ==> Dist(t, v) < Dist(t, w) || (Dist(t, v) == Dist(t, w) && w <= v)
  }

  /** The linear scan that findClosestElement speeds up. */
  function Scan(arr: seq<Id>, t: int): (v: Id)
    requires arr != []
    ensures IsNearest(arr, t, v)
  {
    var last := arr[|arr| - 1];
    if |arr| == 1 then last
    else
      var best := Scan(arr[..|arr| - 1], t);
      assert forall w :: w in arr ==> w in arr[..|arr| - 1] || w == last;
      if Dist(t, last) < Dist(t, best) || (Dist(t, last) == Dist(t, best) && best <= last) then last else best
  }

  /** No pair of neighbours brackets `t` from so far away that a 64-bit difference overflows. */
  ghost predicate NoOverflow(arr: seq<Id>, t: int) {
    forall i :: 0 <= i < |arr| - 1 && arr[i] < t < arr[i + 1] ==> t - arr[i] < TWO_63 && arr[i + 1] - t < TWO_63
  }

  ghost predicate GapsBounded(arr: seq<Id>) {
    forall i :: 0 <= i < |arr| - 1 ==> arr[i + 1] - arr[i] <= TWO_63
  }

  /** The bracketing pair of an absent interior target, as the search finds it. */
  lemma InteriorBracket(arr: seq<Id>, t: Id) returns (i: nat)
    requires arr != [] && t !in arr && arr[0] < t < arr[|arr| - 1]
    ensures i + 1 < |arr| && arr[i] < t < arr[i + 1]
    ensures Bisect(arr, t, 0, |arr| - 1, 0) == Between(i)
    ensures IndexFor(arr, t) == i && ClosestFor(arr, t) == GetClosest(t, arr[i], arr[i + 1])
  {
    BisectEnds(arr, t, 0, |arr| - 1, 0);
    AbsentIsBracketed(arr, t, 0, |arr| - 1, 0);
    i := Bisect(arr, t, 0, |arr| - 1, 0).left;
  }

  lemma NearestOfBracket(arr: seq<Id>, t: int, i: nat)
    requires StrictlySorted(arr) && i + 1 < |arr| && arr[i] < t < arr[i + 1]
    ensures IsNearest(arr, t, NearerOf(t, arr[i], arr[i + 1]))
  {
    forall w | w in arr ensures w <= arr[i] || arr[i + 1] <= w {
      var k :| 0 <= k < |arr| && arr[k] == w;
      assert k < i || k == i || k == i + 1 || k > i + 1;
    }
  }

  lemma NearestIsScan(arr: seq<Id>, t: int, v: int)
    requires arr != [] && IsNearest(arr, t, v)
    ensures v == Scan(arr, t)
  {
    var w := Scan(arr, t);
    assert v in arr && w in arr;
  }

  lemma OverflowAtBracket(arr: seq<Id>, t: int, i: nat)
    requires StrictlySorted(arr) && i + 1 < |arr| && arr[i] < t < arr[i + 1]
    ensures NoOverflow(arr, t) <==> t - arr[i] < TWO_63 && arr[i + 1] - t < TWO_63
  {
    forall j | 0 <= j < |arr| - 1 && arr[j] < t < arr[j + 1] ensures j == i {
      BracketIsUnique(arr, t, i, j);
    }
  }

  /** findClosestElement never falls through on an absent target: for an interior one it compares the
      pair that findIndex brackets, and it equals the linear scan exactly if that pair does not overflow. */
  lemma ClosestRefinesScan(arr: seq<Id>, t: Id)
    requires StrictlySorted(arr) && arr != [] && t !in arr
    ensures ClosestFor(arr, t) in arr
    ensures ClosestFor(arr, t) == Scan(arr, t) <==> NoOverflow(arr, t)
    ensures arr[0] < t < arr[|arr| - 1] ==>
      var i := IndexFor(arr, t);
      i + 1 < |arr| && arr[i] < t < arr[i + 1] && ClosestFor(arr, t) == GetClosest(t, arr[i], arr[i + 1])
  {
    var n := |arr|;
    assert arr[0] in arr && arr[n - 1] in arr;
    if t < arr[0] || t > arr[n - 1] {
      EndRefinesScan(arr, t);
    } else {
      var i := InsideRefinesScan(arr, t);
    }
  }

  lemma EndRefinesScan(arr: seq<Id>, t: Id)
    requires StrictlySorted(arr) && arr != [] && (t < arr[0] || t > arr[|arr| - 1])
    ensures ClosestFor(arr, t) in arr && ClosestFor(arr, t) == Scan(arr, t) && NoOverflow(arr, t)
  {
    EndIsNearest(arr, t);
    NearestIsScan(arr, t, ClosestFor(arr, t));
  }

  lemma InsideRefinesScan(arr: seq<Id>, t: Id) returns (i: nat)
    requires StrictlySorted(arr) && arr != [] && t !in arr && arr[0] < t < arr[|arr| - 1]
    ensures ClosestFor(arr, t) in arr
    ensures ClosestFor(arr, t) == Scan(arr, t) <==> NoOverflow(arr, t)
    ensures IndexFor(arr, t) == i && i + 1 < |arr| && arr[i] < t < arr[i + 1]
    ensures ClosestFor(arr, t) == GetClosest(t, arr[i], arr[i + 1])
  {
    i := InteriorBracket(arr, t);
    BracketRefinesScan(arr, t, i, ClosestFor(arr, t));
  }

  lemma BracketRefinesScan(arr: seq<Id>, t: Id, i: nat, closest: int)
    requires StrictlySorted(arr) && i + 1 < |arr| && arr[i] < t < arr[i + 1]
    requires closest == GetClosest(t, arr[i], arr[i + 1])
    ensures closest in arr && (closest == Scan(arr, t) <==> NoOverflow(arr, t))
  {
    NearestOfBracket(arr, t, i);
    NearestIsScan(arr, t, NearerOf(t, arr[i], arr[i + 1]));
    GetClosestExact(t, arr[i], arr[i + 1]);
    OverflowAtBracket(arr, t, i);
  }

  /** A lookup of `t` ends on an id of the list: `t` is no member, or a member that the search locates, or the
      index that is answered instead happens to be an id. */
  ghost predicate Findable(arr: seq<Id>, t: Id) {
    forall p :: 0 <= p < |arr| && arr[p] == t ==> Locatable(|arr|, p) || IndexFor(arr, t) in arr
  }

  /** When findClosestElement answers an id, for every target, listed or not. */
  lemma ClosestIsListedExactly(arr: seq<Id>, t: Id)
    requires StrictlySorted(arr) && arr != []
    ensures ClosestFor(arr, t) in arr <==> Findable(arr, t)
    ensures |arr| <= 4 ==> Findable(arr, t)
  {
    LocatableExactlyUpToFour(|arr|);
    if t in arr {
      var p :| 0 <= p < |arr| && arr[p] == t;
      PresentClosestExact(arr, p);
      assert forall q :: 0 <= q < |arr| && arr[q] == t ==> q == p;
    } else {
      ClosestRefinesScan(arr, t);
    }
  }

  lemma EndIsNearest(arr: seq<Id>, t: Id)
    requires StrictlySorted(arr) && arr != [] && (t < arr[0] || t > arr[|arr| - 1])
    ensures IsNearest(arr, t, ClosestFor(arr, t)) && NoOverflow(arr, t)
  {
    forall w | w in arr ensures arr[0] <= w <= arr[|arr| - 1] {
      var k :| 0 <= k < |arr| && arr[k] == w;
    }
    assert arr[0] in arr && arr[|arr| - 1] in arr;
    forall i | 0 <= i < |arr| - 1 ensures !(arr[i] < t < arr[i + 1]) {
      assert arr[i] in arr && arr[i + 1] in arr;
    }
  }

  /** The bound on a whole ring: every absent key hash is resolved to its nearest id exactly if no two
      neighbouring ids are more than 2^63 apart. */
  lemma RingResolvesNearestExactly(arr: seq<Id>)
    requires StrictlySorted(arr) && arr != []
    ensures (forall t: Id :: t !in arr ==> ClosestFor(arr, t) == Scan(arr, t)) <==> GapsBounded(arr)
  {
    if GapsBounded(arr) {
      forall t: Id | t !in arr ensures ClosestFor(arr, t) == Scan(arr, t) {
        ClosestRefinesScan(arr, t);
      }
    } else {
      var i :| 0 <= i < |arr| - 1 && arr[i + 1] - arr[i] > TWO_63;
      var t: Id := arr[i] + 1;
      AbsentBetween(arr, t, i);
      ClosestRefinesScan(arr, t);
    }
  }

  lemma AbsentBetween(arr: seq<Id>, t: int, i: nat)
    requires StrictlySorted(arr) && i + 1 < |arr| && arr[i] < t < arr[i + 1]
    ensures t !in arr
  {
    if t in arr {
      var k :| 0 <= k < |arr| && arr[k] == t;
      if k > i + 1 { assert false; }
    }
  }

  /** The owner of a later key hash is never below the owner of an earlier one. */
  ghost predicate Monotone(arr: seq<Id>) {
    forall s: Id, t: Id :: s !in arr && t !in arr && s <= t ==> ClosestFor(arr, s) <= ClosestFor(arr, t)
  }

  /** Each id owns one interval of key hashes exactly if no two neighbouring ids are more than 2^63 apart. */
  lemma OwnershipIsMonotoneExactly(arr: seq<Id>)
    requires StrictlySorted(arr) && arr != []
    ensures Monotone(arr) <==> GapsBounded(arr)
  {
    if GapsBounded(arr) {
      forall s: Id, t: Id | s !in arr && t !in arr && s <= t ensures ClosestFor(arr, s) <= ClosestFor(arr, t) {
        ClosestRefinesScan(arr, s);
        ClosestRefinesScan(arr, t);
        NearestIsMonotone(arr, s, t, Scan(arr, s), Scan(arr, t));
      }
    } else {
      var i :| 0 <= i < |arr| - 1 && arr[i + 1] - arr[i] > TWO_63;
      var s: Id, t: Id := arr[i] + 1, arr[i + 1] - 1;
      ClosestInGap(arr, s, i);
      ClosestInGap(arr, t, i);
      GetClosestExact(s, arr[i], arr[i + 1]);
      GetClosestExact(t, arr[i], arr[i + 1]);
    }
  }

  /** Inside the ring the answer is the comparison of the two ids around the hash. */
  lemma ClosestInGap(arr: seq<Id>, t: Id, i: nat)
    requires StrictlySorted(arr) && i + 1 < |arr| && arr[i] < t < arr[i + 1]
    ensures t !in arr && ClosestFor(arr, t) == GetClosest(t, arr[i], arr[i + 1])
  {
    AbsentBetween(arr, t, i);
    assert arr[0] <= arr[i] && arr[i + 1] <= arr[|arr| - 1];
    var j := InteriorBracket(arr, t);
    BracketIsUnique(arr, t, i, j);
  }

  lemma NearestIsMonotone(arr: seq<Id>, s: int, t: int, v: int, w: int)
    requires IsNearest(arr, s, v) && IsNearest(arr, t, w) && s <= t
    ensures v <= w
  {
    assert v in arr && w in arr;
  }

  // ---------------------------------------------------------------- insertion

  /** What insertId leaves in the id list. */
  function Insert(arr: seq<Id>, x: Id): seq<Id> {
    if arr == [] then [x]
    else
      var pos := IndexFor(arr, x) + 1;
      arr[..pos] + [x] + arr[pos..]
  }

  lemma InsertKeepsMembers(arr: seq<Id>, x: Id)
    ensures multiset(Insert(arr, x)) == multiset(arr) + multiset{x}
    ensures |Insert(arr, x)| == |arr| + 1
    ensures forall v :: v in Insert(arr, x) <==> v in arr || v == x
    ensures arr != [] ==> Insert(arr, x)[0] == arr[0]
  {
    if arr != [] {
      var pos := IndexFor(arr, x) + 1;
      assert arr == arr[..pos] + arr[pos..];
    }
  }

  /** A fresh id goes to its place exactly if it is above the first one; otherwise it lands second. */
  lemma InsertSortsExactly(arr: seq<Id>, x: Id)
    requires StrictlySorted(arr) && arr != [] && x !in arr
    ensures StrictlySorted(Insert(arr, x)) <==> x > arr[0]
    ensures x < arr[0] ==> Insert(arr, x) == [arr[0], x] + arr[1..]
  {
    assert arr[0] in arr;
    if x > arr[0] {
      InsertAbove(arr, x);
    } else {
      InsertBelow(arr, x);
    }
  }

  lemma InsertAbove(arr: seq<Id>, x: Id)
    requires StrictlySorted(arr) && arr != [] && x !in arr && arr[0] < x
    ensures StrictlySorted(Insert(arr, x))
  {
    AbsentIndexIsPredecessor(arr, x);
    SplicedIsSorted(arr, x, IndexFor(arr, x));
  }

  lemma InsertBelow(arr: seq<Id>, x: Id)
    requires arr != [] && x < arr[0]
    ensures Insert(arr, x) == [arr[0], x] + arr[1..] && !StrictlySorted(Insert(arr, x))
  {
    assert arr[..1] == [arr[0]];
    assert Insert(arr, x)[0] == arr[0] && Insert(arr, x)[1] == x;
  }

  lemma SplicedIsSorted(arr: seq<Id>, x: Id, r: nat)
    requires StrictlySorted(arr) && r < |arr| && arr[r] < x && (r + 1 < |arr| ==> x < arr[r + 1])
    ensures StrictlySorted(arr[..r + 1] + [x] + arr[r + 1..])
  {
    var s := arr[..r + 1] + [x] + arr[r + 1..];
    forall i | 0 <= i < |s| ensures s[i] == if i <= r then arr[i] else if i == r + 1 then x else arr[i - 1] {}
    forall i | 0 <= i <= r ensures arr[i] < x { assert i == r || arr[i] < arr[r]; }
    forall i | r + 1 <= i < |arr| ensures x < arr[i] { assert i == r + 1 || arr[r + 1] < arr[i]; }
  }

  /** The id list after adding `order` one by one. */
  function InsertAll(arr: seq<Id>, order: seq<Id>): seq<Id>
    decreases |order|
  {
    if order == [] then arr else Insert(InsertAll(arr, order[..|order| - 1]), order[|order| - 1])
  }

  /** Adding ids loses none, invents none, and never moves the first one. */
  lemma {:induction false} InsertAllKeepsMembers(arr: seq<Id>, order: seq<Id>)
    ensures multiset(InsertAll(arr, order)) == multiset(arr) + multiset(order)
    ensures forall v :: v in InsertAll(arr, order) <==> v in arr || v in order
    ensures arr != [] ==> InsertAll(arr, order) != [] && InsertAll(arr, order)[0] == arr[0]
    ensures |InsertAll(arr, order)| == |arr| + |order|
    decreases |order|
  {
    if order != [] {
      var front, x := order[..|order| - 1], order[|order| - 1];
      assert order == front + [x];
      InsertAllKeepsMembers(arr, front);
      InsertKeepsMembers(InsertAll(arr, front), x);
    }
  }

  /** One insertion of a fresh id: sorted afterwards exactly if sorted before and above the first id. */
  lemma InsertSortedExactly(arr: seq<Id>, x: Id)
    requires arr != [] && x !in arr
    ensures StrictlySorted(Insert(arr, x)) <==> StrictlySorted(arr) && arr[0] < x
  {
    if StrictlySorted(arr) {
      InsertSortsExactly(arr, x);
    } else {
      DisorderStays(arr, x);
    }
  }

  ghost predicate FirstIsLeast(order: seq<Id>) {
    forall i :: 0 < i < |order| ==> order[0] < order[i]
  }

  /** A ring grown from nothing by distinct ids is strictly sorted exactly if the first id added is the least. */
  lemma {:induction false} GrownRingIsSortedExactly(order: seq<Id>)
    requires order != [] && Distinct(order)
    ensures StrictlySorted(InsertAll([], order)) <==> FirstIsLeast(order)
    decreases |order|
  {
    var n := |order|;
    var front, x := order[..n - 1], order[n - 1];
    if n == 1 {
      assert InsertAll([], front) == [];
    } else {
      GrownRingIsSortedExactly(front);
      GrownRingKeepsFirst(front);
      InsertAllKeepsMembers([], front);
      FrontOfDistinct(order);
      InsertSortedExactly(InsertAll([], front), x);
    }
  }

  lemma FrontOfDistinct(order: seq<Id>)
    requires |order| > 1 && Distinct(order)
    ensures var n := |order| - 1;
      && order[n] !in order[..n] && Distinct(order[..n])
      && (FirstIsLeast(order) <==> FirstIsLeast(order[..n]) && order[0] < order[n])
  {
    var n := |order| - 1;
    if FirstIsLeast(order) {
      forall i | 0 < i < n ensures order[..n][0] < order[..n][i] {}
    }
    if FirstIsLeast(order[..n]) && order[0] < order[n] {
      forall i | 0 < i < |order| ensures order[0] < order[i] {
        if i < n { assert order[..n][i] == order[i]; }
      }
    }
  }

  lemma {:induction false} GrownRingKeepsFirst(order: seq<Id>)
    requires order != []
    ensures InsertAll([], order) != [] && InsertAll([], order)[0] == order[0]
    decreases |order|
  {
    var front := order[..|order| - 1];
    if front != [] {
      GrownRingKeepsFirst(front);
      InsertKeepsMembers(InsertAll([], front), order[|order| - 1]);
    } else {
      assert InsertAll([], front) == [];
    }
  }

  lemma DisorderStays(arr: seq<Id>, x: Id)
    requires arr != [] && !StrictlySorted(arr)
    ensures !StrictlySorted(Insert(arr, x))
  {
    SplicedDisorder(arr, x, IndexFor(arr, x) + 1);
  }

  lemma SplicedDisorder(arr: seq<Id>, x: Id, pos: nat)
    requires !StrictlySorted(arr) && pos <= |arr|
    ensures !StrictlySorted(arr[..pos] + [x] + arr[pos..])
  {
    var i, j :| 0 <= i < j < |arr| && arr[i] >= arr[j];
    var a, b := if i < pos then i else i + 1, if j < pos then j else j + 1;
    Spliced(arr, pos, x, i, a);
    Spliced(arr, pos, x, j, b);
  }

  lemma Spliced(arr: seq<Id>, pos: nat, x: Id, i: nat, a: nat)
    requires i < |arr| && pos <= |arr| && a == if i < pos then i else i + 1
    ensures (arr[..pos] + [x] + arr[pos..])[a] == arr[i]
  {
  }

  /** Two strictly sorted lists over the same ids are the same list. */
  lemma {:induction false} SortedListsAgree(a: seq<Id>, b: seq<Id>)
    requires StrictlySorted(a) && StrictlySorted(b)
    requires forall v :: v in a <==> v in b
    ensures a == b
    decreases |a|
  {
    if a == [] || b == [] {
      SameMembersEmpty(a, b);
      SameMembersEmpty(b, a);
    } else {
      var m, n := |a| - 1, |b| - 1;
      assert a[m] == b[n] by {
        assert a[m] in b && b[n] in a;
        var i :| 0 <= i < |b| && b[i] == a[m];
        var j :| 0 <= j < |a| && a[j] == b[n];
        assert b[i] <= b[n] && a[j] <= a[m];
      }
      forall v ensures v in a[..m] <==> v in b[..n] {
        InitMembers(a, v);
        InitMembers(b, v);
      }
      SortedListsAgree(a[..m], b[..n]);
      assert a == a[..m] + [a[m]] && b == b[..n] + [b[n]];
    }
  }

  lemma SameMembersEmpty(a: seq<Id>, b: seq<Id>)
    requires forall v :: v in a ==> v in b
    ensures b == [] ==> a == []
  {
    if a != [] {
      var v := a[0];
      assert v in b;
    }
  }

  lemma InitMembers(a: seq<Id>, v: Id)
    requires StrictlySorted(a) && a != []
    ensures v in a[..|a| - 1] <==> v in a && v != a[|a| - 1]
  {
    if v in a && v != a[|a| - 1] {
      var k :| 0 <= k < |a| && a[k] == v;
      assert a[..|a| - 1][k] == v;
    }
  }

  /** Two nodes that learnt the same distinct ids in different orders, each starting from the least,
      resolve every key hash to the same id. */
  lemma RingsAgree(order1: seq<Id>, order2: seq<Id>, t: Id)
    requires order1 != [] && order2 != [] && Distinct(order1) && Distinct(order2)
    requires multiset(order1) == multiset(order2)
    requires FirstIsLeast(order1) && FirstIsLeast(order2)
    ensures InsertAll([], order1) == InsertAll([], order2)
    ensures ClosestFor(InsertAll([], order1), t) == ClosestFor(InsertAll([], order2), t)
  {
    GrownRingIsSortedExactly(order1);
    GrownRingIsSortedExactly(order2);
    InsertAllKeepsMembers([], order1);
    InsertAllKeepsMembers([], order2);
    var a, b := InsertAll([], order1), InsertAll([], order2);
    assert multiset(a) == multiset(b);
    forall v ensures v in a <==> v in b {
      assert v in a <==> v in multiset(a);
      assert v in b <==> v in multiset(b);
    }
    SortedListsAgree(a, b);
  }

  /** A ring grown from the least id agrees on every key hash with another ring of the same ids exactly if
      the other one was grown from the least id too. */
  lemma RingsAgreeExactly(order1: seq<Id>, order2: seq<Id>)
    requires order1 != [] && order2 != [] && Distinct(order1) && Distinct(order2)
    requires multiset(order1) == multiset(order2) && FirstIsLeast(order2)
    ensures (forall t: Id :: ClosestFor(InsertAll([], order1), t) == ClosestFor(InsertAll([], order2), t))
        <==> FirstIsLeast(order1)
  {
    if FirstIsLeast(order1) {
      forall t: Id ensures ClosestFor(InsertAll([], order1), t) == ClosestFor(InsertAll([], order2), t) {
        RingsAgree(order1, order2, t);
      }
    } else {
      LeastIsUnique(order1, order2);
      GrownRingKeepsFirst(order1);
      GrownRingKeepsFirst(order2);
      var least := order2[0];
      assert ClosestFor(InsertAll([], order1), least) != ClosestFor(InsertAll([], order2), least);
    }
  }

  lemma LeastIsUnique(order1: seq<Id>, order2: seq<Id>)
    requires order1 != [] && order2 != [] && Distinct(order1) && multiset(order1) == multiset(order2)
    requires FirstIsLeast(order2) && !FirstIsLeast(order1)
    ensures order2[0] < order1[0]
  {
    assert order1[0] in multiset(order2);
    var j :| 0 <= j < |order2| && order2[j] == order1[0];
    var i :| 0 < i < |order1| && order1[0] >= order1[i];
    assert order1[i] in multiset(order2);
    var k :| 0 <= k < |order2| && order2[k] == order1[i];
  }

  // ---------------------------------------------------------------- minimal movement

  /** Consistent hashing: a node that joins takes keys over, but no key moves between the old nodes. */
  ghost predicate MovesOnlyToTheNewcomer(arr: seq<Id>, x: Id) {
    forall t: Id :: t !in arr && t != x ==>
      ClosestFor(Insert(arr, x), t) == ClosestFor(arr, t) || ClosestFor(Insert(arr, x), t) == x
  }

  /** The gap that the newcomer lands in is not too wide. Only in the widest gap of all, from the least id to
      the greatest, is there one place, next to the upper end, that does no harm. */
  predicate GapFits(low: Id, x: Id, high: Id) {
    high - low <= TWO_63 || (high - low == TWO_64 - 1 && x == high - 1)
  }

  /** A newcomer below the first id lands second. It gives keys of the first id to the second one if there is
      a hash in the lower half between these two that is nearer to the second id than to the newcomer: the
      candidate is the last hash of the lower half whose distance from the newcomer does not overflow. */
  predicate BelowFits(x: Id, first: Id, second: Id) {
    var gap, below := second - first, first - x;
    var k := if (gap - 1) / 2 <= TWO_63 - below - 1 then (gap - 1) / 2 else TWO_63 - below - 1;
    k < 1 || 2 * k < gap - below || k <= gap - TWO_63
  }

  ghost predicate JoinFits(arr: seq<Id>, x: Id)
    requires arr != []
  {
    if arr[0] < x then forall i :: 0 <= i < |arr| - 1 && arr[i] < x < arr[i + 1] ==> GapFits(arr[i], x, arr[i + 1])
    else |arr| == 1 || BelowFits(x, arr[0], arr[1])
  }

  /** When a join moves keys only to the newcomer, for every ring and every fresh id. */
  lemma JoinMovesOnlyToTheNewcomerExactly(arr: seq<Id>, x: Id)
    requires StrictlySorted(arr) && arr != [] && x !in arr
    ensures MovesOnlyToTheNewcomer(arr, x) <==> JoinFits(arr, x)
  {
    assert arr[0] in arr;
    if JoinFits(arr, x) {
      forall t: Id | t !in arr && t != x
        ensures ClosestFor(Insert(arr, x), t) == ClosestFor(arr, t) || ClosestFor(Insert(arr, x), t) == x
      {
        if arr[0] < x { JoinAboveMoves(arr, x, t); } else { JoinBelowMoves(arr, x, t); }
      }
    } else if arr[0] < x {
      JoinAboveTears(arr, x);
    } else {
      JoinBelowTears(arr, x);
    }
  }

  lemma JoinAboveMoves(arr: seq<Id>, x: Id, t: Id)
    requires StrictlySorted(arr) && arr != [] && x !in arr && arr[0] < x && JoinFits(arr, x)
    requires t !in arr && t != x
    ensures ClosestFor(Insert(arr, x), t) == ClosestFor(arr, t) || ClosestFor(Insert(arr, x), t) == x
  {
    var n := |arr|;
    assert arr[0] in arr && arr[n - 1] in arr;
    if arr[0] < t < arr[n - 1] {
      JoinInsideMoves(arr, x, t);
    } else if arr[n - 1] < t < x {
      BetweenLastAndNewcomer(arr, x, t);
    } else {
      JoinOutsideMoves(arr, x, t);
    }
  }

  lemma JoinInsideMoves(arr: seq<Id>, x: Id, t: Id)
    requires StrictlySorted(arr) && arr != [] && x !in arr && arr[0] < x && JoinFits(arr, x)
    requires t !in arr && t != x && arr[0] < t < arr[|arr| - 1]
    ensures ClosestFor(Insert(arr, x), t) == ClosestFor(arr, t) || ClosestFor(Insert(arr, x), t) == x
  {
    AbsentIndexIsPredecessor(arr, x);
    var i := InteriorBracket(arr, t);
    if i == IndexFor(arr, x) {
      SplitGap(arr, x, i, t);
      SplitGapKeeps(arr[i], x, arr[i + 1], t);
    } else {
      OtherGap(arr, x, i, t);
    }
  }

  lemma BetweenLastAndNewcomer(arr: seq<Id>, x: Id, t: Id)
    requires StrictlySorted(arr) && arr != [] && arr[|arr| - 1] < t < x
    ensures ClosestFor(Insert(arr, x), t) == ClosestFor(arr, t) || ClosestFor(Insert(arr, x), t) == x
  {
    var n := |arr|;
    assert arr[0] <= arr[n - 1];
    LastInsert(arr, x);
    forall v | v in arr ensures v < t {
      var k :| 0 <= k < n && arr[k] == v;
      assert k == n - 1 || arr[k] < arr[n - 1];
    }
    JoinAboveTheTop(arr, x, t);
  }

  /** Outside the old ring and not before a new last id, an end answers. */
  lemma JoinOutsideMoves(arr: seq<Id>, x: Id, t: Id)
    requires StrictlySorted(arr) && arr != [] && x !in arr && arr[0] < x && t !in arr && t != x
    requires !(arr[0] < t < arr[|arr| - 1]) && !(arr[|arr| - 1] < t < x)
    ensures ClosestFor(Insert(arr, x), t) == ClosestFor(arr, t) || ClosestFor(Insert(arr, x), t) == x
  {
    var n := |arr|;
    assert arr[0] in arr && arr[n - 1] in arr;
    InsertKeepsMembers(arr, x);
    AbsentIndexIsPredecessor(arr, x);
  }

  /** In the gap that the newcomer splits, one of the two new pairs decides. */
  lemma SplitGap(arr: seq<Id>, x: Id, i: nat, t: Id)
    requires StrictlySorted(arr) && i + 1 < |arr| && arr[i] < x < arr[i + 1] && arr[i] < t < arr[i + 1] && t != x
    ensures ClosestFor(Insert(arr, x), t) == if t < x then GetClosest(t, arr[i], x) else GetClosest(t, x, arr[i + 1])
  {
    InsertInGap(arr, x, i);
    ClosestInGap(Insert(arr, x), t, if t < x then i else i + 1);
  }

  lemma InsertInGap(arr: seq<Id>, x: Id, i: nat)
    requires StrictlySorted(arr) && i + 1 < |arr| && arr[i] < x < arr[i + 1]
    ensures IndexFor(arr, x) == i && Insert(arr, x) == arr[..i + 1] + [x] + arr[i + 1..]
    ensures StrictlySorted(Insert(arr, x)) && Insert(arr, x)[i..i + 3] == [arr[i], x, arr[i + 1]]
  {
    AbsentBetween(arr, x, i);
    assert arr[0] <= arr[i];
    AbsentIndexIsPredecessor(arr, x);
    InsertAbove(arr, x);
  }

  lemma OtherGap(arr: seq<Id>, x: Id, i: nat, t: Id)
    requires StrictlySorted(arr) && x !in arr && arr != [] && arr[0] < x && i != IndexFor(arr, x)
    requires i + 1 < |arr| && arr[i] < t < arr[i + 1]
    ensures ClosestFor(Insert(arr, x), t) == ClosestFor(arr, t)
  {
    var r, s := IndexFor(arr, x), Insert(arr, x);
    InsertAbove(arr, x);
    assert s == arr[..r + 1] + [x] + arr[r + 1..];
    ClosestInGap(arr, t, i);
    if i < r {
      assert s[i] == arr[i] && s[i + 1] == arr[i + 1];
      ClosestInGap(s, t, i);
    } else {
      assert s[i + 1] == arr[i] && s[i + 2] == arr[i + 1];
      ClosestInGap(s, t, i + 1);
    }
  }

  lemma SplitGapKeeps(low: Id, x: Id, high: Id, t: Id)
    requires low < x < high && low < t < high && t != x && GapFits(low, x, high)
    ensures var after := if t < x then GetClosest(t, low, x) else GetClosest(t, x, high);
      after == GetClosest(t, low, high) || after == x
  {
    GetClosestExact(t, low, high);
    if t < x { GetClosestExact(t, low, x); } else { GetClosestExact(t, x, high); }
  }

  /** A hash that a newcomer in too wide a gap moves from one end of the gap to the other. */
  lemma SplitGapTears(low: Id, x: Id, high: Id) returns (t: Id)
    requires low < x < high && !GapFits(low, x, high)
    ensures low < t < high && t != x
    ensures var after := if t < x then GetClosest(t, low, x) else GetClosest(t, x, high);
      after != GetClosest(t, low, high) && after != x
  {
    var left := x - low;
    if left <= 2 {
      t := if left == 2 && high - low == TWO_64 - 1 then low + TWO_63 + 1 else low + TWO_63;
      GetClosestExact(t, x, high);
    } else {
      t := if left <= TWO_63 then low + 1 else low + (left - TWO_63 + 1);
      GetClosestExact(t, low, x);
    }
    GetClosestExact(t, low, high);
  }

  lemma JoinAboveTears(arr: seq<Id>, x: Id)
    requires StrictlySorted(arr) && arr != [] && x !in arr && arr[0] < x && !JoinFits(arr, x)
    ensures !MovesOnlyToTheNewcomer(arr, x)
  {
    var i :| 0 <= i < |arr| - 1 && arr[i] < x < arr[i + 1] && !GapFits(arr[i], x, arr[i + 1]);
    var t := SplitGapTears(arr[i], x, arr[i + 1]);
    ClosestInGap(arr, t, i);
    SplitGap(arr, x, i, t);
  }

  /** Below the first id, only hashes between the first two ids are compared anew. */
  lemma ClosestAfterBelow(arr: seq<Id>, x: Id, t: Id)
    requires StrictlySorted(arr) && |arr| > 1 && x < arr[0] && t !in arr && t != x
    ensures ClosestFor(Insert(arr, x), t)
         == if arr[0] < t < arr[1] then GetClosest(t, x, arr[1]) else ClosestFor(arr, t)
  {
    var n, s := |arr|, Insert(arr, x);
    assert arr[0] in arr && arr[n - 1] in arr;
    InsertBelow(arr, x);
    InsertKeepsMembers(arr, x);
    assert s[n] == arr[n - 1];
    if arr[0] < t < arr[n - 1] {
      var j := InteriorBracket(s, t);
      assert j != 0;
      if j == 1 {
        assert s[2] == arr[1];
      } else {
        assert s[j] == arr[j - 1] && s[j + 1] == arr[j];
        ClosestInGap(arr, t, j - 1);
        assert arr[1] <= arr[j - 1];
      }
    }
  }

  lemma JoinBelowMoves(arr: seq<Id>, x: Id, t: Id)
    requires StrictlySorted(arr) && arr != [] && x < arr[0] && JoinFits(arr, x)
    requires t !in arr && t != x
    ensures ClosestFor(Insert(arr, x), t) == ClosestFor(arr, t) || ClosestFor(Insert(arr, x), t) == x
  {
    if |arr| == 1 {
      InsertBelow(arr, x);
    } else {
      ClosestAfterBelow(arr, x, t);
      if arr[0] < t < arr[1] {
        ClosestInGap(arr, t, 0);
        BelowKeeps(x, arr[0], arr[1], t);
      }
    }
  }

  lemma BelowKeeps(x: Id, first: Id, second: Id, t: Id)
    requires x < first < t < second && BelowFits(x, first, second)
    ensures GetClosest(t, x, second) == GetClosest(t, first, second) || GetClosest(t, x, second) == x
  {
    GetClosestExact(t, x, second);
    GetClosestExact(t, first, second);
  }

  lemma JoinBelowTears(arr: seq<Id>, x: Id)
    requires StrictlySorted(arr) && arr != [] && x !in arr && x < arr[0] && !JoinFits(arr, x)
    ensures !MovesOnlyToTheNewcomer(arr, x)
  {
    var t := BelowTears(x, arr[0], arr[1]);
    ClosestInGap(arr, t, 0);
    ClosestAfterBelow(arr, x, t);
  }

  /** A hash that a newcomer below the first id moves from the first id to the second. */
  lemma BelowTears(x: Id, first: Id, second: Id) returns (t: Id)
    requires x < first < second && !BelowFits(x, first, second)
    ensures first < t < second
    ensures GetClosest(t, first, second) == first && GetClosest(t, x, second) == second
  {
    var gap, below := second - first, first - x;
    t := first + if (gap - 1) / 2 <= TWO_63 - below - 1 then (gap - 1) / 2 else TWO_63 - below - 1;
    GetClosestExact(t, x, second);
    GetClosestExact(t, first, second);
  }

  lemma AllBelow(arr: seq<Id>, t: Id, i: nat)
    requires i < |arr| && forall v :: v in arr ==> v < t
    ensures arr[i] < t
  {
    assert arr[i] in arr;
  }

  lemma JoinAboveTheTop(arr: seq<Id>, x: Id, t: Id)
    requires arr != [] && t < x && forall v :: v in arr ==> v < t
    ensures ClosestFor(arr, t) == arr[|arr| - 1]
    ensures ClosestFor(arr + [x], t) in {arr[|arr| - 1], x}
  {
    var n, s := |arr|, arr + [x];
    assert arr[0] in arr && arr[n - 1] in arr;
    assert s[0] == arr[0] && s[n] == x;
    var i := InteriorBracket(s, t);
    if i + 1 < n { AllBelow(arr, t, i + 1); }
  }

  lemma LastInsert(arr: seq<Id>, x: Id)
    requires arr != [] && arr[|arr| - 1] < x && arr[0] < x
    ensures Insert(arr, x) == arr + [x]
  {
    assert IndexFor(arr, x) == |arr| - 1;
  }

  // ---------------------------------------------------------------- removal

  /** What RemoveNode leaves in the id list. */
  function Remove(arr: seq<Id>, x: Id): seq<Id>
    requires arr != []
  {
    var i := IndexFor(arr, x);
    arr[..i] + arr[i + 1..]
  }

  /** Removing a member drops that member exactly if it is locatable; otherwise it drops a neighbour. */
  lemma RemoveExact(arr: seq<Id>, p: nat)
    requires StrictlySorted(arr) && p < |arr|
    ensures StrictlySorted(Remove(arr, arr[p]))
    ensures (forall v :: v in Remove(arr, arr[p]) <==> v in arr && v != arr[p]) <==> Locatable(|arr|, p)
    ensures !Locatable(|arr|, p) ==> arr[p] in Remove(arr, arr[p])
    ensures !Locatable(|arr|, p) ==>
      var q := if EndsLeft(0, |arr| - 1, p) then p + 1 else p - 1;
      0 <= q < |arr| && forall v :: v in Remove(arr, arr[p]) <==> v in arr && v != arr[q]
  {
    PresentIndexExact(arr, p);
    if !Locatable(|arr|, p) { MissedIndexExact(arr, p); }
    var i := IndexFor(arr, arr[p]);
    var s := Remove(arr, arr[p]);
    forall v ensures v in s <==> v in arr && v != arr[i] {
      WithoutIndex(arr, i, v);
    }
    assert arr[p] in arr;
  }

  lemma WithoutIndex(arr: seq<Id>, i: nat, v: Id)
    requires StrictlySorted(arr) && i < |arr|
    ensures v in arr[..i] + arr[i + 1..] <==> v in arr && v != arr[i]
  {
    var s := arr[..i] + arr[i + 1..];
    if v in arr && v != arr[i] {
      var k :| 0 <= k < |arr| && arr[k] == v;
      assert s[if k < i then k else k - 1] == v;
    }
  }

  /** On [1, 3, 5, 7, 9] the search for 3 falls through with a stale midpoint: it answers index 0, lookups of
      3 answer that index, and removing 3 drops 1. */
  lemma FallThroughExample()
    ensures IndexFor([1, 3, 5, 7, 9], 3) == 0 && ClosestFor([1, 3, 5, 7, 9], 3) == 0
    ensures Remove([1, 3, 5, 7, 9], 3) == [3, 5, 7, 9]
  {
    var arr: seq<Id> := [1, 3, 5, 7, 9];
    assert Bisect(arr, 3, 1, 1, 0) == Stale(0);
    assert Bisect(arr, 3, 0, 1, 2) == Stale(0);
    assert Bisect(arr, 3, 0, 4, 0) == Stale(0);
  }

  /** Every member of a sorted ring can be removed correctly exactly if the ring has at most four ids. */
  lemma RemovalIsCorrectExactlyUpToFour(arr: seq<Id>)
    requires StrictlySorted(arr)
    ensures (forall x :: x in arr ==> (forall v :: v in Remove(arr, x) <==> v in arr && v != x)) <==> |arr| <= 4
  {
    LocatableExactlyUpToFour(|arr|);
    if |arr| <= 4 {
      forall x | x in arr ensures forall v :: v in Remove(arr, x) <==> v in arr && v != x {
        var p :| 0 <= p < |arr| && arr[p] == x;
        assert Locatable(|arr|, p);
        RemoveExact(arr, p);
      }
    } else {
      var p :| 0 <= p < |arr| && !Locatable(|arr|, p);
      RemoveExact(arr, p);
      assert arr[p] in arr;
    }
  }
}

/** The two binary searches of the hash ring and the wrapping comparison they share. */
module RingSearch {
  import opened Int64

  predicate StrictlySorted(s: seq<Id>) {
    forall i, j :: 0 <= i < j < |s| ==> s[i] < s[j]
  }

  /** The way a search loop ends: on the target, on a peeked neighbour pair, or by falling through. */
  datatype Outcome = Hit(index: nat) | Between(left: nat) | Stale(mid: nat)

  /** The loop that both searches share, started on the interval [low, high] with the last midpoint. */
  function Bisect(arr: seq<Id>, target: Id, low: int, high: int, mid: nat): Outcome
    requires 0 <= low && high < |arr| && mid < |arr|
    decreases high - low
  {
    if low >= high then Stale(mid)
    else
      var m := (low + high) / 2;
      if arr[m] == target then Hit(m)
      else if target < arr[m] then
        if m > 0 && target > arr[m - 1] then Between(m - 1)
        else Bisect(arr, target, low, m - 1, m)
      else
        if m < |arr| - 1 && target < arr[m + 1] then Between(m)
        else Bisect(arr, target, m + 1, high, m)
  }

  /** On any list, sorted or not, the loop ends on a hit, on a bracketing neighbour pair, or in range. */
  lemma {:induction false} BisectEnds(arr: seq<Id>, target: Id, low: int, high: int, mid: nat)
    requires 0 <= low && high < |arr| && mid < |arr|
    ensures EndsWell(arr, target, Bisect(arr, target, low, high, mid))
    decreases high - low
  {
    if low < high {
      var m := (low + high) / 2;
      BisectEnds(arr, target, low, m - 1, m);
      BisectEnds(arr, target, m + 1, high, m);
    }
  }

  predicate EndsWell(arr: seq<Id>, target: Id, o: Outcome) {
    match o
    case Hit(i) => i < |arr| && arr[i] == target
    case Between(i) => i + 1 < |arr| && arr[i] < target < arr[i + 1]
    case Stale(m) => m < |arr|
  }

  function IndexOfOutcome(o: Outcome): nat {
    match o
    case Hit(i) => i
    case Between(i) => i
    case Stale(m) => m
  }

  /** What findIndex answers. */
  function IndexFor(arr: seq<Id>, target: Id): (r: nat)
    ensures if arr == [] then r == 0 else r < |arr|
  {
    var n := |arr|;
    if n == 0 || target <= arr[0] then 0
    else if target >= arr[n - 1] then n - 1
    else
      BisectEnds(arr, target, 0, n - 1, 0);
      IndexOfOutcome(Bisect(arr, target, 0, n - 1, 0))
  }

  /** What findClosestElement answers; on a fall-through it is an index, not an id. */
  function ClosestFor(arr: seq<Id>, target: Id): int {
    var n := |arr|;
    if n == 0 then 0
    else if target <= arr[0] then arr[0]
    else if target >= arr[n - 1] then arr[n - 1]
    else
      BisectEnds(arr, target, 0, n - 1, 0);
      ClosestOfOutcome(arr, target, Bisect(arr, target, 0, n - 1, 0))
  }

  function ClosestOfOutcome(arr: seq<Id>, target: Id, o: Outcome): int
    requires EndsWell(arr, target, o)
  {
    match o
    case Hit(i) => arr[i]
    case Between(i) => GetClosest(target, arr[i], arr[i + 1])
    case Stale(m) => m
  }

  function GetClosest(target: Id, val1: Id, val2: Id): Id {
    if Wrap(target - val1) >= Wrap(val2 - target) then val2 else val1
  }

  /** The unbounded answer: the nearer of the two, the upper one on a tie. */
  function NearerOf(target: int, val1: int, val2: int): int
    requires val1 < target < val2
  {
    if target - val1 >= val2 - target then val2 else val1
  }

  method FindIndex(arr: seq<Id>, target: Id) returns (r: nat)
    ensures r == IndexFor(arr, target)
    ensures if arr == [] then r == 0 else r < |arr|
  {
    var n := |arr|;
    if n == 0 {
      return 0;
    }
    if target <= arr[0] {
      return 0;
    }
    if target >= arr[n - 1] {
      return n - 1;
    }
    var low, high, mid := 0, n - 1, 0;
    ghost var outcome := Bisect(arr, target, low, high, mid);
    BisectEnds(arr, target, low, high, mid);
    assert IndexFor(arr, target) == IndexOfOutcome(outcome);
    while low < high
      invariant 0 <= low && high < n && 0 <= mid < n
      invariant Bisect(arr, target, low, high, mid) == outcome
    {
      mid := (low + high) / 2;
      assert low <= mid < high;
      if arr[mid] == target {
        return mid;
      }
      if target < arr[mid] {
        if mid > 0 && target > arr[mid - 1] {
          return mid - 1;
        }
        high := mid - 1;
      } else if target > arr[mid] {
        if mid < n - 1 && target < arr[mid + 1] {
          return mid;
        }
        low := mid + 1;
      }
    }
    return mid;
  }

  method FindClosestElement(arr: seq<Id>, target: Id) returns (r: int)
    ensures r == ClosestFor(arr, target)
  {
    var n := |arr|;
    if n == 0 {
      return 0;
    }
    if target <= arr[0] {
      return arr[0];
    }
    if target >= arr[n - 1] {
      return arr[n - 1];
    }
    var low, high, mid := 0, n - 1, 0;
    ghost var outcome := Bisect(arr, target, low, high, mid);
    BisectEnds(arr, target, low, high, mid);
    assert ClosestFor(arr, target) == ClosestOfOutcome(arr, target, outcome);
    while low < high
      invariant 0 <= low && high < n && 0 <= mid < n
      invariant Bisect(arr, target, low, high, mid) == outcome
    {
      mid := (low + high) / 2;
      assert low <= mid < high;
      if arr[mid] == target {
        assert outcome == Hit(mid);
        return arr[mid];
      }
      if target < arr[mid] {
        if mid > 0 && target > arr[mid - 1] {
          assert outcome == Between(mid - 1);
          return GetClosest(target, arr[mid - 1], arr[mid]);
        }
        high := mid - 1;
      } else if target > arr[mid] {
        if mid < n - 1 && target < arr[mid + 1] {
          assert outcome == Between(mid);
          return GetClosest(target, arr[mid], arr[mid + 1]);
        }
        low := mid + 1;
      }
    }
    return mid;
  }

  // ---------------------------------------------------------------- targets that are not in the list

  /** The search for an absent target between its ends always ends on a bracketing pair. */
  lemma {:induction false} AbsentIsBracketed(arr: seq<Id>, target: Id, low: int, high: int, mid: nat)
    requires target !in arr
    requires 0 <= low <= high < |arr| && mid < |arr|
    requires arr[low] < target < arr[high]
    ensures Bisect(arr, target, low, high, mid).Between?
    decreases high - low
  {
    var m := (low + high) / 2;
    assert arr[m] in arr;
    if target < arr[m] {
      assert m > 0 && arr[m - 1] in arr;
      if target <= arr[m - 1] {
        AbsentIsBracketed(arr, target, low, m - 1, m);
      }
    } else {
      assert m < |arr| - 1 && arr[m + 1] in arr;
      if target >= arr[m + 1] {
        AbsentIsBracketed(arr, target, m + 1, high, m);
      }
    }
  }

  /** A bracketing pair of a strictly sorted list is unique. */
  lemma BracketIsUnique(arr: seq<Id>, target: Id, i: nat, j: nat)
    requires StrictlySorted(arr) && i + 1 < |arr| && j + 1 < |arr|
    requires arr[i] < target < arr[i + 1] && arr[j] < target < arr[j + 1]
    ensures i == j
  {
  }

  /** findIndex on an absent target above the first id answers its predecessor. */
  lemma AbsentIndexIsPredecessor(arr: seq<Id>, target: Id)
    requires arr != [] && target !in arr && arr[0] < target
    ensures var r := IndexFor(arr, target);
      arr[r] < target && (r + 1 < |arr| ==> target < arr[r + 1])
  {
    var n := |arr|;
    assert arr[n - 1] in arr;
    if target < arr[n - 1] {
      BisectEnds(arr, target, 0, n - 1, 0);
      AbsentIsBracketed(arr, target, 0, n - 1, 0);
    }
  }

  // ---------------------------------------------------------------- targets that are in the list

  /** Whether halving [low, high] makes `p` a midpoint before the interval has shrunk to `p` alone. */
  predicate Lands(low: int, high: int, p: int)
    decreases high - low
  {
    low < high &&
    var m := (low + high) / 2;
    p == m || (if p < m then Lands(low, m - 1, p) else Lands(m + 1, high, p))
  }

  /** `target` stands at position `p` alone, with the smaller ids on its left and the larger on its right. */
  ghost predicate StandsAt(arr: seq<Id>, target: Id, p: nat)
    requires p < |arr|
  {
    && arr[p] == target
    && (forall i :: 0 <= i < p ==> arr[i] < target)
    && (forall i :: p < i < |arr| ==> target < arr[i])
  }

  lemma BisectGoesLeft(arr: seq<Id>, target: Id, p: nat, low: int, high: int, mid: nat)
    requires p < |arr| && mid < |arr| && StandsAt(arr, target, p)
    requires 0 <= low <= p < (low + high) / 2 <= high < |arr|
    ensures var m := (low + high) / 2;
      Bisect(arr, target, low, high, mid) == Bisect(arr, target, low, m - 1, m)
  {
  }

  lemma BisectGoesRight(arr: seq<Id>, target: Id, p: nat, low: int, high: int, mid: nat)
    requires p < |arr| && mid < |arr| && StandsAt(arr, target, p)
    requires 0 <= low <= (low + high) / 2 < p <= high < |arr|
    ensures var m := (low + high) / 2;
      Bisect(arr, target, low, high, mid) == Bisect(arr, target, m + 1, high, m)
  {
  }

  /** Whether the last halving before the interval has shrunk to `p` goes to the left. */
  predicate EndsLeft(low: int, high: int, p: int)
    decreases high - low
  {
    low < high &&
    var m := (low + high) / 2;
    if p < m then m - 1 <= low || EndsLeft(low, m - 1, p)
    else p > m && m + 1 < high && EndsLeft(m + 1, high, p)
  }

  /** The search for the id at `p` hits it exactly if halving lands on `p`; else it is off by one. */
  lemma {:induction false} PresentOutcome(arr: seq<Id>, target: Id, p: nat, low: int, high: int, mid: nat)
    requires p < |arr| && mid < |arr| && StandsAt(arr, target, p)
    requires 0 <= low <= p <= high < |arr|
    requires low < high || mid == p + 1 || mid == p - 1
    ensures Lands(low, high, p) ==> Bisect(arr, target, low, high, mid) == Hit(p)
    ensures !Lands(low, high, p) ==>
      || Bisect(arr, target, low, high, mid) == Stale(p + 1)
      || (p > 0 && Bisect(arr, target, low, high, mid) == Stale(p - 1))
    decreases high - low
  {
    if low < high {
      var m := (low + high) / 2;
      if p < m {
        BisectGoesLeft(arr, target, p, low, high, mid);
        PresentOutcome(arr, target, p, low, m - 1, m);
      } else if p > m {
        BisectGoesRight(arr, target, p, low, high, mid);
        PresentOutcome(arr, target, p, m + 1, high, m);
      }
    }
  }

  /** A search that falls through ends right of the id if the last halving went left, and left of it otherwise. */
  lemma {:induction false} FallsThroughBeside(arr: seq<Id>, target: Id, p: nat, low: int, high: int, mid: nat)
    requires p < |arr| && mid < |arr| && StandsAt(arr, target, p)
    requires 0 <= low <= p <= high < |arr| && low < high && !Lands(low, high, p)
    ensures Bisect(arr, target, low, high, mid).Stale?
    ensures Bisect(arr, target, low, high, mid).mid == if EndsLeft(low, high, p) then p + 1 else p - 1
    decreases high - low
  {
    var m := (low + high) / 2;
    if p < m {
      BisectGoesLeft(arr, target, p, low, high, mid);
      if low < m - 1 { FallsThroughBeside(arr, target, p, low, m - 1, m); }
    } else {
      BisectGoesRight(arr, target, p, low, high, mid);
      if m + 1 < high { FallsThroughBeside(arr, target, p, m + 1, high, m); }
    }
  }

  /** The ids that findIndex locates: both ends, and the positions that halving lands on. */
  predicate Locatable(n: nat, p: nat) {
    p == 0 || p == n - 1 || Lands(0, n - 1, p)
  }

  /** findIndex on a member: its own index exactly if it is locatable, otherwise off by exactly one. */
  lemma PresentIndexExact(arr: seq<Id>, p: nat)
    requires StrictlySorted(arr) && p < |arr|
    ensures IndexFor(arr, arr[p]) == p <==> Locatable(|arr|, p)
    ensures !Locatable(|arr|, p) ==> Dist(IndexFor(arr, arr[p]), p) == 1
  {
    if 0 < p < |arr| - 1 {
      PresentOutcome(arr, arr[p], p, 0, |arr| - 1, 0);
    }
  }

  /** Which neighbour findIndex answers for a member that it does not locate. */
  lemma MissedIndexExact(arr: seq<Id>, p: nat)
    requires StrictlySorted(arr) && p < |arr| && !Locatable(|arr|, p)
    ensures IndexFor(arr, arr[p]) == if EndsLeft(0, |arr| - 1, p) then p + 1 else p - 1
  {
    FallsThroughBeside(arr, arr[p], p, 0, |arr| - 1, 0);
  }

  /** findClosestElement on a member: the member itself if it is locatable, otherwise a list index. */
  lemma PresentClosestExact(arr: seq<Id>, p: nat)
    requires StrictlySorted(arr) && p < |arr|
    ensures Locatable(|arr|, p) ==> ClosestFor(arr, arr[p]) == arr[p]
    ensures !Locatable(|arr|, p) ==>
      ClosestFor(arr, arr[p]) == IndexFor(arr, arr[p]) && Dist(ClosestFor(arr, arr[p]), p) == 1
  {
    if 0 < p < |arr| - 1 {
      PresentOutcome(arr, arr[p], p, 0, |arr| - 1, 0);
    }
  }

  /** Every interval holds a position that halving misses; an interval of two or more, one right of its left end. */
  lemma {:induction false} SomePositionIsMissed(low: int, high: int) returns (p: int)
    requires low <= high
    ensures low <= p <= high && !Lands(low, high, p)
    ensures low < high ==> low < p
    decreases high - low
  {
    if low == high {
      p := low;
    } else {
      var m := (low + high) / 2;
      p := SomePositionIsMissed(m + 1, high);
    }
  }

  /** Every id of a ring is locatable exactly if the ring has at most four ids. */
  lemma LocatableExactlyUpToFour(n: nat)
    ensures (forall p :: 0 <= p < n ==> Locatable(n, p)) <==> n <= 4
  {
    if n <= 4 {
      forall p | 0 <= p < n ensures Locatable(n, p) {
        if 0 < p < n - 1 {
          assert p == 1 || p == 2;
        }
      }
    } else {
      var m := (n - 1) / 2;
      var p := SomePositionIsMissed(0, m - 1);
      assert !Locatable(n, p);
    }
  }

  // ---------------------------------------------------------------- the wrapping comparison

  /** getClosest is the unbounded nearest exactly if neither difference overflows; otherwise the farther. */
  lemma GetClosestExact(target: Id, val1: Id, val2: Id)
    requires val1 < target < val2
    ensures GetClosest(target, val1, val2) == NearerOf(target, val1, val2)
        <==> target - val1 < TWO_63 && val2 - target < TWO_63
    ensures !(target - val1 < TWO_63 && val2 - target < TWO_63) ==>
      GetClosest(target, val1, val2) == if target - val1 > val2 - target then val1 else val2
  {
    WrapOfDifference(target - val1);
    WrapOfDifference(val2 - target);
  }
}

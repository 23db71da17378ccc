/**
  The pending ranges of the iterative quicksort: the `(low, high)` pairs on its
  explicit stack, bottom first. A pop partitions one range and pushes the parts
  on either side of the pivot that still hold two or more elements. The lemmas
  here carry the loop invariant across one such step.

  Two conventions keep these proofs small. The cost still owed, `SumIter`, takes
  the per-range cost as a function parameter `cost`; it is always `IterCount`,
  which `IterationStep` and the methods that call it require as
  `forall s :: cost(s) == IterCount(s)`, but below that point the lemmas see only
  the facts about `cost` they are handed and never unfold `IterCount` and the
  partition behind it. Likewise the pivot's array index `p` is passed next to
  its offset `q` in the popped range, with `requires p == lo + q`, so that no
  lemma has to rediscover the sum.
*/
module PendingRanges {
  import opened SortSpec

  /** Range `r` (bounds inclusive) holds both positions. */
  ghost predicate Covers(r: (int, int), x: int, y: int) {
    r.0 <= x && y <= r.1
  }

  /** Some pending range holds both positions. */
  ghost predicate InSame(rs: seq<(int, int)>, x: int, y: int) {
    exists k :: 0 <= k < |rs| && Covers(rs[k], x, y)
  }

  /**
    Every pending range lies in `low..high` and holds two or more elements,
    and each one misses every range pushed before it.
  */
  ghost predicate RangesOk(rs: seq<(int, int)>, low: int, high: int)
    decreases |rs|
  {
    |rs| == 0 ||
    var below, r := rs[..|rs| - 1], rs[|rs| - 1];
    && RangesOk(below, low, high)
    && low <= r.0 < r.1 <= high
    && forall k :: 0 <= k < |below| ==> below[k].1 < r.0 || r.1 < below[k].0
  }

  /** Two positions of `low..high` that no pending range holds are already in order. */
  ghost predicate SortedOutside(a: seq<int>, rs: seq<(int, int)>, low: int, high: int)
    requires 0 <= low && high < |a|
  {
    forall x, y {:trigger InSame(rs, x, y)} :: low <= x < y <= high && !InSame(rs, x, y) ==> a[x] <= a[y]
  }

  /** The elements of `a` in range `r`, or none when the range does not fit in `a`. */
  function Slice(a: seq<int>, r: (int, int)): seq<int> {
    if 0 <= r.0 <= r.1 < |a| then a[r.0..r.1 + 1] else []
  }

  /** Total number of positions the pending ranges hold. */
  function SumSizes(rs: seq<(int, int)>): int {
    if |rs| == 0 then 0
    else SumSizes(rs[..|rs| - 1]) + (rs[|rs| - 1].1 - rs[|rs| - 1].0 + 1)
  }

  /**
    Total `cost` of the pending ranges' contents; with `IterCount` as the cost,
    what the iterative variant will still add to its counter.
  */
  ghost function SumIter(a: seq<int>, rs: seq<(int, int)>, cost: seq<int> -> nat): int {
    if |rs| == 0 then 0
    else SumIter(a, rs[..|rs| - 1], cost) + cost(Slice(a, rs[|rs| - 1]))
  }

  /** The stack after popping `(lo, hi)`, partitioning it at `p` and pushing the parts of two or more elements. */
  function Pushed(rs: seq<(int, int)>, lo: int, hi: int, p: int): seq<(int, int)> {
    var withLeft := if p - 1 > lo then rs + [(lo, p - 1)] else rs;
    if p + 1 < hi then withLeft + [(p + 1, hi)] else withLeft
  }

  /** The stack holds two slots per range, so ranges of two or more elements fit in a stack of `SumSizes` slots. */
  lemma {:induction false} TwoSlotsPerRange(rs: seq<(int, int)>, low: int, high: int)
    requires RangesOk(rs, low, high)
    ensures 2 * |rs| <= SumSizes(rs)
    decreases |rs|
  {
    if |rs| > 0 {
      TwoSlotsPerRange(rs[..|rs| - 1], low, high);
    }
  }

  lemma {:induction false} SumSizesAppend(rs: seq<(int, int)>, r: (int, int))
    ensures SumSizes(rs + [r]) == SumSizes(rs) + (r.1 - r.0 + 1)
  {
    assert (rs + [r])[..|rs|] == rs;
  }

  lemma {:induction false} SumIterAppend(a: seq<int>, rs: seq<(int, int)>, r: (int, int), cost: seq<int> -> nat)
    ensures SumIter(a, rs + [r], cost) == SumIter(a, rs, cost) + cost(Slice(a, r))
  {
    assert (rs + [r])[..|rs|] == rs;
  }

  /** Changing `a` only inside `lo..hi` leaves the count still owed for ranges disjoint from it. */
  lemma {:induction false} SumIterFrame(a: seq<int>, b: seq<int>, rs: seq<(int, int)>, lo: int, hi: int,
                                        cost: seq<int> -> nat)
    requires 0 <= lo <= hi < |a| == |b|
    requires b[..lo] == a[..lo] && b[hi + 1..] == a[hi + 1..]
    requires forall k :: 0 <= k < |rs| ==> rs[k].1 < lo || hi < rs[k].0
    ensures SumIter(a, rs, cost) == SumIter(b, rs, cost)
  {
    if |rs| > 0 {
      var init, r := rs[..|rs| - 1], rs[|rs| - 1];
      assert forall k :: 0 <= k < |init| ==> init[k] == rs[k];
      SumIterFrame(a, b, init, lo, hi, cost);
      if 0 <= r.0 <= r.1 < |a| {
        forall k | r.0 <= k <= r.1 ensures a[k] == b[k] {
          if r.1 < lo {
            assert a[k] == a[..lo][k] && b[k] == b[..lo][k];
          } else {
            assert a[k] == a[hi + 1..][k - hi - 1] && b[k] == b[hi + 1..][k - hi - 1];
          }
        }
        assert Slice(a, r) == Slice(b, r);
      }
    }
  }

  /** The ranges left below the popped one are well formed and do not meet it. */
  lemma {:induction false} PoppedDisjoint(rs: seq<(int, int)>, lo: int, hi: int, low: int, high: int)
    requires RangesOk(rs + [(lo, hi)], low, high)
    ensures low <= lo < hi <= high
    ensures RangesOk(rs, low, high)
    ensures forall k :: 0 <= k < |rs| ==> rs[k].1 < lo || hi < rs[k].0
  {
    assert (rs + [(lo, hi)])[..|rs|] == rs;
  }

  /** A position inside the popped range and one outside it are never in the same pending range. */
  lemma NotSameAcross(rs: seq<(int, int)>, lo: int, hi: int, x: int, y: int)
    requires forall k :: 0 <= k < |rs| ==> rs[k].1 < lo || hi < rs[k].0
    requires x < y && (lo <= x <= hi) != (lo <= y <= hi)
    ensures !InSame(rs + [(lo, hi)], x, y)
  {
    var all := rs + [(lo, hi)];
    forall k | 0 <= k < |all| ensures !Covers(all[k], x, y) {
      if k < |rs| {
        assert all[k] == rs[k];
      }
    }
  }

  /** A well-formed range that meets none of the pending ones can be pushed. */
  lemma {:induction false} PushDisjoint(rs: seq<(int, int)>, r: (int, int), low: int, high: int)
    requires RangesOk(rs, low, high)
    requires low <= r.0 < r.1 <= high
    requires forall k :: 0 <= k < |rs| ==> rs[k].1 < r.0 || r.1 < rs[k].0
    ensures RangesOk(rs + [r], low, high)
  {
    assert (rs + [r])[..|rs|] == rs;
  }

  /**
    Pushing the left part of a popped range, when it holds two or more
    elements, keeps the pending ranges well formed and meets no position right
    of the pivot.
  */
  lemma PushLeft(rs: seq<(int, int)>, m: seq<(int, int)>, lo: int, hi: int, p: int, low: int, high: int)
    requires RangesOk(rs, low, high)
    requires low <= lo <= p <= hi <= high
    requires forall k :: 0 <= k < |rs| ==> rs[k].1 < lo || hi < rs[k].0
    requires m == if p - 1 > lo then rs + [(lo, p - 1)] else rs
    ensures RangesOk(m, low, high)
    ensures forall k :: 0 <= k < |m| ==> m[k].1 < p + 1 || hi < m[k].0
  {
    if p - 1 > lo {
      PushDisjoint(rs, (lo, p - 1), low, high);
      forall k | 0 <= k < |m| ensures m[k].1 < p + 1 || hi < m[k].0 {
        if k < |rs| { assert m[k] == rs[k]; }
      }
    }
  }

  /** Pushing the parts of a popped range keeps the pending ranges well formed. */
  lemma {:induction false} PushParts(rs: seq<(int, int)>, lo: int, hi: int, p: int, low: int, high: int)
    requires RangesOk(rs, low, high)
    requires low <= lo <= p <= hi <= high
    requires forall k :: 0 <= k < |rs| ==> rs[k].1 < lo || hi < rs[k].0
    ensures RangesOk(Pushed(rs, lo, hi, p), low, high)
  {
    var m := if p - 1 > lo then rs + [(lo, p - 1)] else rs;
    PushLeft(rs, m, lo, hi, p, low, high);
    if p + 1 < hi {
      PushDisjoint(m, (p + 1, hi), low, high);
    }
  }

  /** The pushed parts hold fewer positions than the popped range. */
  lemma PushShrinks(rs: seq<(int, int)>, lo: int, hi: int, p: int)
    requires lo <= p <= hi
    ensures SumSizes(Pushed(rs, lo, hi, p)) < SumSizes(rs + [(lo, hi)])
  {
    SumSizesAppend(rs, (lo, hi));
    var m := if p - 1 > lo then rs + [(lo, p - 1)] else rs;
    if p - 1 > lo {
      SumSizesAppend(rs, (lo, p - 1));
    }
    if p + 1 < hi {
      SumSizesAppend(m, (p + 1, hi));
    }
  }

  /**
    Popping `(lo, hi)`, partitioning it at `p` and pushing its parts keeps the
    stack well formed, lowers the number of positions it covers, and leaves it
    two slots per range within that number.
  */
  lemma {:induction false} StepRangesOk(rs: seq<(int, int)>, lo: int, hi: int, p: int, low: int, high: int)
    requires RangesOk(rs + [(lo, hi)], low, high)
    requires lo <= p <= hi
    ensures RangesOk(Pushed(rs, lo, hi, p), low, high)
    ensures 2 * |Pushed(rs, lo, hi, p)| <= SumSizes(Pushed(rs, lo, hi, p)) < SumSizes(rs + [(lo, hi)])
  {
    PoppedDisjoint(rs, lo, hi, low, high);
    PushParts(rs, lo, hi, p, low, high);
    PushShrinks(rs, lo, hi, p);
    TwoSlotsPerRange(Pushed(rs, lo, hi, p), low, high);
  }

  /** Order between two positions both outside the popped range carries over. */
  lemma OrderOutside(a: seq<int>, b: seq<int>, rs: seq<(int, int)>, lo: int, hi: int, n: seq<(int, int)>,
                     x: int, y: int)
    requires |rs| <= |n| && forall k :: 0 <= k < |rs| ==> rs[k] == n[k]
    requires x < y && !(lo <= x <= hi) && !InSame(n, x, y)
    requires 0 <= x < |a| && 0 <= y < |a| && |b| == |a| && b[x] == a[x] && b[y] == a[y]
    requires InSame(rs + [(lo, hi)], x, y) || a[x] <= a[y]
    ensures b[x] <= b[y]
  {
    var all := rs + [(lo, hi)];
    forall k | 0 <= k < |all| ensures !Covers(all[k], x, y) {
      if k < |rs| {
        assert all[k] == n[k];
      }
    }
  }

  /** Everything in the popped range was at most any later position it does not share a range with. */
  lemma OrderAcross(a: seq<int>, b: seq<int>, rs: seq<(int, int)>, lo: int, hi: int, t: seq<int>,
                    low: int, high: int, x: int, y: int)
    requires 0 <= low <= lo <= hi <= high < |a| && |b| == |a|
    requires forall k :: 0 <= k < |rs| ==> rs[k].1 < lo || hi < rs[k].0
    requires SortedOutside(a, rs + [(lo, hi)], low, high)
    requires b[lo..hi + 1] == t && multiset(t) == multiset(a[lo..hi + 1])
    requires low <= x < y <= high && (lo <= x <= hi) != (lo <= y <= hi)
    requires forall k :: 0 <= k < |a| && !(lo <= k <= hi) ==> b[k] == a[k]
    ensures b[x] <= b[y]
  {
    var s := a[lo..hi + 1];
    if lo <= x <= hi {
      forall z | 0 <= z < |s| ensures s[z] <= a[y] {
        NotSameAcross(rs, lo, hi, lo + z, y);
      }
      AtMostTransfers(s, t, a[y]);
      assert b[x] == t[x - lo];
    } else {
      forall z | 0 <= z < |s| ensures s[z] >= a[x] {
        NotSameAcross(rs, lo, hi, x, lo + z);
      }
      AtLeastTransfers(s, t, a[x]);
      assert b[y] == t[y - lo];
    }
  }

  /** Two positions on the same side of the pivot share a pushed part. */
  lemma PushedCovers(rs: seq<(int, int)>, lo: int, hi: int, p: int, x: int, y: int)
    requires lo <= x < y <= hi && (y < p || p < x)
    ensures InSame(Pushed(rs, lo, hi, p), x, y)
  {
    var n := Pushed(rs, lo, hi, p);
    if y < p {
      assert n[|rs|] == (lo, p - 1) && Covers(n[|rs|], x, y);
    } else {
      var k := if p - 1 > lo then |rs| + 1 else |rs|;
      assert n[k] == (p + 1, hi) && Covers(n[k], x, y);
    }
  }

  /** Inside the popped range, two positions not in one pushed part are split by the pivot. */
  lemma OrderInside(b: seq<int>, rs: seq<(int, int)>, lo: int, hi: int, t: seq<int>, q: nat, x: int, y: int)
    requires 0 <= lo <= x < y <= hi < |b| && b[lo..hi + 1] == t && q < |t|
    requires forall k :: 0 <= k < q ==> t[k] <= t[q]
    requires forall k :: q < k < |t| ==> t[k] > t[q]
    requires !InSame(Pushed(rs, lo, hi, lo + q), x, y)
    ensures b[x] <= b[y]
  {
    var p := lo + q;
    if y < p || p < x {
      PushedCovers(rs, lo, hi, p, x, y);
      assert false;
    }
    assert b[x] == t[x - lo] && b[y] == t[y - lo];

  }

  /** One pair of positions of the invariant after a pop, partition and push. */
  lemma StepPair(a: seq<int>, b: seq<int>, rs: seq<(int, int)>, lo: int, hi: int, t: seq<int>, q: nat,
                 low: int, high: int, x: int, y: int)
    requires 0 <= low <= lo < hi <= high < |a| && |b| == |a|
    requires forall k :: 0 <= k < |rs| ==> rs[k].1 < lo || hi < rs[k].0
    requires SortedOutside(a, rs + [(lo, hi)], low, high)
    requires forall k :: 0 <= k < |a| && !(lo <= k <= hi) ==> b[k] == a[k]
    requires b[lo..hi + 1] == t && multiset(t) == multiset(a[lo..hi + 1]) && q < |t|
    requires forall k :: 0 <= k < q ==> t[k] <= t[q]
    requires forall k :: q < k < |t| ==> t[k] > t[q]
    requires low <= x < y <= high && !InSame(Pushed(rs, lo, hi, lo + q), x, y)
    ensures b[x] <= b[y]
  {
    var n := Pushed(rs, lo, hi, lo + q);
    var inX, inY := lo <= x <= hi, lo <= y <= hi;
    if !inX && !inY {
      assert forall k :: 0 <= k < |rs| ==> rs[k] == n[k];
      OrderOutside(a, b, rs, lo, hi, n, x, y);
    } else if inX != inY {
      OrderAcross(a, b, rs, lo, hi, t, low, high, x, y);
    } else {
      OrderInside(b, rs, lo, hi, t, q, x, y);
    }
  }

  /** After popping `(lo, hi)` and partitioning it into `t` around position `q`, the order invariant holds for the new stack. */
  lemma {:induction false} StepSortedOutside(a: seq<int>, b: seq<int>, rs: seq<(int, int)>, lo: int, hi: int, t: seq<int>, q: nat,
                          low: int, high: int)
    requires 0 <= low <= lo < hi <= high < |a| && |b| == |a|
    requires RangesOk(rs + [(lo, hi)], low, high)
    requires SortedOutside(a, rs + [(lo, hi)], low, high)
    requires forall k :: 0 <= k < |a| && !(lo <= k <= hi) ==> b[k] == a[k]
    requires b[lo..hi + 1] == t && multiset(t) == multiset(a[lo..hi + 1]) && q < |t|
    requires forall k :: 0 <= k < q ==> t[k] <= t[q]
    requires forall k :: q < k < |t| ==> t[k] > t[q]
    ensures SortedOutside(b, Pushed(rs, lo, hi, lo + q), low, high)
  {
    PoppedDisjoint(rs, lo, hi, low, high);
    forall x, y | low <= x < y <= high && !InSame(Pushed(rs, lo, hi, lo + q), x, y) ensures b[x] <= b[y] {
      StepPair(a, b, rs, lo, hi, t, q, low, high, x, y);
    }
  }

  /** The parts of a range on either side of position `lo + q`, read through `Slice`. */
  lemma SliceParts(b: seq<int>, lo: int, hi: int, t: seq<int>, q: nat)
    requires 0 <= lo <= hi < |b| && b[lo..hi + 1] == t && q < |t|
    ensures Slice(b, (lo, hi)) == t
    ensures Slice(b, (lo, lo + q - 1)) == t[..q]
    ensures Slice(b, (lo + q + 1, hi)) == t[q + 1..]
  {
    if q > 0 {
      assert b[lo..lo + q] == t[..q];
    }
    if lo + q + 1 <= hi {
      assert b[lo + q + 1..hi + 1] == t[q + 1..];
    }
  }

  /** The elements of a slice cut at two inner positions are those of its three parts. */
  lemma ThreeParts(s: seq<int>, i: int, j: int, k: int, l: int, x: seq<int>, m: multiset<int>, z: seq<int>)
    requires 0 <= i <= j <= k <= l <= |s|
    requires s[i..j] == x && multiset(s[j..k]) == m && s[k..l] == z
    ensures multiset(s[i..l]) == multiset(x) + m + multiset(z)
  {
    assert s[i..l] == x + s[j..k] + z;
  }

  /** Two arrays that agree before `lo` agree before `low` and on `low..lo`. */
  lemma PrefixAgrees(a: seq<int>, b: seq<int>, low: int, lo: int)
    requires 0 <= low <= lo <= |a| == |b| && b[..lo] == a[..lo]
    ensures b[..low] == a[..low] && b[low..lo] == a[low..lo]
  {
    assert b[..low] == b[..lo][..low] && a[..low] == a[..lo][..low];
    assert b[low..lo] == b[..lo][low..] && a[low..lo] == a[..lo][low..];
  }

  /** Two arrays that agree after `hi` agree after `high` and on `hi + 1..high + 1`. */
  lemma SuffixAgrees(a: seq<int>, b: seq<int>, hi: int, high: int)
    requires 0 <= hi <= high < |a| == |b| && b[hi + 1..] == a[hi + 1..]
    ensures b[high + 1..] == a[high + 1..] && b[hi + 1..high + 1] == a[hi + 1..high + 1]
  {
    assert b[high + 1..] == b[hi + 1..][high - hi..] && a[high + 1..] == a[hi + 1..][high - hi..];
    assert b[hi + 1..high + 1] == b[hi + 1..][..high - hi] && a[hi + 1..high + 1] == a[hi + 1..][..high - hi];
  }

  /** Permuting `lo..hi` and keeping the rest of `low..high` permutes `low..high`. */
  lemma PermutedAround(a: seq<int>, b: seq<int>, lo: int, hi: int, low: int, high: int)
    requires 0 <= low <= lo <= hi <= high < |a| == |b|
    requires b[low..lo] == a[low..lo] && b[hi + 1..high + 1] == a[hi + 1..high + 1]
    requires multiset(b[lo..hi + 1]) == multiset(a[lo..hi + 1])
    ensures multiset(b[low..high + 1]) == multiset(a[low..high + 1])
  {
    var m := multiset(a[lo..hi + 1]);
    ThreeParts(b, low, lo, hi + 1, high + 1, a[low..lo], m, a[hi + 1..high + 1]);
    ThreeParts(a, low, lo, hi + 1, high + 1, a[low..lo], m, a[hi + 1..high + 1]);
  }

  /** Rearranging `lo..hi` inside `low..high` rearranges `low..high` and leaves everything outside it alone. */
  lemma StepFrame(a: seq<int>, b: seq<int>, lo: int, hi: int, low: int, high: int)
    requires 0 <= low <= lo <= hi <= high < |a| == |b|
    requires b[..lo] == a[..lo] && b[hi + 1..] == a[hi + 1..]
    requires multiset(b[lo..hi + 1]) == multiset(a[lo..hi + 1])
    ensures b[..low] == a[..low] && b[high + 1..] == a[high + 1..]
    ensures multiset(b[low..high + 1]) == multiset(a[low..high + 1])
  {
    PrefixAgrees(a, b, low, lo);
    SuffixAgrees(a, b, hi, high);
    PermutedAround(a, b, lo, hi, low, high);
  }

  /** The order invariant after popping `(lo, hi)` and partitioning that range into `t` around `q`. */
  lemma {:induction false} StepOrder(a: seq<int>, b: seq<int>, rs: seq<(int, int)>, lo: int, hi: int, t: seq<int>, q: nat, p: int,
                  low: int, high: int)
    requires 0 <= low <= lo < hi <= high < |a| == |b|
    requires RangesOk(rs + [(lo, hi)], low, high)
    requires SortedOutside(a, rs + [(lo, hi)], low, high)
    requires b[..lo] == a[..lo] && b[hi + 1..] == a[hi + 1..]
    requires b[lo..hi + 1] == t && multiset(t) == multiset(a[lo..hi + 1]) && q < |t|
    requires forall k :: 0 <= k < q ==> t[k] <= t[q]
    requires forall k :: q < k < |t| ==> t[k] > t[q]
    requires p == lo + q
    ensures SortedOutside(b, Pushed(rs, lo, hi, p), low, high)
  {
    OutsideAgrees(a, b, lo, hi);
    StepSortedOutside(a, b, rs, lo, hi, t, q, low, high);
  }

  /** Sequences that agree before `lo` and after `hi` agree at every position outside `lo..hi`. */
  lemma OutsideAgrees(a: seq<int>, b: seq<int>, lo: int, hi: int)
    requires 0 <= lo <= hi < |a| == |b|
    requires b[..lo] == a[..lo] && b[hi + 1..] == a[hi + 1..]
    ensures forall k :: 0 <= k < |a| && !(lo <= k <= hi) ==> b[k] == a[k]
  {
    forall k | 0 <= k < |a| && !(lo <= k <= hi) ensures b[k] == a[k] {
      if k < lo {
        assert b[k] == b[..lo][k] && a[k] == a[..lo][k];
      } else {
        assert b[k] == b[hi + 1..][k - hi - 1] && a[k] == a[hi + 1..][k - hi - 1];
      }
    }
  }

  /** The cost still owed after popping `(lo, hi)` and partitioning that range into `t` around `q`. */
  lemma StepCost(a: seq<int>, b: seq<int>, rs: seq<(int, int)>, lo: int, hi: int, t: seq<int>, q: nat,
                 cost: seq<int> -> nat)
    requires 0 <= lo < hi < |a| == |b|
    requires forall k :: 0 <= k < |rs| ==> rs[k].1 < lo || hi < rs[k].0
    requires b[..lo] == a[..lo] && b[hi + 1..] == a[hi + 1..]
    requires b[lo..hi + 1] == t && q < |t|
    requires cost(a[lo..hi + 1]) == (hi - lo + 1) + cost(t[..q]) + cost(t[q + 1..])
    requires |t[..q]| <= 1 ==> cost(t[..q]) == 0
    requires |t[q + 1..]| <= 1 ==> cost(t[q + 1..]) == 0
    ensures SumIter(b, Pushed(rs, lo, hi, lo + q), cost) + (hi - lo + 1) == SumIter(a, rs + [(lo, hi)], cost)
  {
    SliceParts(a, lo, hi, a[lo..hi + 1], 0);
    SliceParts(b, lo, hi, t, q);
    SumIterFrame(a, b, rs, lo, hi, cost);
  }

  /**
    One iteration of the iterative quicksort's loop seen from the counter:
    `(lo, hi)` is popped from `rs + [(lo, hi)]` and that range of `a` is
    partitioned into `t` around `q`, giving `b`. The cost still owed drops by
    what the iteration adds, and only `low..high` is rearranged.
  */
  lemma {:induction false} PopPartitionCost(a: seq<int>, b: seq<int>, rs: seq<(int, int)>, lo: int, hi: int, t: seq<int>, q: nat,
                         p: int, low: int, high: int, cost: seq<int> -> nat)
    requires 0 <= low <= lo < hi <= high < |a| == |b|
    requires forall k :: 0 <= k < |rs| ==> rs[k].1 < lo || hi < rs[k].0
    requires b[..lo] == a[..lo] && b[hi + 1..] == a[hi + 1..]
    requires b[lo..hi + 1] == t && multiset(t) == multiset(a[lo..hi + 1]) && q < |t|
    requires cost(a[lo..hi + 1]) == (hi - lo + 1) + cost(t[..q]) + cost(t[q + 1..])
    requires |t[..q]| <= 1 ==> cost(t[..q]) == 0
    requires |t[q + 1..]| <= 1 ==> cost(t[q + 1..]) == 0
    requires p == lo + q
    ensures SumIter(b, Pushed(rs, lo, hi, p), cost) + (hi - lo + 1) == SumIter(a, rs + [(lo, hi)], cost)
    ensures b[..low] == a[..low] && b[high + 1..] == a[high + 1..]
    ensures multiset(b[low..high + 1]) == multiset(a[low..high + 1])
  {
    StepCost(a, b, rs, lo, hi, t, q, cost);
    assert Pushed(rs, lo, hi, p) == Pushed(rs, lo, hi, lo + q);
    StepFrame(a, b, lo, hi, low, high);
  }

  /** The stack as first filled: the one range `low..high`, owing all of its cost. */
  lemma {:induction false} StartRanges(a: seq<int>, low: int, high: int, cost: seq<int> -> nat)
    requires 0 <= low < high < |a|
    ensures RangesOk([(low, high)], low, high) && SumSizes([(low, high)]) == high - low + 1
    ensures SortedOutside(a, [(low, high)], low, high)
    ensures SumIter(a, [(low, high)], cost) == cost(a[low..high + 1])
  {
    var rs := [(low, high)];
    forall x, y | low <= x < y <= high ensures InSame(rs, x, y) {
      assert Covers(rs[0], x, y);
    }
    assert rs[..0] == [];
  }

  /** With no range pending, the whole of `low..high` is in order. */
  lemma NothingPending(a: seq<int>, low: int, high: int)
    requires 0 <= low <= high < |a| && SortedOutside(a, [], low, high)
    ensures Sorted(a[low..high + 1])
  {
    var s := a[low..high + 1];
    forall x, y | 0 <= x < y < |s| ensures s[x] <= s[y] {
      assert !InSame([], low + x, low + y);
    }
  }

  /**
    The stack slots `st[..top + 1]` hold the pending ranges, bottom first, as
    `low, high` pairs.
  */
  ghost predicate StackHolds(st: seq<int>, top: int, rs: seq<(int, int)>) {
    && top + 1 == 2 * |rs| <= |st|
    && forall k :: 0 <= k < |rs| ==> st[2 * k] == rs[k].0 && st[2 * k + 1] == rs[k].1
  }

  /** The two top slots are the bounds of the last pending range; dropping them drops it. */
  lemma StackPop(st: seq<int>, top: int, rs: seq<(int, int)>)
    requires StackHolds(st, top, rs) && |rs| > 0
    ensures 1 <= top < |st| && st[top] == rs[|rs| - 1].1 && st[top - 1] == rs[|rs| - 1].0
    ensures StackHolds(st, top - 2, rs[..|rs| - 1])
    ensures rs == rs[..|rs| - 1] + [(st[top - 1], st[top])]
  {
    var n := |rs| - 1;
    assert st[2 * n] == rs[n].0 && st[2 * n + 1] == rs[n].1;
  }

  /** Writing a range's bounds into the next two slots pushes it. */
  lemma StackPush(st: seq<int>, top: int, rs: seq<(int, int)>, x: int, y: int)
    requires StackHolds(st, top, rs) && top + 2 < |st|
    ensures StackHolds(st[top + 1 := x][top + 2 := y], top + 2, rs + [(x, y)])
  {
    var n := st[top + 1 := x][top + 2 := y];
    var rs' := rs + [(x, y)];
    forall k | 0 <= k < |rs'| ensures n[2 * k] == rs'[k].0 && n[2 * k + 1] == rs'[k].1 {
      if k < |rs| {
        assert rs'[k] == rs[k];
      }
    }
  }

  /**
    The loop invariant of the iterative quicksort on `low..high`, apart from
    the counter: the pending ranges are well formed and fit the stack, every
    pair of positions not sharing a pending range is in order, and `a` is a
    rearrangement of `a0` inside `low..high` only.
  */
  ghost predicate Pending(a0: seq<int>, a: seq<int>, rs: seq<(int, int)>, low: int, high: int) {
    && 0 <= low < high < |a0| == |a|
    && RangesOk(rs, low, high) && 2 * |rs| <= SumSizes(rs) <= high - low + 1
    && SortedOutside(a, rs, low, high)
    && a[..low] == a0[..low] && a[high + 1..] == a0[high + 1..]
    && multiset(a[low..high + 1]) == multiset(a0[low..high + 1])
  }

  /**
    One iteration of the iterative quicksort's loop: `(lo, hi)` is popped,
    that range of `a` is partitioned at `p`, giving `b`, and the parts of two
    or more elements are pushed. The invariant holds again, the stack covers
    fewer positions, and the count still owed drops by what the iteration
    adds to the counter.
  */
  lemma {:induction false} IterationStep(a0: seq<int>, a: seq<int>, b: seq<int>, all: seq<(int, int)>, rs: seq<(int, int)>,
                                         lo: int, hi: int, p: int, low: int, high: int, cost: seq<int> -> nat)
    requires Pending(a0, a, all, low, high) && all == rs + [(lo, hi)]
    requires 0 <= lo <= hi < |a| == |b| && b[..lo] == a[..lo] && b[hi + 1..] == a[hi + 1..]
    requires b[lo..hi + 1] == Partitioned(a[lo..hi + 1]).0 && p == lo + Partitioned(a[lo..hi + 1]).1
    requires forall s :: cost(s) == IterCount(s)
    ensures Pending(a0, b, Pushed(rs, lo, hi, p), low, high)
    ensures SumSizes(Pushed(rs, lo, hi, p)) < SumSizes(all)
    ensures SumIter(b, Pushed(rs, lo, hi, p), cost) + (hi - lo + 1) == SumIter(a, all, cost)
  {
    PoppedDisjoint(rs, lo, hi, low, high);
    var s := a[lo..hi + 1];
    var t, q := CostStep(s, cost);
    var n := Pushed(rs, lo, hi, p);
    StepRangesOk(rs, lo, hi, p, low, high);
    assert RangesOk(n, low, high) && 2 * |n| <= SumSizes(n) <= high - low + 1;
    StepOrder(a, b, rs, lo, hi, t, q, p, low, high);
    assert SortedOutside(b, n, low, high);
    PopPartitionCost(a, b, rs, lo, hi, t, q, p, low, high, cost);
    assert b[..low] == a0[..low] && b[high + 1..] == a0[high + 1..];
    assert multiset(b[low..high + 1]) == multiset(a0[low..high + 1]);
  }

  /** `IterStep` read through a cost function that is the iterative counter. */
  lemma CostStep(s: seq<int>, cost: seq<int> -> nat) returns (t: seq<int>, q: nat)
    requires |s| >= 2
    requires forall x :: cost(x) == IterCount(x)
    ensures t == Partitioned(s).0 && q == Partitioned(s).1 && q < |t| == |s|
    ensures (forall k :: 0 <= k < q ==> t[k] <= t[q]) && (forall k :: q < k < |t| ==> t[k] > t[q])
    ensures multiset(t) == multiset(s)
    ensures cost(s) == |s| + cost(t[..q]) + cost(t[q + 1..])
    ensures |t[..q]| <= 1 ==> cost(t[..q]) == 0
    ensures |t[q + 1..]| <= 1 ==> cost(t[q + 1..]) == 0
  {
    t, q := IterStep(s);
    assert cost(s) == IterCount(s);
    assert cost(t[..q]) == IterCount(t[..q]);
    assert cost(t[q + 1..]) == IterCount(t[q + 1..]);
  }

  /** The stack as first filled satisfies the invariant and owes the whole count. */
  lemma {:induction false} PendingStart(a0: seq<int>, low: int, high: int, cost: seq<int> -> nat)
    requires 0 <= low < high < |a0|
    ensures Pending(a0, a0, [(low, high)], low, high)
    ensures SumIter(a0, [(low, high)], cost) == cost(a0[low..high + 1])
  {
    StartRanges(a0, low, high, cost);
  }
}

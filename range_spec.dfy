/**
  Array-level facts about one quicksort call on the range `low..high` of a
  whole array: `SortedWithin` is what a correct sort of the range leaves
  behind, the join lemmas show that partitioning and then sorting both sides of
  the pivot (left first) is such a sort, and `RangeRecCount` is the counter
  growth of a recursive call.
*/
module RangeSpec {
  import opened SortSpec

  /**
    `r` agrees with `a` outside `low..high` and holds a sorted permutation of
    `a`'s range inside it; an empty range (`low == high + 1`) is allowed.
  */
  ghost predicate SortedWithin(a: seq<int>, r: seq<int>, low: int, high: int) {
    && 0 <= low <= high + 1 <= |a| && |r| == |a|
    && r[..low] == a[..low] && r[high + 1..] == a[high + 1..]
    && multiset(r[low..high + 1]) == multiset(a[low..high + 1])
    && Sorted(r[low..high + 1])
  }

  /** The split of `PartitionSplit`, seen at the array positions of the range. */
  lemma PartitionRangeSplit(a: seq<int>, b: seq<int>, low: int, high: int, p: int)
    requires 0 <= low <= high < |a| == |b|
    requires b[low..high + 1] == Partitioned(a[low..high + 1]).0 && p == low + Partitioned(a[low..high + 1]).1
    ensures b[p] == a[high] && multiset(b[low..high + 1]) == multiset(a[low..high + 1])
    ensures forall k :: low <= k < p ==> b[k] <= b[p]
    ensures forall k :: p < k <= high ==> b[k] > b[p]
  {
    var s := a[low..high + 1];
    PartitionSplit(s);
    var t, q := Partitioned(s).0, Partitioned(s).1;
    assert b[p] == t[q];
    forall k | low <= k < p ensures b[k] <= b[p] {
      assert b[k] == t[k - low];
    }
    forall k | p < k <= high ensures b[k] > b[p] {
      assert b[k] == t[k - low];
    }
  }

  /** Both sub-calls stay inside their parts: `m` keeps `b` from `p` on, `r` keeps `m` up to `p`. */
  lemma JoinFrames(a: seq<int>, b: seq<int>, m: seq<int>, r: seq<int>, low: int, high: int, p: int)
    requires 0 <= low <= p <= high < |a| == |b|
    requires b[..low] == a[..low] && b[high + 1..] == a[high + 1..]
    requires |m| == |b| && m[..low] == b[..low] && m[p..] == b[p..]
    requires |r| == |m| && r[..p + 1] == m[..p + 1] && r[high + 1..] == m[high + 1..]
    ensures r[..low] == a[..low] && r[high + 1..] == a[high + 1..]
    ensures r[low..p] == m[low..p] && r[p] == b[p] && m[p + 1..high + 1] == b[p + 1..high + 1]
  {
    assert r[..low] == r[..p + 1][..low];
    assert m[..low] == m[..p + 1][..low];
    assert r[high + 1..] == m[high + 1..];
    assert m[high + 1..] == m[p..][high + 1 - p..];
    assert b[high + 1..] == b[p..][high + 1 - p..];
    assert r[low..p] == r[..p + 1][low..p];
    assert m[low..p] == m[..p + 1][low..p];
    assert r[p] == r[..p + 1][p] == m[..p + 1][p] == m[p];
    assert m[p] == m[p..][0] == b[p..][0];
    assert m[p + 1..high + 1] == m[p..][1..high + 1 - p];
    assert b[p + 1..high + 1] == b[p..][1..high + 1 - p];
  }

  /** The bounds around the pivot, seen on the two sides taken as slices. */
  lemma SliceBounds(b: seq<int>, low: int, high: int, p: int, bl: seq<int>, br: seq<int>)
    requires 0 <= low <= p <= high < |b| && bl == b[low..p] && br == b[p + 1..high + 1]
    requires forall k :: low <= k < p ==> b[k] <= b[p]
    requires forall k :: p < k <= high ==> b[k] > b[p]
    ensures forall k :: 0 <= k < |bl| ==> bl[k] <= b[p]
    ensures forall k :: 0 <= k < |br| ==> br[k] > b[p]
  {
    forall k | 0 <= k < |bl| ensures bl[k] <= b[p] { assert bl[k] == b[low + k]; }
    forall k | 0 <= k < |br| ensures br[k] > b[p] { assert br[k] == b[p + 1 + k]; }
  }

  /**
    Sorting both sides of the pivot of a partitioned range, left first, sorts
    the whole range.
  */
  lemma JoinAroundPivot(a: seq<int>, b: seq<int>, m: seq<int>, r: seq<int>, low: int, high: int, p: int)
    requires 0 <= low <= p <= high < |a| == |b|
    requires b[..low] == a[..low] && b[high + 1..] == a[high + 1..]
    requires multiset(b[low..high + 1]) == multiset(a[low..high + 1])
    requires forall k :: low <= k < p ==> b[k] <= b[p]
    requires forall k :: p < k <= high ==> b[k] > b[p]
    requires SortedWithin(b, m, low, p - 1) && SortedWithin(m, r, p + 1, high)
    ensures SortedWithin(a, r, low, high)
    ensures m[p + 1..high + 1] == b[p + 1..high + 1]
  {
    JoinFrames(a, b, m, r, low, high, p);
    var left, right := r[low..p], r[p + 1..high + 1];
    var bl, br := b[low..p], b[p + 1..high + 1];
    var v := b[p];
    SliceBounds(b, low, high, p, bl, br);
    AtMostTransfers(bl, left, v);
    AboveTransfers(br, right, v);
    var w := r[low..high + 1];
    assert w == left + [v] + right;
    assert b[low..high + 1] == bl + [v] + br;
    assert multiset(w) == multiset(b[low..high + 1]);
    forall x, y | 0 <= x < y < |w| ensures w[x] <= w[y] {
      var q := p - low;
      if y < q {
        assert w[x] == left[x] && w[y] == left[y];
      } else if x > q {
        assert w[x] == right[x - q - 1] && w[y] == right[y - q - 1];
      } else if x < q {
        assert w[x] == left[x];
        if y > q { assert w[y] == right[y - q - 1]; }
      } else {
        assert w[y] == right[y - q - 1];
      }
    }
  }

  /** A range of at most one element is sorted by leaving the array alone. */
  lemma SortedWithinSmall(a: seq<int>, low: int, high: int)
    requires 0 <= low <= high + 1 <= |a| && high <= low
    ensures SortedWithin(a, a, low, high)
  {
  }

  /** Counter growth of a recursive-quicksort call on `low..high`: one call for a range of fewer than two elements. */
  function RangeRecCount(a: seq<int>, low: int, high: int): (r: nat)
    requires low < high ==> 0 <= low && high < |a|
    ensures r >= 1
  {
    if low < high then RecCount(a[low..high + 1]) else 1
  }

  /**
    Sorting both sides of the pivot of a range, left first: `m` is `b` after
    the call on the left side and `r` is `m` after the call on the right side
    (a call on a side of fewer than two elements changes nothing). Then `r` is
    `b` sorted within `low..high`, and the right side's counter growth is read
    on `b`, which the first call left alone there.
  */
  lemma SidesJoin(b: seq<int>, m: seq<int>, r: seq<int>, low: int, high: int, p: int)
    requires 0 <= low <= p <= high < |b|
    requires forall k :: low <= k < p ==> b[k] <= b[p]
    requires forall k :: p < k <= high ==> b[k] > b[p]
    requires low < p - 1 ==> SortedWithin(b, m, low, p - 1)
    requires low >= p - 1 ==> m == b
    requires p + 1 < high ==> SortedWithin(m, r, p + 1, high)
    requires p + 1 >= high ==> r == m
    ensures SortedWithin(b, r, low, high)
    ensures RangeRecCount(m, p + 1, high) == RangeRecCount(b, p + 1, high)
  {
    if p - 1 <= low { SortedWithinSmall(b, low, p - 1); }
    if high <= p + 1 { SortedWithinSmall(m, p + 1, high); }
    JoinAroundPivot(b, b, m, r, low, high, p);
  }

  /**
    One recursive-quicksort call on a range of at least two elements: `b` is
    `a` partitioned with the pivot at `p`, and `r` is `b` sorted within the
    range. Then `r` is `a` sorted within the range, and the counter grows by
    one call, one partition loop and what the calls on the two sides of the
    pivot add.
  */
  lemma RecursiveStep(a: seq<int>, b: seq<int>, r: seq<int>, low: int, high: int, p: int)
    requires 0 <= low < high < |a| == |b|
    requires b[..low] == a[..low] && b[high + 1..] == a[high + 1..]
    requires b[low..high + 1] == Partitioned(a[low..high + 1]).0 && p == low + Partitioned(a[low..high + 1]).1
    requires SortedWithin(b, r, low, high)
    ensures SortedWithin(a, r, low, high)
    ensures RangeRecCount(a, low, high) == (high - low + 1) + RangeRecCount(b, low, p - 1) + RangeRecCount(b, p + 1, high)
  {
    PartitionRangeSplit(a, b, low, high, p);
    SortedWithinTransfer(a, b, r, low, high);
    RecursiveCount(a, b, low, high, p);
  }

  /** Sorting a permutation of a range, with the same frame, is sorting the range. */
  lemma SortedWithinTransfer(a: seq<int>, b: seq<int>, r: seq<int>, low: int, high: int)
    requires 0 <= low <= high < |a| == |b|
    requires b[..low] == a[..low] && b[high + 1..] == a[high + 1..]
    requires multiset(b[low..high + 1]) == multiset(a[low..high + 1])
    requires SortedWithin(b, r, low, high)
    ensures SortedWithin(a, r, low, high)
  {
  }

  /**
    The counter growth of a call on a range of at least two elements is the
    call itself, its partition loop and the calls on the two sides of the
    pivot.
  */
  lemma RecursiveCount(a: seq<int>, b: seq<int>, low: int, high: int, p: int)
    requires 0 <= low < high < |a| == |b|
    requires b[low..high + 1] == Partitioned(a[low..high + 1]).0 && p == low + Partitioned(a[low..high + 1]).1
    ensures RangeRecCount(a, low, high) == (high - low + 1) + RangeRecCount(b, low, p - 1) + RangeRecCount(b, p + 1, high)
  {
    var t, q := RecStep(a[low..high + 1]);
    SidesCount(b, low, high, t, q, p);
  }

  /** The counts of the calls on the two sides of the pivot are `RecCount` of the sides' contents. */
  lemma SidesCount(b: seq<int>, low: int, high: int, t: seq<int>, q: nat, p: int)
    requires 0 <= low <= high < |b| && b[low..high + 1] == t && q < |t| && p == low + q
    ensures RangeRecCount(b, low, p - 1) == RecCount(t[..q])
    ensures RangeRecCount(b, p + 1, high) == RecCount(t[q + 1..])
  {
    assert b[low..p] == t[..q];
    assert b[p + 1..high + 1] == t[q + 1..];
  }

  /** A sort of the whole array leaves it sorted and a permutation of what it was. */
  lemma SortedWithinWhole(a: seq<int>, r: seq<int>)
    requires SortedWithin(a, r, 0, |a| - 1)
    ensures Sorted(r) && multiset(r) == multiset(a)
  {
    assert r[0..|a|] == r;
    assert a[0..|a|] == a;
  }
}

/**
  Value-level specification of the instrumented quicksort.

  A segment `s` stands for the part `arr[low..high]` of the array that one call
  works on. `LomutoScan` is the state of the partition loop (last element as
  pivot), `Partitioned` the state after the final pivot swap, and
  `RecCount`/`IterCount` how much the operation counter grows under the
  recursive and the iterative variant.
*/
module SortSpec {

  /** Every pair of positions is in ascending order. */
  ghost predicate Sorted(s: seq<int>) {
    forall x, y :: 0 <= x < y < |s| ==> s[x] <= s[y]
  }

  /** The post-sort check: some neighbouring pair is out of order. */
  function IsNotSorted(s: seq<int>): (r: bool)
    ensures r <==> exists k :: 0 <= k < |s| - 1 && s[k] > s[k + 1]
  {
    if |s| < 2 then false
    else if s[0] > s[1] then true
    else
      var rest := IsNotSorted(s[1..]);
      assert rest ==> exists k :: 0 <= k < |s| - 1 && s[k] > s[k + 1] by {
        if rest {
          var k :| 0 <= k < |s[1..]| - 1 && s[1..][k] > s[1..][k + 1];
          assert s[k + 1] > s[k + 2];
        }
      }
      assert (exists k :: 0 <= k < |s| - 1 && s[k] > s[k + 1]) ==> rest by {
        if exists k :: 0 <= k < |s| - 1 && s[k] > s[k + 1] {
          var k :| 0 <= k < |s| - 1 && s[k] > s[k + 1];
          assert k != 0;
          assert s[1..][k - 1] > s[1..][k];
        }
      }
      rest
  }

  /** The adjacent-pair check accepts exactly the sorted sequences. */
  lemma {:induction false} NotSortedIffUnsorted(s: seq<int>)
    ensures !IsNotSorted(s) <==> Sorted(s)
    decreases |s|
  {
    if |s| >= 2 {
      NotSortedIffUnsorted(s[1..]);
      if !IsNotSorted(s) {
        assert s[0] <= s[1];
        assert Sorted(s[1..]);
        forall x, y | 0 <= x < y < |s| ensures s[x] <= s[y] {
          if x > 0 {
            assert s[1..][x - 1] <= s[1..][y - 1];
          } else if y > 1 {
            assert s[1..][0] <= s[1..][y - 1];
          }
        }
      } else {
        var k :| 0 <= k < |s| - 1 && s[k] > s[k + 1];
      }
    }
  }

  /** `s` with the elements at positions `a` and `b` exchanged. */
  function Swap(s: seq<int>, a: nat, b: nat): (r: seq<int>)
    requires a < |s| && b < |s|
    ensures |r| == |s| && r[a] == s[b] && r[b] == s[a]
    ensures forall k :: 0 <= k < |s| && k != a && k != b ==> r[k] == s[k]
  {
    s[a := s[b]][b := s[a]]
  }

  /** Exchanging two elements by two updates keeps the multiset. */
  lemma UpdatesPermute(s: seq<int>, a: nat, b: nat)
    requires a < |s| && b < |s|
    ensures multiset(s[a := s[b]][b := s[a]]) == multiset(s)
  {
    if a != b {
      calc {
        multiset(s[a := s[b]][b := s[a]]);
        multiset(s[a := s[b]]) - multiset{s[a := s[b]][b]} + multiset{s[a]};
        multiset(s) - multiset{s[a]} + multiset{s[b]} - multiset{s[b]} + multiset{s[a]};
        multiset(s);
      }
    }
  }

  /** A swap only rearranges. */
  lemma SwapPermutes(s: seq<int>, a: nat, b: nat)
    requires a < |s| && b < |s|
    ensures multiset(Swap(s, a, b)) == multiset(s)
  {
    UpdatesPermute(s, a, b);
  }

  /**
    State of the partition loop on segment `s` (pivot: its last element) after
    its first `j` iterations: the rearranged segment and the index of the last
    element found less than or equal to the pivot, -1 before any was found.
  */
  function LomutoScan(s: seq<int>, j: nat): (r: (seq<int>, int))
    requires j < |s|
    ensures |r.0| == |s| && -1 <= r.1 < j
  {
    if j == 0 then (s, -1)
    else
      var (t, i) := LomutoScan(s, j - 1);
      if t[j - 1] <= s[|s| - 1] then (Swap(t, i + 1, j - 1), i + 1) else (t, i)
  }

  /** The segment after partitioning, and the pivot's final position in it. */
  function Partitioned(s: seq<int>): (r: (seq<int>, nat))
    requires |s| > 0
    ensures |r.0| == |s| && r.1 < |s|
  {
    var (t, i) := LomutoScan(s, |s| - 1);
    (Swap(t, i + 1, |s| - 1), i + 1)
  }

  /**
    The loop invariant of the partition scan: after `j` iterations the first
    `i + 1` elements are at most the pivot, those up to `j` exceed it, and the
    rest have not moved.
  */
  lemma {:induction false} LomutoScanInvariant(s: seq<int>, j: nat)
    requires j < |s|
    ensures var (t, i) := LomutoScan(s, j);
      && (forall k :: 0 <= k <= i ==> t[k] <= s[|s| - 1])
      && (forall k :: i < k < j ==> t[k] > s[|s| - 1])
      && (forall k :: j <= k < |s| ==> t[k] == s[k])
  {
    if j > 0 {
      LomutoScanInvariant(s, j - 1);
      var (t, i) := LomutoScan(s, j - 1);
      var pivot := s[|s| - 1];
      if t[j - 1] <= pivot {
        var u := Swap(t, i + 1, j - 1);
        assert LomutoScan(s, j) == (u, i + 1);
        forall k | 0 <= k <= i + 1 ensures u[k] <= pivot {
          if k == i + 1 { assert u[k] == t[j - 1]; } else { assert u[k] == t[k]; }
        }
        forall k | i + 1 < k < j ensures u[k] > pivot {
          if k == j - 1 { assert u[k] == t[i + 1]; } else { assert u[k] == t[k]; }
        }
      } else {
        assert LomutoScan(s, j) == (t, i);
      }
    }
  }

  /** The partition scan only swaps, so it keeps the multiset of the segment. */
  lemma {:induction false} LomutoScanPermutes(s: seq<int>, j: nat)
    requires j < |s|
    ensures multiset(LomutoScan(s, j).0) == multiset(s)
  {
    if j > 0 {
      LomutoScanPermutes(s, j - 1);
      var (t, i) := LomutoScan(s, j - 1);
      if t[j - 1] <= s[|s| - 1] {
        SwapPermutes(t, i + 1, j - 1);
      }
    }
  }

  /**
    One iteration of the partition scan, from the state after `j` iterations
    to the state after `j1 == j + 1`.
  */
  lemma LomutoStep(s: seq<int>, j: nat, j1: nat) returns (t: seq<int>, i: int)
    requires j1 == j + 1 && j1 < |s|
    ensures t == LomutoScan(s, j).0 && i == LomutoScan(s, j).1 && -1 <= i < j && |t| == |s|
    ensures t[j] == s[j] && t[|s| - 1] == s[|s| - 1]
    ensures t[j] <= s[|s| - 1] ==> LomutoScan(s, j1).0 == Swap(t, i + 1, j) && LomutoScan(s, j1).1 == i + 1
    ensures t[j] > s[|s| - 1] ==> LomutoScan(s, j1).0 == t && LomutoScan(s, j1).1 == i
  {
    LomutoScanInvariant(s, j);
    t, i := LomutoScan(s, j).0, LomutoScan(s, j).1;
  }

  /** The final pivot swap after the `last == |s| - 1` iterations of the scan. */
  lemma PartitionedLast(s: seq<int>, last: nat) returns (t: seq<int>, i: int)
    requires last == |s| - 1
    ensures t == LomutoScan(s, last).0 && i == LomutoScan(s, last).1 && -1 <= i < last
    ensures Partitioned(s).0 == Swap(t, i + 1, last) && Partitioned(s).1 == i + 1
  {
    t, i := LomutoScan(s, last).0, LomutoScan(s, last).1;
  }

  /** Partitioning splits the segment around the old last element, by swaps only. */
  lemma PartitionSplit(s: seq<int>)
    requires |s| > 0
    ensures var (t, p) := Partitioned(s);
      && t[p] == s[|s| - 1]
      && (forall k :: 0 <= k < p ==> t[k] <= t[p])
      && (forall k :: p < k < |s| ==> t[k] > t[p])
      && multiset(t) == multiset(s)
  {
    var n := |s| - 1;
    var u, i := PartitionedLast(s, n);
    LomutoScanInvariant(s, n);
    LomutoScanPermutes(s, n);
    SwapPermutes(u, i + 1, n);
    PlacePivot(u, i + 1, s[n]);
  }

  /**
    The final swap of the partition: with everything before `p` at most the
    pivot held last and everything from `p` on above it, exchanging positions
    `p` and the last puts the pivot between the two sides.
  */
  lemma PlacePivot(u: seq<int>, p: nat, v: int)
    requires p < |u| && u[|u| - 1] == v
    requires forall k :: 0 <= k < p ==> u[k] <= v
    requires forall k :: p <= k < |u| - 1 ==> u[k] > v
    ensures var t := Swap(u, p, |u| - 1);
      && t[p] == v
      && (forall k :: 0 <= k < p ==> t[k] <= t[p])
      && (forall k :: p < k < |u| ==> t[k] > t[p])
  {
  }

  /**
    Counter growth of the recursive variant on a segment: one per call (base
    calls included) plus one per iteration of the partition loop. Every call
    counts, so it is at least 1 and at least the segment's length; it is at
    most quadratic in the length.
  */
  function RecCount(s: seq<int>): (r: nat)
    ensures r >= 1 && r >= |s|
    ensures r <= (|s| + 1) * (|s| + 1)
    decreases |s|
  {
    if |s| <= 1 then 1
    else
      var (t, p) := Partitioned(s);
      SquareSplit(|s|, p, |s| - 1 - p, RecCount(t[..p]), RecCount(t[p + 1..]), 1 + (|s| - 1) + RecCount(t[..p]) + RecCount(t[p + 1..]));
      1 + (|s| - 1) + RecCount(t[..p]) + RecCount(t[p + 1..])
  }

  /**
    Counter growth of the iterative variant on a segment of at least two
    elements: one per pop plus one per partition-loop iteration; ranges of fewer
    than two elements are never pushed, so they cost nothing. A segment that
    is pushed costs at least its length.
  */
  function IterCount(s: seq<int>): (r: nat)
    ensures |s| >= 2 ==> r >= |s|
    decreases |s|
  {
    if |s| <= 1 then 0
    else
      var (t, p) := Partitioned(s);
      1 + (|s| - 1) + IterCount(t[..p]) + IterCount(t[p + 1..])
  }

  /** Number of partition steps the sort performs on the segment. */
  function Partitions(s: seq<int>): nat
    decreases |s|
  {
    if |s| <= 1 then 0
    else
      var (t, p) := Partitioned(s);
      1 + Partitions(t[..p]) + Partitions(t[p + 1..])
  }

  /** A bound that holds for every element holds for every element of a permutation: at most `v`, above `v`, at least `v`. */
  lemma AtMostTransfers(s: seq<int>, t: seq<int>, v: int)
    requires multiset(s) == multiset(t)
    requires forall k :: 0 <= k < |s| ==> s[k] <= v
    ensures forall k :: 0 <= k < |t| ==> t[k] <= v
  {
    forall k | 0 <= k < |t| ensures t[k] <= v {
      assert t[k] in multiset(t);
      assert t[k] in s;
    }
  }

  lemma AboveTransfers(s: seq<int>, t: seq<int>, v: int)
    requires multiset(s) == multiset(t)
    requires forall k :: 0 <= k < |s| ==> s[k] > v
    ensures forall k :: 0 <= k < |t| ==> t[k] > v
  {
    forall k | 0 <= k < |t| ensures t[k] > v {
      assert t[k] in multiset(t);
      assert t[k] in s;
    }
  }

  lemma AtLeastTransfers(s: seq<int>, t: seq<int>, v: int)
    requires multiset(s) == multiset(t)
    requires forall k :: 0 <= k < |s| ==> s[k] >= v
    ensures forall k :: 0 <= k < |t| ==> t[k] >= v
  {
    forall k | 0 <= k < |t| ensures t[k] >= v {
      assert t[k] in multiset(t);
      assert t[k] in s;
    }
  }

  /** A non-empty sequence is its head followed by its tail, as a multiset too. */
  lemma HeadTail(a: seq<int>)
    requires |a| > 0
    ensures multiset(a[1..]) == multiset(a) - multiset{a[0]}
  {
    assert a == [a[0]] + a[1..];
  }

  /** The tail of a sorted sequence is sorted. */
  lemma SortedTail(a: seq<int>)
    requires Sorted(a) && |a| > 0
    ensures Sorted(a[1..])
  {
  }

  /** The head of a sorted sequence is at most every element of it. */
  lemma SortedHeadLeast(a: seq<int>, v: int)
    requires Sorted(a) && v in multiset(a)
    ensures |a| > 0 && a[0] <= v
  {
    var i :| 0 <= i < |a| && a[i] == v;
    assert i == 0 || a[0] <= a[i];
  }

  /** A sorted sequence is determined by its multiset of elements. */
  lemma {:induction false} SortedPermutationUnique(a: seq<int>, b: seq<int>)
    requires Sorted(a) && Sorted(b) && multiset(a) == multiset(b)
    ensures a == b
    decreases |a|
  {
    assert |a| == |multiset(a)| == |multiset(b)| == |b|;
    if |a| > 0 {
      HeadsAgree(a, b);
      SortedPermutationUnique(a[1..], b[1..]);
      ConsEqual(a, b);
    }
  }

  /** Two sorted sequences with the same elements start alike and go on with sorted tails of the same elements. */
  lemma HeadsAgree(a: seq<int>, b: seq<int>)
    requires Sorted(a) && Sorted(b) && multiset(a) == multiset(b) && |a| > 0
    ensures |b| > 0 && a[0] == b[0] && multiset(a[1..]) == multiset(b[1..])
    ensures Sorted(a[1..]) && Sorted(b[1..])
  {
    SortedHeadLeast(a, b[0]);
    SortedHeadLeast(b, a[0]);
    HeadTail(a);
    HeadTail(b);
    SortedTail(a);
    SortedTail(b);
  }

  /** Sequences that agree on their heads and on their tails are equal. */
  lemma ConsEqual(a: seq<int>, b: seq<int>)
    requires |a| > 0 && |b| > 0 && a[0] == b[0] && a[1..] == b[1..]
    ensures a == b
  {
    assert a == [a[0]] + a[1..];
    assert b == [b[0]] + b[1..];
  }

  /**
    The recursive counter exceeds the iterative one by the number of base-case
    calls, which is one more than the number of partition steps.
  */
  lemma {:induction false} RecCountVersusIterCount(s: seq<int>)
    ensures RecCount(s) == IterCount(s) + Partitions(s) + 1
    decreases |s|
  {
    if |s| > 1 {
      var (t, p) := Partitioned(s);
      RecCountVersusIterCount(t[..p]);
      RecCountVersusIterCount(t[p + 1..]);
    }
  }

  /**
    The recursive counter is at most quadratic in the segment's length, and
    the iterative one is at most the recursive one.
  */
  lemma {:induction false} CountBound(s: seq<int>)
    ensures IterCount(s) <= RecCount(s) <= (|s| + 1) * (|s| + 1)
    decreases |s|
  {
    RecCountVersusIterCount(s);
  }

  /** `n` plus two parts' squares, the parts summing to `n - 1`, stays within `(n + 1)` squared. */
  lemma SquareSplit(n: int, a: nat, b: nat, x: int, y: int, r: int)
    requires a + b == n - 1 && x <= (a + 1) * (a + 1) && y <= (b + 1) * (b + 1) && r == n + x + y
    ensures r <= (n + 1) * (n + 1)
  {
    assert (a + b + 2) * (a + b + 2) == (a + 1) * (a + 1) + (b + 1) * (b + 1) + 2 * ((a + 1) * (b + 1));
    assert (a + 1) * (b + 1) == a * b + a + b + 1;
    assert a * b >= 0;
  }

  /**
    One unfolding of the iterative variant's counter, with the split that
    partitioning leaves; parts of at most one element cost nothing.
  */
  lemma IterStep(s: seq<int>) returns (t: seq<int>, q: nat)
    requires |s| >= 2
    ensures t == Partitioned(s).0 && q == Partitioned(s).1 && q < |t| == |s|
    ensures (forall k :: 0 <= k < q ==> t[k] <= t[q]) && (forall k :: q < k < |t| ==> t[k] > t[q])
    ensures multiset(t) == multiset(s)
    ensures IterCount(s) == |s| + IterCount(t[..q]) + IterCount(t[q + 1..])
    ensures |t[..q]| <= 1 ==> IterCount(t[..q]) == 0
    ensures |t[q + 1..]| <= 1 ==> IterCount(t[q + 1..]) == 0
  {
    PartitionSplit(s);
    t, q := IterUnfold(s);
  }

  lemma IterUnfold(s: seq<int>) returns (t: seq<int>, q: nat)
    requires |s| >= 2
    ensures t == Partitioned(s).0 && q == Partitioned(s).1 && q < |t| == |s|
    ensures IterCount(s) == |s| + IterCount(t[..q]) + IterCount(t[q + 1..])
  {
    t, q := Partitioned(s).0, Partitioned(s).1;
    var (t', q') := Partitioned(s);
    assert IterCount(s) == |s| + IterCount(t'[..q']) + IterCount(t'[q' + 1..]);
  }

  /** One unfolding of the recursive variant's counter. */
  lemma RecStep(s: seq<int>) returns (t: seq<int>, q: nat)
    requires |s| >= 2
    ensures t == Partitioned(s).0 && q == Partitioned(s).1 && q < |t| == |s|
    ensures RecCount(s) == |s| + RecCount(t[..q]) + RecCount(t[q + 1..])
  {
    t, q := Partitioned(s).0, Partitioned(s).1;
    var (t', q') := Partitioned(s);
    assert RecCount(s) == |s| + RecCount(t'[..q']) + RecCount(t'[q' + 1..]);
  }
}

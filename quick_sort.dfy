/**
  The instrumented quicksort object: an operation counter and the two clock
  readings taken around a sort, a Lomuto partition on an array range, the
  recursive and the iterative (explicit stack) quicksort, and the two public
  sort entry points that time a sort and then check its result.

  Clock readings are parameters of the entry points; the sortedness failure the
  entry points would raise is their boolean result `thrown`.
*/
module QuickSorter {
  import opened SortSpec
  import opened PendingRanges
  import opened RangeSpec

  /** Swapping positions `x` and `y` of an array, seen on one of its ranges. */
  lemma SwapInRange(before: seq<int>, after: seq<int>, low: int, high: int, x: int, y: int, xo: nat, yo: nat)
    requires 0 <= low <= x <= high < |before| == |after| && low <= y <= high
    requires xo == x - low && yo == y - low
    requires after == Swap(before, x, y)
    ensures after[low..high + 1] == Swap(before[low..high + 1], xo, yo)
    ensures after[..low] == before[..low] && after[high + 1..] == before[high + 1..]
  {
    var s, r := before[low..high + 1], after[low..high + 1];
    var w := Swap(s, xo, yo);
    forall k | 0 <= k < |r| ensures r[k] == w[k] {
      if k != xo && k != yo {
        assert r[k] == after[low + k] == before[low + k] == s[k];
      }
    }
  }

  /**
    One iteration of the partition loop on the array: `before` holds the scan
    state after `k` iterations in `low..high`, and `after` is `before` with the
    current element swapped forward when it is at most the pivot.
  */
  lemma ScanIteration(a0: seq<int>, before: seq<int>, after: seq<int>, s: seq<int>, low: int, high: int,
                      j: int, k: nat, k1: nat, i: int, i1: int)
    requires 0 <= low <= j < high < |a0| == |before| == |after| && s == a0[low..high + 1]
    requires k == j - low && k1 == k + 1
    requires before[low..high + 1] == LomutoScan(s, k).0 && i == low + LomutoScan(s, k).1
    requires before[..low] == a0[..low] && before[high + 1..] == a0[high + 1..]
    requires before[j] <= s[|s| - 1] ==> i1 == i + 1 && i1 < |before| && after == Swap(before, i1, j)
    requires before[j] > s[|s| - 1] ==> i1 == i && after == before
    ensures after[low..high + 1] == LomutoScan(s, k1).0 && i1 == low + LomutoScan(s, k1).1
    ensures after[..low] == a0[..low] && after[high + 1..] == a0[high + 1..]
  {
    var t, ti := LomutoStep(s, k, k1);
    assert before[j] == t[k];
    if t[k] <= s[|s| - 1] {
      SwapInRange(before, after, low, high, i1, j, ti + 1, k);
    }
  }

  /** The pivot swap after the partition loop's `last == high - low` iterations. */
  lemma PivotSwap(a0: seq<int>, before: seq<int>, after: seq<int>, s: seq<int>, low: int, high: int,
                  last: nat, i: int)
    requires 0 <= low <= high < |a0| == |before| == |after| && s == a0[low..high + 1] && last == high - low
    requires before[low..high + 1] == LomutoScan(s, last).0 && i == low + LomutoScan(s, last).1
    requires before[..low] == a0[..low] && before[high + 1..] == a0[high + 1..]
    requires low <= i + 1 <= high && after == Swap(before, i + 1, high)
    ensures after[low..high + 1] == Partitioned(s).0 && i + 1 == low + Partitioned(s).1
    ensures after[..low] == a0[..low] && after[high + 1..] == a0[high + 1..]
  {
    var t, ti := PartitionedLast(s, last);
    SwapInRange(before, after, low, high, i + 1, high, ti + 1, last);
  }

  class QuickSort {
    /** Operations counted since the last reset. */
    var count: int
    /** Clock reading taken when the last sort started. */
    var startTime: int
    /** Clock reading taken when the last sort ended. */
    var endTime: int

    constructor ()
      ensures count == 0 && startTime == 0 && endTime == 0
    {
      count := 0;
      startTime := 0;
      endTime := 0;
    }

    /** The operation counter. */
    function GetCount(): (r: int)
      reads this
      ensures r == count
    {
      count
    }

    /** Time between the two clock readings of the last sort. */
    function GetTime(): (r: int)
      reads this
      ensures r == endTime - startTime
    {
      endTime - startTime
    }

    /** Clears the counter and both clock readings. */
    method Reset()
      modifies this
      ensures count == 0 && startTime == 0 && endTime == 0
      ensures GetCount() == 0 && GetTime() == 0
    {
      startTime := 0;
      endTime := 0;
      count := 0;
    }

    /** Exchanges two cells of `arr` through a temporary. */
    static method SwapCells(arr: array<int>, x: int, y: int)
      requires 0 <= x < arr.Length && 0 <= y < arr.Length
      modifies arr
      ensures arr[x] == old(arr[y]) && arr[y] == old(arr[x])
      ensures forall k :: 0 <= k < arr.Length && k != x && k != y ==> arr[k] == old(arr[k])
      ensures arr[..] == Swap(old(arr[..]), x, y)
    {
      var temp := arr[x];
      arr[x] := arr[y];
      arr[y] := temp;
    }

    /**
      Pushes the range `x..y` on a stack whose slots `stack[..top + 1]` hold
      the pending ranges `rs`, as the two writes `stack[++top] = x` and
      `stack[++top] = y`; the result is the new top.
    */
    static method PushRange(stack: array<int>, top: int, x: int, y: int, ghost rs: seq<(int, int)>) returns (newTop: int)
      requires StackHolds(stack[..], top, rs) && top + 2 < stack.Length
      modifies stack
      ensures newTop == top + 2 && StackHolds(stack[..], newTop, rs + [(x, y)])
    {
      ghost var st := stack[..];
      StackPush(st, top, rs, x, y);
      newTop := top + 1;
      stack[newTop] := x;
      newTop := newTop + 1;
      stack[newTop] := y;
      assert stack[..] == st[top + 1 := x][top + 2 := y];
    }

    /**
      Pushes the sides of a pivot at `p` that still hold two or more elements,
      left side first, after `lo..hi` was popped and partitioned.
    */
    static method PushSides(stack: array<int>, top: int, lo: int, hi: int, p: int, ghost below: seq<(int, int)>)
      returns (newTop: int)
      requires StackHolds(stack[..], top, below) && 2 * |Pushed(below, lo, hi, p)| <= stack.Length
      modifies stack
      ensures StackHolds(stack[..], newTop, Pushed(below, lo, hi, p))
    {
      newTop := top;
      ghost var withLeft := below;
      if p - 1 > lo {
        newTop := PushRange(stack, newTop, lo, p - 1, withLeft);
        withLeft := withLeft + [(lo, p - 1)];
      }
      if p + 1 < hi {
        newTop := PushRange(stack, newTop, p + 1, hi, withLeft);
      }
    }

    /**
      Lomuto partition of `arr[low..high]` around its last element: the range
      becomes the partitioned segment, the result is the pivot's new position,
      nothing outside the range moves, and the counter grows by one per loop
      iteration, that is by `high - low`.
    */
    method Partition(arr: array<int>, low: int, high: int) returns (p: int)
      requires 0 <= low <= high < arr.Length
      modifies this`count, arr
      ensures arr[low..high + 1] == Partitioned(old(arr[low..high + 1])).0
      ensures p == low + Partitioned(old(arr[low..high + 1])).1
      ensures arr[..low] == old(arr[..low]) && arr[high + 1..] == old(arr[high + 1..])
      ensures count == old(count) + (high - low)
    {
      ghost var a0 := arr[..];
      ghost var s := arr[low..high + 1];
      var pivot := arr[high];
      var i := low - 1;
      var j := low;
      ghost var k: nat := 0;
      while j <= high - 1
        invariant low <= j <= high && k == j - low
        invariant arr[low..high + 1] == LomutoScan(s, k).0
        invariant i == low + LomutoScan(s, k).1
        invariant arr[..low] == a0[..low] && arr[high + 1..] == a0[high + 1..]
        invariant count == old(count) + k
        invariant pivot == s[|s| - 1]
      {
        count := count + 1;
        ghost var before, i0 := arr[..], i;
        if arr[j] <= pivot {
          i := i + 1;
          SwapCells(arr, i, j);
        }
        ScanIteration(a0, before, arr[..], s, low, high, j, k, k + 1, i0, i);
        j, k := j + 1, k + 1;
      }
      ghost var before := arr[..];
      SwapCells(arr, i + 1, high);
      PivotSwap(a0, before, arr[..], s, low, high, k, i);
      return i + 1;
    }

    /**
      Recursive quicksort of `arr[low..high]`: a range of at least two elements
      ends up sorted and a permutation of what it held while the rest of the
      array stays as it was; a call on a smaller range changes nothing. The
      counter grows by `RangeRecCount`, one per call including the calls on
      ranges of fewer than two elements.
    */
    method RecursiveQuicksort(arr: array<int>, low: int, high: int)
      requires low < high ==> 0 <= low && high < arr.Length
      modifies this`count, arr
      ensures low < high ==> SortedWithin(old(arr[..]), arr[..], low, high)
      ensures low >= high ==> arr[..] == old(arr[..])
      ensures count == old(count) + RangeRecCount(old(arr[..]), low, high)
      decreases high - low, 1
    {
      count := count + 1;
      if low < high {
        ghost var a, c0 := arr[..], count;
        var pi := Partition(arr, low, high);
        ghost var b, c1 := arr[..], count;
        PartitionRangeSplit(a, b, low, high, pi);
        SortAroundPivot(arr, low, high, pi);
        RecursiveStep(a, b, arr[..], low, high, pi);
        assert c1 == c0 + (high - low);
      }
    }

    /**
      The two recursive calls of `RecursiveQuicksort` on the sides of a pivot
      at `p`, left first: the range ends up sorted, and the counter grows by
      what the two calls add, both read on the array as it was.
    */
    method SortAroundPivot(arr: array<int>, low: int, high: int, p: int)
      requires 0 <= low <= p <= high < arr.Length
      requires forall k :: low <= k < p ==> arr[k] <= arr[p]
      requires forall k :: p < k <= high ==> arr[k] > arr[p]
      modifies this`count, arr
      ensures SortedWithin(old(arr[..]), arr[..], low, high)
      ensures count == old(count) + RangeRecCount(old(arr[..]), low, p - 1) + RangeRecCount(old(arr[..]), p + 1, high)
      decreases high - low, 0
    {
      ghost var b := arr[..];
      RecursiveQuicksort(arr, low, p - 1);
      ghost var m := arr[..];
      RecursiveQuicksort(arr, p + 1, high);
      SidesJoin(b, m, arr[..], low, high, p);
    }

    /**
      One pass of the loop of `IterativeQuicksort`: count the pass, pop the
      top range `lo..hi` of the explicit stack, partition it, and push the
      sides of the pivot that hold at least two elements, left first. The
      ranges `rs` the stack holds shrink, stay disjoint and keep what lies
      outside them in order, and the counter grows by what the popped range
      no longer owes. The ghost `cost` is `IterCount`, passed as a parameter
      for the reason given at the head of the pending-ranges module.
    */
    method PartitionTop(arr: array<int>, stack: array<int>, top: int, ghost a0: seq<int>, ghost rs: seq<(int, int)>,
                        low: int, high: int, ghost cost: seq<int> -> nat) returns (newTop: int, ghost next: seq<(int, int)>)
      requires stack != arr && stack.Length == high - low + 1 && top >= 0
      requires StackHolds(stack[..], top, rs) && Pending(a0, arr[..], rs, low, high)
      requires forall s :: cost(s) == IterCount(s)
      modifies this`count, arr, stack
      ensures StackHolds(stack[..], newTop, next) && Pending(a0, arr[..], next, low, high)
      ensures count + SumIter(arr[..], next, cost) == old(count) + SumIter(old(arr[..]), rs, cost)
      ensures SumSizes(next) < SumSizes(rs)
    {
      count := count + 1;
      StackPop(stack[..], top, rs);
      ghost var below := rs[..|rs| - 1];
      var hi := stack[top];
      newTop := top - 1;
      var lo := stack[newTop];
      newTop := newTop - 1;
      ghost var a, st := arr[..], stack[..];
      var p := Partition(arr, lo, hi);
      assert stack[..] == st;
      ghost var b := arr[..];
      IterationStep(a0, a, b, rs, below, lo, hi, p, low, high, cost);
      newTop := PushSides(stack, newTop, lo, hi, p, below);
      next := Pushed(below, lo, hi, p);
      assert arr[..] == b;
    }

    /**
      Iterative quicksort of `arr[low..high]` with an explicit stack of
      `high - low + 1` slots holding `low, high` pairs: the range ends up
      sorted and a permutation of what it held, the rest of the array stays as
      it was, the stack never overflows, and the counter grows by `IterCount`
      of the range, one per pop plus one per partition-loop iteration.
    */
    method IterativeQuicksort(arr: array<int>, low: int, high: int)
      requires 0 <= low < high < arr.Length
      modifies this`count, arr
      ensures SortedWithin(old(arr[..]), arr[..], low, high)
      ensures count == old(count) + IterCount(old(arr[low..high + 1]))
    {
      ghost var a0 := arr[..];
      ghost var cost: seq<int> -> nat := s => IterCount(s);
      ghost var total := old(count) + IterCount(a0[low..high + 1]);
      var stack := new int[high - low + 1];
      var top := -1;
      top := top + 1;
      stack[top] := low;
      top := top + 1;
      stack[top] := high;
      ghost var rs := [(low, high)];
      PendingStart(a0, low, high, cost);
      assert StackHolds(stack[..], top, rs);
      while top >= 0
        invariant stack.Length == high - low + 1
        invariant StackHolds(stack[..], top, rs)
        invariant Pending(a0, arr[..], rs, low, high)
        invariant count + SumIter(arr[..], rs, cost) == total
        decreases SumSizes(rs)
      {
        top, rs := PartitionTop(arr, stack, top, a0, rs, low, high, cost);
      }
      NothingPending(arr[..], low, high);
    }

    /**
      `recursiveSort`: read the clock, sort the whole list recursively, read
      the clock again, then check the result. The check never fails, even for
      lists of length 0 and 1 (a single base call), and the counter grows by
      the recursive count of the list, which is at least one.
    */
    method RecursiveSort(list: array<int>, clockStart: int, clockEnd: int) returns (thrown: bool)
      modifies this, list
      ensures !thrown
      ensures Sorted(list[..]) && multiset(list[..]) == multiset(old(list[..]))
      ensures count == old(count) + RecCount(old(list[..])) && count >= old(count) + 1
      ensures startTime == clockStart && endTime == clockEnd
    {
      ghost var a := list[..];
      startTime := clockStart;
      RecursiveQuicksort(list, 0, list.Length - 1);
      endTime := clockEnd;
      if list.Length - 1 <= 0 {
        SortedWithinSmall(a, 0, list.Length - 1);
      } else {
        assert a[0..list.Length] == a;
      }
      SortedWithinWhole(a, list[..]);
      NotSortedIffUnsorted(list[..]);
      thrown := IsNotSorted(list[..]);
    }

    /**
      `iterativeSort`: the same with the iterative variant. The list needs two
      or more elements: with fewer, the two writes before the loop overrun the
      stack of `list.Length` slots.
    */
    method IterativeSort(list: array<int>, clockStart: int, clockEnd: int) returns (thrown: bool)
      requires list.Length >= 2
      modifies this, list
      ensures !thrown
      ensures Sorted(list[..]) && multiset(list[..]) == multiset(old(list[..]))
      ensures count == old(count) + IterCount(old(list[..]))
      ensures startTime == clockStart && endTime == clockEnd
    {
      ghost var a := list[..];
      startTime := clockStart;
      assert a[0..list.Length] == a;
      IterativeQuicksort(list, 0, list.Length - 1);
      endTime := clockEnd;
      SortedWithinWhole(a, list[..]);
      NotSortedIffUnsorted(list[..]);
      thrown := IsNotSorted(list[..]);
    }
  }
}

/**
  The benchmark harness at the integer level: the trial loop that sorts the
  same data with both quicksort variants and records their counters and
  clock differences in four size-by-trial tables, the writer that emits a
  table pair as text, and the reader side that routes each line of the
  results file to a report row and takes the line apart into the texts of its
  counts and times.

  The random data and the clock readings of every trial are parameters; the
  text a writer receives is the result of the method that writes it.
*/
module Benchmark {
  import opened SortSpec
  import opened LineFormat
  import opened QuickSorter

  /** Trials per data size. */
  const DatasetCount := 50
  /** The data sizes, one table row each. */
  const DatasetSizes: seq<int> := [100, 200, 300, 400, 500, 600, 700, 800, 900, 1000]
  /** Cells in a row of a report: size, then average and spread of counts and of times. */
  const ResultRowCount := 5

  /** The four clock readings of one trial: around the recursive sort, then around the iterative one. */
  datatype Clocks = Clocks(recursiveStart: int, recursiveEnd: int, iterativeStart: int, iterativeEnd: int)

  /** Where the reader sends a line of the results file. */
  datatype Destination = RecursiveRow(row: int) | Separator | IterativeRow(row: int)

  /**
    Line `index` of the results file: the first ten lines go to the recursive
    report's rows in order, line 10 is the separator, and every later line
    goes to the iterative report's row eleven lines back.
  */
  function RouteOf(index: nat): (r: Destination)
    ensures r.Separator? <==> index == 10
    ensures r.RecursiveRow? <==> index < 10
    ensures r.RecursiveRow? ==> r.row == index
    ensures r.IterativeRow? ==> 0 <= r.row && r.row + 11 == index
  {
    if index < 10 then RecursiveRow(index)
    else if index > 10 then IterativeRow(index - 11)
    else Separator
  }

  /**
    The routing inverts the file's layout: the `r`-th line of the recursive
    block and the `r`-th line of the iterative block (after it and the
    separator) go back to row `r` of their report, and a line past both
    blocks names no row of a report.
  */
  lemma RouteInvertsLayout(r: nat)
    requires r < |DatasetSizes|
    ensures RouteOf(r) == RecursiveRow(r)
    ensures RouteOf(|DatasetSizes|) == Separator
    ensures RouteOf(|DatasetSizes| + 1 + r) == IterativeRow(r)
    ensures forall k: nat :: k > 2 * |DatasetSizes| ==> RouteOf(k).IterativeRow? && RouteOf(k).row >= |DatasetSizes|
  {
  }

  /** Row `i` of a table. */
  function TableRow(a: array2<int>, i: int): (r: seq<int>)
    reads a
    requires 0 <= i < a.Length0
    ensures |r| == a.Length1 && forall j :: 0 <= j < a.Length1 ==> r[j] == a[i, j]
  {
    seq(a.Length1, j requires 0 <= j < a.Length1 reads a => a[i, j])
  }

  /** A table as its rows. */
  function Rows(a: array2<int>): (r: seq<seq<int>>)
    reads a
    ensures |r| == a.Length0 && forall i :: 0 <= i < a.Length0 ==> r[i] == TableRow(a, i)
  {
    seq(a.Length0, i requires 0 <= i < a.Length0 reads a => TableRow(a, i))
  }

  /** A results table of the harness: one row per size, one column per trial. */
  ghost predicate TableShape(a: array2<int>) {
    a.Length0 == |DatasetSizes| && a.Length1 == DatasetCount
  }

  /**
    Every recorded counter fits a Java `int`: for the largest data size the
    recursive counter, and with it the iterative one, stays far below 2^31.
  */
  lemma CountsFitInt(s: seq<int>)
    requires |s| <= DatasetSizes[|DatasetSizes| - 1]
    ensures IterCount(s) <= RecCount(s) < 0x8000_0000
  {
    CountBound(s);
    SquareMonotone(|s| + 1, 1001);
  }

  lemma {:induction false} SquareMonotone(m: nat, k: nat)
    requires m <= k
    ensures m * m <= k * k
    decreases k - m
  {
    if m < k {
      SquareMonotone(m, k - 1);
      assert (k - 1) * (k - 1) == k * k - 2 * k + 1;
    }
  }

  /** Where line `k` of two blocks of ten lines with an empty line between them is found. */
  lemma RouteSplit(l1: seq<string>, l2: seq<string>, k: int)
    requires |l1| == 10 == |l2| && 0 <= k < 21
    ensures match RouteOf(k)
            case RecursiveRow(r) => 0 <= r < 10 && (l1 + [""] + l2)[k] == l1[r]
            case Separator => (l1 + [""] + l2)[k] == ""
            case IterativeRow(r) => 0 <= r < 10 && (l1 + [""] + l2)[k] == l2[r]
  {
  }

  /** Every line of the two blocks is routed to the report row it was written for. */
  lemma RoutedLines(rc: seq<seq<int>>, rt: seq<seq<int>>, ic: seq<seq<int>>, it: seq<seq<int>>,
                    l1: seq<string>, l2: seq<string>)
    requires Shaped(DatasetSizes, rc, rt) && Shaped(DatasetSizes, ic, it)
    requires l1 == BlockLines(DatasetSizes, rc, rt) && l2 == BlockLines(DatasetSizes, ic, it)
    ensures forall k :: 0 <= k < |l1 + [""] + l2| ==>
              match RouteOf(k)
              case RecursiveRow(r) => 0 <= r < |DatasetSizes| && (l1 + [""] + l2)[k] == LineText(DatasetSizes[r], rc[r], rt[r])
              case Separator => (l1 + [""] + l2)[k] == ""
              case IterativeRow(r) => 0 <= r < |DatasetSizes| && (l1 + [""] + l2)[k] == LineText(DatasetSizes[r], ic[r], it[r])
  {
    forall k | 0 <= k < |l1 + [""] + l2|
      ensures match RouteOf(k)
              case RecursiveRow(r) => 0 <= r < |DatasetSizes| && (l1 + [""] + l2)[k] == LineText(DatasetSizes[r], rc[r], rt[r])
              case Separator => (l1 + [""] + l2)[k] == ""
              case IterativeRow(r) => 0 <= r < |DatasetSizes| && (l1 + [""] + l2)[k] == LineText(DatasetSizes[r], ic[r], it[r])
    {
      RouteSplit(l1, l2, k);
    }
  }

  /**
    The text of two blocks with a newline between them, the way the results
    file is assembled, reads back as 21 lines, and every line the reader
    routes to a report row is the line written for that row.
  */
  lemma ReportRoundTrip(rc: seq<seq<int>>, rt: seq<seq<int>>, ic: seq<seq<int>>, it: seq<seq<int>>)
    requires Shaped(DatasetSizes, rc, rt) && Shaped(DatasetSizes, ic, it)
    ensures var lines := ReadLines(Block(DatasetSizes, rc, rt) + "\n" + Block(DatasetSizes, ic, it));
            && |lines| == 2 * |DatasetSizes| + 1
            && forall k :: 0 <= k < |lines| ==>
                 match RouteOf(k)
                 case RecursiveRow(r) => 0 <= r < |DatasetSizes| && lines[k] == LineText(DatasetSizes[r], rc[r], rt[r])
                 case Separator => lines[k] == ""
                 case IterativeRow(r) => 0 <= r < |DatasetSizes| && lines[k] == LineText(DatasetSizes[r], ic[r], it[r])
  {
    ReportLines(DatasetSizes, rc, rt, ic, it);
    RoutedLines(rc, rt, ic, it, BlockLines(DatasetSizes, rc, rt), BlockLines(DatasetSizes, ic, it));
  }

  class BenchmarkSorts {
    const recursiveTime: array2<int>
    const iterativeTime: array2<int>
    const recursiveCount: array2<int>
    const iterativeCount: array2<int>
    /** The report rows; `None` is a cell not filled yet. */
    const recursiveResultForm: array2<Option<string>>
    const iterativeResultForm: array2<Option<string>>
    const recursiveSort: QuickSort
    const iterativeSort: QuickSort

    /** Tables of the right shapes, and no two of them, nor the two sorters, the same object. */
    ghost predicate Valid()
      reads this
    {
      && TableShape(recursiveTime) && TableShape(iterativeTime)
      && TableShape(recursiveCount) && TableShape(iterativeCount)
      && recursiveResultForm.Length0 == |DatasetSizes| == iterativeResultForm.Length0
      && recursiveResultForm.Length1 == ResultRowCount == iterativeResultForm.Length1
      && recursiveTime != iterativeTime && recursiveTime != recursiveCount && recursiveTime != iterativeCount
      && iterativeTime != recursiveCount && iterativeTime != iterativeCount && recursiveCount != iterativeCount
      && recursiveResultForm != iterativeResultForm
      && recursiveSort != iterativeSort
    }

    constructor ()
      ensures Valid()
      ensures fresh(recursiveTime) && fresh(iterativeTime) && fresh(recursiveCount) && fresh(iterativeCount)
      ensures fresh(recursiveResultForm) && fresh(iterativeResultForm) && fresh(recursiveSort) && fresh(iterativeSort)
      ensures forall i, j :: 0 <= i < |DatasetSizes| && 0 <= j < DatasetCount ==>
                && recursiveTime[i, j] == 0 && iterativeTime[i, j] == 0
                && recursiveCount[i, j] == 0 && iterativeCount[i, j] == 0
      ensures forall i, j :: 0 <= i < |DatasetSizes| && 0 <= j < ResultRowCount ==>
                recursiveResultForm[i, j] == None && iterativeResultForm[i, j] == None
      ensures recursiveSort.count == 0 && recursiveSort.startTime == 0 && recursiveSort.endTime == 0
      ensures iterativeSort.count == 0 && iterativeSort.startTime == 0 && iterativeSort.endTime == 0
    {
      recursiveTime := new int[|DatasetSizes|, DatasetCount]((i, j) => 0);
      iterativeTime := new int[|DatasetSizes|, DatasetCount]((i, j) => 0);
      recursiveCount := new int[|DatasetSizes|, DatasetCount]((i, j) => 0);
      iterativeCount := new int[|DatasetSizes|, DatasetCount]((i, j) => 0);
      recursiveResultForm := new Option<string>[|DatasetSizes|, ResultRowCount]((i, j) => None);
      iterativeResultForm := new Option<string>[|DatasetSizes|, ResultRowCount]((i, j) => None);
      recursiveSort := new QuickSort();
      iterativeSort := new QuickSort();
    }

    /** What cell `[i, j]` of the four tables holds after trial `j` of size `i` on `values`. */
    ghost predicate Recorded(i: int, j: int, values: seq<int>, clocks: Clocks, recursiveBefore: int, iterativeBefore: int)
      reads this, recursiveCount, iterativeCount, recursiveTime, iterativeTime
      requires Valid() && 0 <= i < |DatasetSizes| && 0 <= j < DatasetCount
    {
      && recursiveCount[i, j] == recursiveBefore + RecCount(values)
      && iterativeCount[i, j] == iterativeBefore + IterCount(values)
      && recursiveTime[i, j] == clocks.recursiveEnd - clocks.recursiveStart
      && iterativeTime[i, j] == clocks.iterativeEnd - clocks.iterativeStart
    }

    /**
      One trial: a data array and its clone, the recursive sort of the first
      and the iterative sort of the second, then the counters and clock
      differences recorded in cell `[i, j]` and both sorters reset. Both
      arrays end up the same sorted permutation of the data; the sort checks
      cannot fail, so the recording always happens.
    */
    method RunTrial(i: int, j: int, values: seq<int>, clocks: Clocks) returns (data: array<int>, data2: array<int>)
      requires Valid() && 0 <= i < |DatasetSizes| && 0 <= j < DatasetCount && |values| >= 2
      modifies recursiveCount, iterativeCount, recursiveTime, iterativeTime, recursiveSort, iterativeSort
      ensures fresh(data) && fresh(data2) && data != data2
      ensures data[..] == data2[..] && Sorted(data[..]) && multiset(data[..]) == multiset(values)
      ensures Recorded(i, j, values, clocks, old(recursiveSort.count), old(iterativeSort.count))
      ensures forall x, y :: 0 <= x < |DatasetSizes| && 0 <= y < DatasetCount && (x != i || y != j) ==>
                && recursiveCount[x, y] == old(recursiveCount[x, y]) && iterativeCount[x, y] == old(iterativeCount[x, y])
                && recursiveTime[x, y] == old(recursiveTime[x, y]) && iterativeTime[x, y] == old(iterativeTime[x, y])
      ensures recursiveSort.count == 0 && recursiveSort.startTime == 0 && recursiveSort.endTime == 0
      ensures iterativeSort.count == 0 && iterativeSort.startTime == 0 && iterativeSort.endTime == 0
    {
      data, data2 := SortBoth(values, clocks);
      ghost var sorted := data[..];
      recursiveCount[i, j] := recursiveSort.GetCount();
      iterativeCount[i, j] := iterativeSort.GetCount();
      recursiveTime[i, j] := recursiveSort.GetTime();
      iterativeTime[i, j] := iterativeSort.GetTime();
      recursiveSort.Reset();
      iterativeSort.Reset();
      assert data[..] == sorted && data2[..] == sorted;
    }

    /**
      The sorting half of a trial: a data array holding `values`, its clone,
      the recursive sort of the first and the iterative sort of the second,
      each between its two clock readings. Both arrays end up the same sorted
      permutation of the data.
    */
    method SortBoth(values: seq<int>, clocks: Clocks) returns (data: array<int>, data2: array<int>)
      requires Valid() && |values| >= 2
      modifies recursiveSort, iterativeSort
      ensures fresh(data) && fresh(data2) && data != data2
      ensures data[..] == data2[..] && Sorted(data[..]) && multiset(data[..]) == multiset(values)
      ensures recursiveSort.count == old(recursiveSort.count) + RecCount(values)
      ensures iterativeSort.count == old(iterativeSort.count) + IterCount(values)
      ensures recursiveSort.GetTime() == clocks.recursiveEnd - clocks.recursiveStart
      ensures iterativeSort.GetTime() == clocks.iterativeEnd - clocks.iterativeStart
    {
      data := new int[|values|](k requires 0 <= k < |values| => values[k]);
      data2 := new int[data.Length](k requires 0 <= k < data.Length reads data => data[k]);
      assert data[..] == values;
      assert data2[..] == values;
      var thrown := recursiveSort.RecursiveSort(data, clocks.recursiveStart, clocks.recursiveEnd);
      thrown := iterativeSort.IterativeSort(data2, clocks.iterativeStart, clocks.iterativeEnd);
      SortedPermutationUnique(data[..], data2[..]);
    }

    /**
      The trials of one data size of `runTests`: trial by trial, cell `[i, j]`
      of the tables gets trial `j`'s counters and clock differences. Only the
      first trial also carries what the sorters had counted before; rows of
      other sizes are left alone.
    */
    method RunSize(i: int, row: seq<seq<int>>, rowClocks: seq<Clocks>)
      requires Valid() && 0 <= i < |DatasetSizes| && |row| == DatasetCount == |rowClocks|
      requires forall j :: 0 <= j < DatasetCount ==> |row[j]| == DatasetSizes[i]
      modifies recursiveCount, iterativeCount, recursiveTime, iterativeTime, recursiveSort, iterativeSort
      ensures forall y :: 0 <= y < DatasetCount ==>
                Recorded(i, y, row[y], rowClocks[y],
                         if y == 0 then old(recursiveSort.count) else 0,
                         if y == 0 then old(iterativeSort.count) else 0)
      ensures forall x, y :: 0 <= x < |DatasetSizes| && x != i && 0 <= y < DatasetCount ==>
                && recursiveCount[x, y] == old(recursiveCount[x, y]) && iterativeCount[x, y] == old(iterativeCount[x, y])
                && recursiveTime[x, y] == old(recursiveTime[x, y]) && iterativeTime[x, y] == old(iterativeTime[x, y])
      ensures recursiveSort.count == 0 && recursiveSort.startTime == 0 && recursiveSort.endTime == 0
      ensures iterativeSort.count == 0 && iterativeSort.startTime == 0 && iterativeSort.endTime == 0
    {
      ghost var rc0, ic0 := recursiveSort.count, iterativeSort.count;
      var j := 0;
      while j < DatasetCount
        invariant 0 <= j <= DatasetCount
        invariant j > 0 ==> recursiveSort.count == 0 && recursiveSort.startTime == 0 && recursiveSort.endTime == 0
        invariant j > 0 ==> iterativeSort.count == 0 && iterativeSort.startTime == 0 && iterativeSort.endTime == 0
        invariant j == 0 ==> recursiveSort.count == rc0 && iterativeSort.count == ic0
        invariant forall y :: 0 <= y < j ==>
                    Recorded(i, y, row[y], rowClocks[y], if y == 0 then rc0 else 0, if y == 0 then ic0 else 0)
        invariant forall x, y :: 0 <= x < |DatasetSizes| && x != i && 0 <= y < DatasetCount ==>
                    && recursiveCount[x, y] == old(recursiveCount[x, y]) && iterativeCount[x, y] == old(iterativeCount[x, y])
                    && recursiveTime[x, y] == old(recursiveTime[x, y]) && iterativeTime[x, y] == old(iterativeTime[x, y])
      {
        var sorted, sorted2 := RunTrial(i, j, row[j], rowClocks[j]);
        j := j + 1;
      }
    }

    /**
      `runTests`: one trial per cell of the tables, size by size and trial by
      trial. Every cell holds its own trial's counters and clock differences;
      only the very first trial also carries what the sorters had counted
      before, since after every trial both are reset.
    */
    method RunTests(data: seq<seq<seq<int>>>, clocks: seq<seq<Clocks>>)
      requires Valid() && |data| == |DatasetSizes| == |clocks|
      requires forall i :: 0 <= i < |DatasetSizes| ==> |data[i]| == DatasetCount == |clocks[i]|
      requires forall i, j :: 0 <= i < |DatasetSizes| && 0 <= j < DatasetCount ==> |data[i][j]| == DatasetSizes[i]
      modifies recursiveCount, iterativeCount, recursiveTime, iterativeTime, recursiveSort, iterativeSort
      ensures forall i, j :: 0 <= i < |DatasetSizes| && 0 <= j < DatasetCount ==>
                Recorded(i, j, data[i][j], clocks[i][j],
                         if i == 0 && j == 0 then old(recursiveSort.count) else 0,
                         if i == 0 && j == 0 then old(iterativeSort.count) else 0)
      ensures recursiveSort.count == 0 && recursiveSort.startTime == 0 && recursiveSort.endTime == 0
      ensures iterativeSort.count == 0 && iterativeSort.startTime == 0 && iterativeSort.endTime == 0
    {
      ghost var rc0, ic0 := recursiveSort.count, iterativeSort.count;
      var i := 0;
      while i < |DatasetSizes|
        invariant 0 <= i <= |DatasetSizes|
        invariant i > 0 ==> recursiveSort.count == 0 && recursiveSort.startTime == 0 && recursiveSort.endTime == 0
        invariant i > 0 ==> iterativeSort.count == 0 && iterativeSort.startTime == 0 && iterativeSort.endTime == 0
        invariant i == 0 ==> recursiveSort.count == rc0 && iterativeSort.count == ic0
        invariant forall x, y :: 0 <= x < i && 0 <= y < DatasetCount ==>
                    Recorded(x, y, data[x][y], clocks[x][y], if x == 0 && y == 0 then rc0 else 0, if x == 0 && y == 0 then ic0 else 0)
      {
        RunSize(i, data[i], clocks[i]);
        i := i + 1;
      }
    }

    /**
      `writeData`: the text written for one pair of tables, line by line and
      field by field: each line is the size and a space, then every trial's
      `count,time` and a space, then a newline.
    */
    static method WriteData(counts: array2<int>, times: array2<int>) returns (text: string)
      requires TableShape(counts) && TableShape(times)
      ensures Shaped(DatasetSizes, Rows(counts), Rows(times))
      ensures text == Block(DatasetSizes, Rows(counts), Rows(times))
    {
      ghost var lines := BlockLines(DatasetSizes, Rows(counts), Rows(times));
      text := "";
      var i := 0;
      while i < |DatasetSizes|
        invariant 0 <= i <= |DatasetSizes|
        invariant text == Terminated(lines[..i], '\n')
      {
        var line := WriteLine(counts, times, i);
        assert lines[i] == LineText(DatasetSizes[i], TableRow(counts, i), TableRow(times, i));
        EndLine(lines, i, text);
        text := text + line;
        i := i + 1;
      }
      assert lines[..i] == lines;
    }

    /**
      The inner loop of `writeData` for size `i`: the size and a space, every
      trial's `count,time` and a space, then a newline.
    */
    static method WriteLine(counts: array2<int>, times: array2<int>, i: int) returns (line: string)
      requires TableShape(counts) && TableShape(times) && 0 <= i < |DatasetSizes|
      ensures line == LineText(DatasetSizes[i], TableRow(counts, i), TableRow(times, i)) + "\n"
    {
      ghost var c, t := TableRow(counts, i), TableRow(times, i);
      line := DecimalString(DatasetSizes[i]) + " ";
      assert line == Terminated(LineFields(DatasetSizes[i], c[..0], t[..0]), ' ');
      var j := 0;
      while j < DatasetCount
        invariant 0 <= j <= DatasetCount
        invariant line == Terminated(LineFields(DatasetSizes[i], c[..j], t[..j]), ' ')
      {
        WriteField(line, DatasetSizes[i], c, t, j);
        line := line + (DecimalString(counts[i, j]) + "," + DecimalString(times[i, j]) + " ");
        j := j + 1;
      }
      assert c[..j] == c && t[..j] == t;
      line := line + "\n";
    }

    /**
      `outputFile`, without the file: the recursive tables' block, an empty
      line, then the iterative tables' block.
    */
    method OutputFile() returns (text: string)
      requires Valid()
      ensures Shaped(DatasetSizes, Rows(recursiveCount), Rows(recursiveTime))
      ensures Shaped(DatasetSizes, Rows(iterativeCount), Rows(iterativeTime))
      ensures text == Block(DatasetSizes, Rows(recursiveCount), Rows(recursiveTime)) + "\n"
                    + Block(DatasetSizes, Rows(iterativeCount), Rows(iterativeTime))
    {
      var recursive := WriteData(recursiveCount, recursiveTime);
      var iterative := WriteData(iterativeCount, iterativeTime);
      text := recursive + "\n" + iterative;
    }

    /**
      `parseLineData` up to the numbers: the first field fills the size cell
      of report row `index`, and fields `1..50` are split on `','` into the
      count text and the time text that `Double.parseDouble` would read,
      stored in `countData` and `timeData`. The result is false where a field
      or a part is missing, that is where the array accesses fail; the row's
      summary cells are then left alone. Otherwise they get the four summary
      texts, which are computed from the numbers in floating point and are a
      parameter here.
    */
    static method ParseLineData(index: int, stringData: seq<string>, countData: array<string>, timeData: array<string>,
                                resultForm: array2<Option<string>>, summary: seq<string>) returns (ok: bool)
      requires 0 <= index < resultForm.Length0 && resultForm.Length1 == ResultRowCount
      requires countData.Length == DatasetCount == timeData.Length && countData != timeData
      requires |summary| == ResultRowCount - 1
      modifies resultForm, countData, timeData
      ensures ok <==> DecodeFields(stringData, DatasetCount).Some?
      ensures ok ==> (&& countData[..] == DecodeFields(stringData, DatasetCount).value.0
                      && timeData[..] == DecodeFields(stringData, DatasetCount).value.1)
      ensures |stringData| > 0 ==> resultForm[index, 0] == Some(stringData[0])
      ensures ok ==> forall y :: 1 <= y < ResultRowCount ==> resultForm[index, y] == Some(summary[y - 1])
      ensures forall x, y :: 0 <= x < resultForm.Length0 && 0 <= y < ResultRowCount && Kept(x, y, index, |stringData|, ok) ==>
                resultForm[x, y] == old(resultForm[x, y])
    {
      if |stringData| == 0 {
        return false;
      }
      resultForm[index, 0] := Some(stringData[0]);
      var i := 1;
      while i <= DatasetCount
        invariant 1 <= i <= DatasetCount + 1 && i <= |stringData|
        invariant forall k :: 1 <= k < i ==>
                    && |JavaSplit(stringData[k], ',')| >= 2
                    && countData[k - 1] == JavaSplit(stringData[k], ',')[0]
                    && timeData[k - 1] == JavaSplit(stringData[k], ',')[1]
        invariant forall x, y :: 0 <= x < resultForm.Length0 && 0 <= y < ResultRowCount && (x != index || y != 0) ==>
                    resultForm[x, y] == old(resultForm[x, y])
        invariant resultForm[index, 0] == Some(stringData[0])
      {
        if i >= |stringData| {
          return false;
        }
        var val := stringData[i];
        var countAndTime := JavaSplit(val, ',');
        if |countAndTime| == 0 {
          return false;
        }
        countData[i - 1] := countAndTime[0];
        if |countAndTime| < 2 {
          return false;
        }
        timeData[i - 1] := countAndTime[1];
        i := i + 1;
      }
      resultForm[index, 1] := Some(summary[0]);
      resultForm[index, 2] := Some(summary[1]);
      resultForm[index, 3] := Some(summary[2]);
      resultForm[index, 4] := Some(summary[3]);
      ok := true;
    }

    /**
      `parseStringData`: split line `index` of the results file on spaces and
      hand it to `parseLineData` for the report row `RouteOf(index)` names;
      the separator line is skipped. The result is false where the reader
      fails: a line past both blocks names a row the report does not have.
      `summary` stands for the four summary texts of the line.
    */
    method ParseStringData(line: string, index: nat, summary: seq<string>) returns (ok: bool)
      requires Valid() && |summary| == ResultRowCount - 1
      modifies recursiveResultForm, iterativeResultForm
      ensures RouteOf(index).Separator? ==> ok && unchanged(recursiveResultForm, iterativeResultForm)
      ensures RouteOf(index).RecursiveRow? ==>
                && (ok <==> DecodeFields(JavaSplit(line, ' '), DatasetCount).Some?)
                && unchanged(iterativeResultForm)
                && RowFilled(recursiveResultForm, index, JavaSplit(line, ' '), ok, summary)
      ensures RouteOf(index).IterativeRow? && index - 11 < |DatasetSizes| ==>
                && (ok <==> DecodeFields(JavaSplit(line, ' '), DatasetCount).Some?)
                && unchanged(recursiveResultForm)
                && RowFilled(iterativeResultForm, index - 11, JavaSplit(line, ' '), ok, summary)
      ensures RouteOf(index).IterativeRow? && index - 11 >= |DatasetSizes| ==>
                !ok && unchanged(recursiveResultForm, iterativeResultForm)
    {
      var stringData := JavaSplit(line, ' ');
      var countData := new string[DatasetCount];
      var timeData := new string[DatasetCount];
      if index < 10 {
        ok := ParseLineData(index, stringData, countData, timeData, recursiveResultForm, summary);
      } else if index > 10 {
        var iterativeIndex := index - 11;
        if iterativeIndex >= iterativeResultForm.Length0 {
          return false;
        }
        ok := ParseLineData(iterativeIndex, stringData, countData, timeData, iterativeResultForm, summary);
      } else {
        ok := true;
      }
    }
  }

  /**
    Cell `[x, y]` of a report is left alone by reading a line of `fieldCount`
    fields into row `row`: it lies in another row, or it is the size cell and
    the line has no field, or it is a summary cell and the reading failed.
  */
  predicate Kept(x: int, y: int, row: int, fieldCount: int, ok: bool) {
    x != row || (y == 0 && fieldCount == 0) || (y != 0 && !ok)
  }

  /**
    Row `row` of a report got its size cell from the split line and, when the
    reading succeeded, its summary cells from `summary`; every other cell kept
    its value.
  */
  twostate predicate RowFilled(form: array2<Option<string>>, row: int, fields: seq<string>, ok: bool, summary: seq<string>)
    reads form
  {
    && (|fields| > 0 && 0 <= row < form.Length0 && 0 < form.Length1 ==> form[row, 0] == Some(fields[0]))
    && (ok && 0 <= row < form.Length0 && |summary| == form.Length1 - 1 ==>
          forall y :: 1 <= y < form.Length1 ==> form[row, y] == Some(summary[y - 1]))
    && forall x, y :: 0 <= x < form.Length0 && 0 <= y < form.Length1 && Kept(x, y, row, |fields|, ok) ==>
         form[x, y] == old(form[x, y])
  }

  /** One `count,time` field, and the space after it, appended to a line being written. */
  lemma WriteField(line: string, size: int, c: seq<int>, t: seq<int>, j: int)
    requires 0 <= j < |c| == |t|
    requires line == Terminated(LineFields(size, c[..j], t[..j]), ' ')
    ensures line + (DecimalString(c[j]) + "," + DecimalString(t[j]) + " ") == Terminated(LineFields(size, c[..j + 1], t[..j + 1]), ' ')
  {
    var p := PairField(c[j], t[j]);
    assert DecimalString(c[j]) + "," + DecimalString(t[j]) + " " == p + [' '];
    LineFieldsAppend(size, c, t, j);
    TerminatedAppend(LineFields(size, c[..j], t[..j]), p, ' ');
  }

  /** Line `i` of a block, with its newline, appended to the lines before it. */
  lemma EndLine(lines: seq<string>, i: int, done: string)
    requires 0 <= i < |lines| && done == Terminated(lines[..i], '\n')
    ensures done + (lines[i] + "\n") == Terminated(lines[..i + 1], '\n')
  {
    var x := lines[i];
    assert lines[..i + 1] == lines[..i] + [x];
    TerminatedAppend(lines[..i], x, '\n');
    AppendAssoc(done, x, "\n");
  }
}

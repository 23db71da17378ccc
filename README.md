# Quicksort benchmark: instrumented quicksort and raw-results format

The repository benchmarks two versions of quicksort on random integer arrays:

- a recursive version;
- an iterative version that replaces recursion with an explicit stack of `low, high` pairs.

Both versions use the Lomuto partition with the last element as pivot, and both count operations:

- the recursive variant counts one per call;
- the iterative variant counts one per stack pop;
- both count one per iteration of the partition loop.

The two entry points `recursiveSort` and `iterativeSort` read the clock before and after calling `recursiveQuicksort` or `iterativeQuicksort` on the whole list, and then check that the list is sorted.

The harness then:

1. runs 50 trials for each data size 100, 200, …, 1000;
2. records the counters and elapsed times in four size-by-trial tables;
3. writes the tables as text: a block of ten lines for the recursive tables, an empty line, then a block of ten lines for the iterative tables, each line being `size count,time count,time … `;
4. reads that text back, routing every line except the empty separator line to a row of one of two report tables.

This project models both parts in Dafny:

- the `QuickSort` object (`quick_sort.dfy`): a class with the counter and the two clock fields, with in-place methods over `array<int>`. It rests on a value-level specification of the partition and of the two counters (`sort_spec.dfy`), on facts about sorting one range of an array (`range_spec.dfy`), and on the invariant of the iterative version's stack (`pending_ranges.dfy`);
- the harness (`benchmark_sorts.dfy`): the trial loop over the four tables, the writer for the table text, and the reader that routes and splits each line. The text format itself is specified as encode/decode functions in `line_format.dfy`.

Main results:

- **Partition.** It splits its range around the old last element. It only swaps, leaves everything outside the range alone, and adds exactly `high - low` to the counter. The code counts one per loop iteration, although the method's doc comment says once per call.
- **Sorting.** Both quicksorts leave their range sorted and a permutation of what it held, with nothing outside the range changed. `recursiveSort` therefore never reports an unsorted list, lists of length 0 and 1 included, and `iterativeSort` never does for lists of two or more elements.
- **Exact counters.** The recursive quicksort's counter grows by `RecCount` of the input and the iterative one's by `IterCount`. These two functions follow the partition's split. The recursive count equals the iterative count plus the number of partition steps plus one, and it is at most `(n + 1)^2` for `n` elements. For the sizes the harness uses, every counter therefore fits a Java `int`.
- **The iterative stack.** The ranges on the explicit stack stay disjoint and each holds two or more elements. So the stack of `high - low + 1` slots never overflows, and the loop ends because the ranges pushed hold fewer positions than the one popped.
- **Trials.** In a trial both variants sort equal copies of the same data, so they end with the same array. Every cell of the four tables holds its own trial's counter and clock difference, because both sorters are reset after each trial.
- **Round trip of the results file.** The written text reads back as 21 lines, and the reader routes each of them to the report row it was written for. Splitting a line on spaces gives back its fields. The first field reads as the size, and every other field splits on `,` into the decimal texts of that trial's count and time.

The clock readings (`System.nanoTime`) and the random data are parameters. No file is written or read: each writer method returns the text it would write, and the reader methods take their line as a parameter. The check that would throw `UnsortedException` is modelled as the boolean result `thrown`. Any array index failure in the reader is modelled as the result `ok == false`.

## Model

| member | source | states |
|---|---|---|
| QuickSorter.QuickSort.constructor | Project1/src/dev/tylerdclark/QuickSort.java:17-21 | a new sorter has counter 0 and both clock readings 0 |
| QuickSorter.QuickSort.GetCount | Project1/src/dev/tylerdclark/QuickSort.java:195-197 | the accessor returns the counter field |
| QuickSorter.QuickSort.GetTime | Project1/src/dev/tylerdclark/QuickSort.java:205-207 | the elapsed time is the end reading minus the start reading |
| QuickSorter.QuickSort.Reset | Project1/src/dev/tylerdclark/QuickSort.java:183-187 | counter and both readings become 0, so `GetCount()` and `GetTime()` are both 0 afterwards |
| QuickSorter.QuickSort.SwapCells | Project1/src/dev/tylerdclark/QuickSort.java:155-157 | the array becomes `Swap` of its old contents: the two cells are exchanged and every other cell keeps its value |
| QuickSorter.QuickSort.Partition | Project1/src/dev/tylerdclark/QuickSort.java:144-167 | the range becomes `Partitioned` of its old contents, the result is the pivot's new index, cells outside `low..high` keep their values, and the counter grows by exactly `high - low` |
| QuickSorter.SwapInRange | Project1/src/dev/tylerdclark/QuickSort.java:155-157 | swapping two cells of a range is `Swap` on the range's contents, and the array outside the range is unchanged |
| QuickSorter.ScanIteration | Project1/src/dev/tylerdclark/QuickSort.java:147-159 | one iteration of the partition loop on the array moves the range from the `LomutoScan` state after `k` iterations to the state after `k + 1` |
| QuickSorter.PivotSwap | Project1/src/dev/tylerdclark/QuickSort.java:162-166 | the final pivot swap turns the scan's end state into `Partitioned`, with the pivot at the returned index |
| QuickSorter.QuickSort.RecursiveQuicksort | Project1/src/dev/tylerdclark/QuickSort.java:71-84 | a range of two or more elements ends sorted and a permutation of itself, with the rest of the array unchanged; a smaller range leaves the array unchanged; the counter grows by `RangeRecCount`, one per call including base calls |
| QuickSorter.QuickSort.SortAroundPivot | Project1/src/dev/tylerdclark/QuickSort.java:80-81 | the two recursive calls on the sides of a placed pivot sort the whole range, and the counter grows by the two sides' recursive counts, both read on the array before the calls |
| QuickSorter.QuickSort.PushRange | Project1/src/dev/tylerdclark/QuickSort.java:122-123 | the two writes `stack[++top]` push the range onto the pending ranges that the stack slots encode, and `top` grows by 2 |
| QuickSorter.QuickSort.PushSides | Project1/src/dev/tylerdclark/QuickSort.java:119-131 | the sides of the pivot with two or more elements are pushed, left first; the stack then encodes `Pushed` |
| QuickSorter.QuickSort.PartitionTop | Project1/src/dev/tylerdclark/QuickSort.java:108-131 | one loop pass: the stack still encodes the pending ranges and the invariant `Pending` holds; the counter plus the iterative cost still owed is unchanged; the total size of the pending ranges drops |
| QuickSorter.QuickSort.IterativeQuicksort | Project1/src/dev/tylerdclark/QuickSort.java:95-133 | the range ends sorted and a permutation of itself, with the rest of the array unchanged; the stack of `high - low + 1` slots never overflows (every index is checked); the counter grows by exactly `IterCount` of the range |
| QuickSorter.QuickSort.RecursiveSort | Project1/src/dev/tylerdclark/QuickSort.java:30-39 | the list ends sorted and a permutation of itself, for every length; the check never fails; the counter grows by `RecCount` of the list, which is at least 1; the clock fields hold the two readings |
| QuickSorter.QuickSort.IterativeSort | Project1/src/dev/tylerdclark/QuickSort.java:49-59 | for two or more elements: the same outcome with `IterCount` |
| SortSpec.IsNotSorted | Project1/src/dev/tylerdclark/QuickSort.java:176-178 | true exactly when some neighbouring pair is in descending order |
| SortSpec.NotSortedIffUnsorted | Project1/src/dev/tylerdclark/QuickSort.java:176-178 | the neighbouring-pair check is false exactly for sorted sequences (every pair of positions in order) |
| SortSpec.Swap | Project1/src/dev/tylerdclark/QuickSort.java:155-157 | the swap exchanges the two positions and keeps all others |
| SortSpec.SwapPermutes | Project1/src/dev/tylerdclark/QuickSort.java:155-157 | a swap keeps the multiset of elements |
| SortSpec.LomutoScan | Project1/src/dev/tylerdclark/QuickSort.java:146-159 | the scan state after `j` iterations keeps the length, and the index of the last small element lies in `-1..j-1` |
| SortSpec.LomutoScanInvariant | Project1/src/dev/tylerdclark/QuickSort.java:147-159 | after `j` iterations: positions `0..i` hold elements at most the pivot, positions `i+1..j-1` hold larger ones, and the rest is untouched |
| SortSpec.LomutoScanPermutes | Project1/src/dev/tylerdclark/QuickSort.java:147-159 | the scan keeps the multiset of the segment |
| SortSpec.LomutoStep | Project1/src/dev/tylerdclark/QuickSort.java:151-158 | one iteration swaps the current element forward exactly when it is at most the pivot, and otherwise changes nothing |
| SortSpec.Partitioned | Project1/src/dev/tylerdclark/QuickSort.java:144-167 | the partitioned segment has the input's length and the pivot index lies within it |
| SortSpec.PartitionedLast | Project1/src/dev/tylerdclark/QuickSort.java:162-166 | the partitioned segment is the scan's end state with positions `i + 1` and `high` swapped, and the pivot index is `i + 1` |
| SortSpec.PartitionSplit | Project1/src/dev/tylerdclark/QuickSort.java:144-166 | the new pivot cell holds the old last element; everything before it is at most the pivot, everything after it is larger; the multiset is kept |
| SortSpec.SortedPermutationUnique | Project1/src/dev/tylerdclark/BenchmarkSorts.java:82-95 | two sorted sequences with the same multiset are equal, so the two variants' results on equal data coincide |
| SortSpec.RecCount | Project1/src/dev/tylerdclark/QuickSort.java:71-84 | the recursive variant's counter growth on a segment, one per call (line 72) and one per partition-loop iteration (line 148); it is at least 1, at least the segment's length, and at most `(n + 1)^2` for `n` elements |
| SortSpec.IterCount | Project1/src/dev/tylerdclark/QuickSort.java:108-131 | the iterative variant's counter growth, one per pop (line 110) and one per partition-loop iteration (line 148); for two or more elements it is at least the segment's length |
| SortSpec.RecCountVersusIterCount | Project1/src/dev/tylerdclark/QuickSort.java:72-81 | the recursive count is the iterative count plus the number of partition steps plus one, since it adds one for every base call |
| SortSpec.CountBound | Project1/src/dev/tylerdclark/QuickSort.java:71-84 | the iterative count is at most the recursive count, which is at most `(n + 1)^2` for `n` elements |
| SortSpec.IterStep | Project1/src/dev/tylerdclark/QuickSort.java:108-131 | one pop grows the iterative count by the range's length plus the sides' counts; a side of at most one element is never pushed and costs 0 |
| SortSpec.RecStep | Project1/src/dev/tylerdclark/QuickSort.java:71-84 | one call on two or more elements grows the recursive count by the range's length plus the two sides' counts |
| RangeSpec.PartitionRangeSplit | Project1/src/dev/tylerdclark/QuickSort.java:144-166 | at array positions: the pivot cell holds the old `arr[high]`, cells `low..p-1` are at most it, cells `p+1..high` are larger, and the range keeps its multiset |
| RangeSpec.JoinAroundPivot | Project1/src/dev/tylerdclark/QuickSort.java:76-81 | sorting both sides of a placed pivot, left first, sorts the whole range and changes nothing outside it |
| RangeSpec.SortedWithinSmall | Project1/src/dev/tylerdclark/QuickSort.java:73 | a range of at most one element is sorted by leaving the array alone |
| RangeSpec.RangeRecCount | Project1/src/dev/tylerdclark/QuickSort.java:72 | every call, including one on an empty or one-element range, adds at least 1 |
| RangeSpec.SidesJoin | Project1/src/dev/tylerdclark/QuickSort.java:80-81 | the two side calls, each a no-op on fewer than two elements, sort the range; the right call's count is the same whether it is read before or after the left call |
| RangeSpec.RecursiveStep | Project1/src/dev/tylerdclark/QuickSort.java:73-81 | partition and then sorting the sides sorts the range, and the count is the range's length plus the two sides' counts |
| RangeSpec.RecursiveCount | Project1/src/dev/tylerdclark/QuickSort.java:72-81 | the counter growth of a call on two or more elements is its length plus the counts of the calls on `low..p-1` and `p+1..high` |
| RangeSpec.SortedWithinWhole | Project1/src/dev/tylerdclark/QuickSort.java:32 | sorting the range `0..length-1` sorts the whole list and keeps its multiset |
| PendingRanges.TwoSlotsPerRange | Project1/src/dev/tylerdclark/QuickSort.java:98 | pending ranges of two or more elements need at most as many stack slots as positions they hold |
| PendingRanges.PoppedDisjoint | Project1/src/dev/tylerdclark/QuickSort.java:112-113 | the popped range lies in `low..high`, holds two or more elements, and meets none of the ranges below it |
| PendingRanges.PushParts | Project1/src/dev/tylerdclark/QuickSort.java:119-131 | pushing the sides of the pivot keeps the pending ranges well formed: disjoint, inside `low..high`, of two or more elements each |
| PendingRanges.PushShrinks | Project1/src/dev/tylerdclark/QuickSort.java:119-131 | the pushed sides hold fewer positions than the popped range, which makes the loop terminate |
| PendingRanges.StepRangesOk | Project1/src/dev/tylerdclark/QuickSort.java:108-131 | one pass keeps the ranges well formed, lowers their total size, and keeps two slots per range within it |
| PendingRanges.StepSortedOutside | Project1/src/dev/tylerdclark/QuickSort.java:117-131 | after a pass, two positions that no pending range holds together are in order |
| PendingRanges.StepOrder | Project1/src/dev/tylerdclark/QuickSort.java:117-131 | the order invariant survives popping, partitioning and pushing |
| PendingRanges.StepCost | Project1/src/dev/tylerdclark/QuickSort.java:110-131 | the count still owed for the pending ranges drops by exactly what one pass adds to the counter |
| PendingRanges.StepFrame | Project1/src/dev/tylerdclark/QuickSort.java:117 | partitioning the popped range rearranges only `low..high`, as a permutation |
| PendingRanges.PopPartitionCost | Project1/src/dev/tylerdclark/QuickSort.java:110-131 | the cost and frame facts of one pass together |
| PendingRanges.StartRanges | Project1/src/dev/tylerdclark/QuickSort.java:98-105 | the first push gives well-formed ranges, the order invariant, and a total size of `high - low + 1` |
| PendingRanges.NothingPending | Project1/src/dev/tylerdclark/QuickSort.java:108 | with no range pending, the order invariant means the range is sorted |
| PendingRanges.StackPop | Project1/src/dev/tylerdclark/QuickSort.java:112-113 | the two top slots hold the last pending range, and the slots below encode the rest |
| PendingRanges.StackPush | Project1/src/dev/tylerdclark/QuickSort.java:122-123 | writing a range into the two slots above `top` encodes the range list extended by it |
| PendingRanges.IterationStep | Project1/src/dev/tylerdclark/QuickSort.java:108-131 | one pass keeps `Pending`, lowers the total size, and moves exactly the pass's counter growth from the cost owed to the counter |
| PendingRanges.PendingStart | Project1/src/dev/tylerdclark/QuickSort.java:98-105 | after the first push `Pending` holds, and the whole range's `IterCount` is owed |
| LineFormat.ParseDecimal | Project1/src/dev/tylerdclark/BenchmarkSorts.java:234-235 | the integer stand-in for `parseDouble`: it accepts exactly a run of digits with an optional leading minus sign, and only a text with the minus sign reads as a negative number |
| LineFormat.Digits | Project1/src/dev/tylerdclark/BenchmarkSorts.java:134 | a natural number's text is a non-empty run of decimal digits |
| LineFormat.DecimalString | Project1/src/dev/tylerdclark/BenchmarkSorts.java:134-136 | an integer's text is non-empty and has no space, comma or newline, so it never breaks the line format |
| LineFormat.DigitsRoundTrip | Project1/src/dev/tylerdclark/BenchmarkSorts.java:134-136 | reading a natural number's digits back gives the number |
| LineFormat.DecimalRoundTrip | Project1/src/dev/tylerdclark/BenchmarkSorts.java:136 | reading an integer's decimal text back gives the integer, negative values included |
| LineFormat.JavaSplit | Project1/src/dev/tylerdclark/BenchmarkSorts.java:206 | `String.split` on one character, as used on spaces here and on `,` at line 233: a text without the delimiter is its own single piece; otherwise the pieces are the delimiter-free pieces between delimiters, with only the empty ones at the end dropped |
| LineFormat.ReadLines | Project1/src/dev/tylerdclark/BenchmarkSorts.java:163-168 | the lines the `readLine` loop hands on: none for an empty text, the text itself when it has no newline, and never a line holding a newline |
| LineFormat.DecodeFields | Project1/src/dev/tylerdclark/BenchmarkSorts.java:231-236 | the loop of `parseLineData` up to `parseDouble`: it succeeds exactly when fields `1..n` exist and each splits on `,` into at least two parts; the count and time texts are then the first two parts, `n` of each, none holding a comma |
| LineFormat.SplitAll | Project1/src/dev/tylerdclark/BenchmarkSorts.java:206 | there is at least one piece; a text without the delimiter is its own single piece; no piece holds the delimiter |
| LineFormat.StripTrailingEmpty | Project1/src/dev/tylerdclark/BenchmarkSorts.java:206 | the result is a prefix ending in a non-empty piece, and only empty pieces are dropped |
| LineFormat.SplitWritten | Project1/src/dev/tylerdclark/BenchmarkSorts.java:134-138 | `split` undoes the writer loop: non-empty, delimiter-free pieces, each written followed by the delimiter, split back into themselves |
| LineFormat.SplitPair | Project1/src/dev/tylerdclark/BenchmarkSorts.java:233 | `x,y` with no comma in `x` or `y` and `y` non-empty splits into `x` and `y` |
| LineFormat.ReadTerminated | Project1/src/dev/tylerdclark/BenchmarkSorts.java:163-168 | newline-free lines, each written followed by a newline, are read back line by line unchanged |
| LineFormat.PairField | Project1/src/dev/tylerdclark/BenchmarkSorts.java:136 | a `count,time` field is non-empty and has no space or newline |
| LineFormat.LineFields | Project1/src/dev/tylerdclark/BenchmarkSorts.java:134-136 | a line has one field more than there are trials, and field 0 is the size's decimal text |
| LineFormat.FieldAt | Project1/src/dev/tylerdclark/BenchmarkSorts.java:136 | field `k` past the size is trial `k - 1`'s `count,time` field |
| LineFormat.LineFieldsAppend | Project1/src/dev/tylerdclark/BenchmarkSorts.java:135-137 | each trial written adds its `count,time` field at the end of the line's fields |
| LineFormat.BlockLines | Project1/src/dev/tylerdclark/BenchmarkSorts.java:133-139 | a block has one line per size |
| LineFormat.LineText | Project1/src/dev/tylerdclark/BenchmarkSorts.java:134-138 | the text of one results line holds no newline and ends in the space written after its last field |
| LineFormat.Block | Project1/src/dev/tylerdclark/BenchmarkSorts.java:133-139 | one block of results, read back line by line, gives exactly its lines, one per size; a non-empty block ends in a newline |
| LineFormat.ReportLines | Project1/src/dev/tylerdclark/BenchmarkSorts.java:116-118 | the two blocks plus the separator are read back as the first block's lines, one empty line, then the second block's lines |
| LineFormat.PairFieldSplit | Project1/src/dev/tylerdclark/BenchmarkSorts.java:233 | the field splits on `,` into exactly the count's text and the time's text |
| LineFormat.LineSplit | Project1/src/dev/tylerdclark/BenchmarkSorts.java:206 | splitting a written line on spaces gives back its fields, although the line ends in a space |
| LineFormat.FieldsDecode | Project1/src/dev/tylerdclark/BenchmarkSorts.java:231-236 | the reader's splitting of fields `1..n` succeeds and yields the texts of the counts and of the times |
| LineFormat.LineRoundTrip | Project1/src/dev/tylerdclark/BenchmarkSorts.java:134-136 | a written line read back: split on spaces, field 0 reads as the size, and the parts of field `j + 1` read as count `j` and time `j` |
| Benchmark.RouteOf | Project1/src/dev/tylerdclark/BenchmarkSorts.java:210-216 | the dispatch on the line index: line 10 alone is the separator, lines below 10 go to the recursive row of the same index, and every later line goes to the iterative row `index - 11` |
| Benchmark.RouteInvertsLayout | Project1/src/dev/tylerdclark/BenchmarkSorts.java:210-216 | line `r` goes to recursive row `r`, line 10 is the separator, line `11 + r` goes to iterative row `r`, and any later line names a row past the report |
| Benchmark.TableRow | Project1/src/dev/tylerdclark/BenchmarkSorts.java:136 | a table row holds the trial cells of one size, in trial order |
| Benchmark.Rows | Project1/src/dev/tylerdclark/BenchmarkSorts.java:133-136 | a table as its rows, one per size |
| Benchmark.CountsFitInt | Project1/src/dev/tylerdclark/BenchmarkSorts.java:24 | for up to 1000 elements both counters stay below 2^31, so the `int` counter and table never wrap |
| Benchmark.RoutedLines | Project1/src/dev/tylerdclark/BenchmarkSorts.java:210-216 | each of the 21 lines is routed to the report row it was written for, or is the empty separator |
| Benchmark.ReportRoundTrip | Project1/src/dev/tylerdclark/BenchmarkSorts.java:116-118 | the written file reads back as 21 lines, and every line routed to a report row is the line written for that row |
| Benchmark.BenchmarkSorts.constructor | Project1/src/dev/tylerdclark/BenchmarkSorts.java:35-47 | the tables have 10 rows of 50 trials and every cell holds 0, the report forms have 10 rows of 5 cells and every cell is `None` (Java's `null`); all are distinct objects; both sorters start with counter and both clock fields 0 |
| Benchmark.BenchmarkSorts.SortBoth | Project1/src/dev/tylerdclark/BenchmarkSorts.java:82-94 | the data array and its clone end up equal, sorted, and a permutation of the data; the counters grow by `RecCount` and `IterCount`; the elapsed times are the clock differences |
| Benchmark.BenchmarkSorts.RunTrial | Project1/src/dev/tylerdclark/BenchmarkSorts.java:82-103 | cell `[i, j]` of the four tables holds the trial's counters, on top of whatever the sorters held before, and its clock differences; every other cell is unchanged; both sorters are reset |
| Benchmark.BenchmarkSorts.RunSize | Project1/src/dev/tylerdclark/BenchmarkSorts.java:81-104 | every cell of row `i` holds its trial's values, with only the first trial carrying the counts from before; the other rows are unchanged; both sorters end with counter and both clock fields 0 |
| Benchmark.BenchmarkSorts.RunTests | Project1/src/dev/tylerdclark/BenchmarkSorts.java:74-107 | every cell `[i, j]` of the four tables holds trial `(i, j)`'s counters and clock differences; only the very first cell also carries the counts from before the run; both sorters end with counter and both clock fields 0 |
| Benchmark.BenchmarkSorts.WriteData | Project1/src/dev/tylerdclark/BenchmarkSorts.java:132-140 | the text written is exactly `Block`: one line per size, each the size and its `count,time` fields, each field followed by a space, the line then ended by a newline |
| Benchmark.BenchmarkSorts.WriteLine | Project1/src/dev/tylerdclark/BenchmarkSorts.java:134-138 | the text of size `i` is `LineText` of its table rows, followed by a newline |
| Benchmark.WriteField | Project1/src/dev/tylerdclark/BenchmarkSorts.java:136 | appending one `count,time` field and a space extends the line text by one trial |
| Benchmark.EndLine | Project1/src/dev/tylerdclark/BenchmarkSorts.java:138 | appending a line and its newline extends the block text by one line |
| Benchmark.BenchmarkSorts.OutputFile | Project1/src/dev/tylerdclark/BenchmarkSorts.java:112-123 | the file text is the recursive block, a newline, then the iterative block |
| Benchmark.BenchmarkSorts.ParseLineData | Project1/src/dev/tylerdclark/BenchmarkSorts.java:229-241 | it succeeds exactly when fields `1..50` exist and each splits into two parts; it then holds the parts in the count and time arrays and fills the four summary cells of row `index`; the size cell of row `index` gets field 0 whenever there is one; a failed reading leaves the summary cells alone, and cells of other rows never change |
| Benchmark.BenchmarkSorts.ParseStringData | Project1/src/dev/tylerdclark/BenchmarkSorts.java:205-217 | lines 0-9 fill recursive rows, line 10 changes nothing, lines 11-20 fill iterative rows; each fills its row exactly as `parseLineData` does, the other report keeps every cell; a later line fails with nothing changed |

## Left out

- The values of the summary cells of a report row are left out: the average and the coefficient of variance of the counts and of the times, columns 1-4. They are computed in `Utilities.java` with `double` arithmetic and `Math.sqrt`, and formatted with `String.format("%.2f", …)`. `ParseLineData` and `ParseStringData` write the cells on success, as the Java code does, but their four texts are a parameter `summary` and are not tied to the numbers read.
- For the same reason, `Double.parseDouble` is left out. The reader is modelled up to the texts it would hand to it, and `LineFormat.ParseDecimal` reads those texts as integers. That is what `LineRoundTrip` needs, because the writer only ever writes integer literals.
- `getData` (random data) and `System.nanoTime` are left out. The data of every trial and the four clock readings of every trial are parameters (`Clocks`), and the model does not reason about durations.
- `JVMWarmUp`, `menu`, `selectFile`, `showReport` and the `Scanner`/Swing user interface are left out. They have no effect on the tables, the text, or the reports' size cells.
- The file plumbing of `outputFile` and `generateReport` is left out:
  - the `BufferedWriter` is modelled as the text the writer methods return;
  - the reading loop is modelled by `ReadLines` and `ReportRoundTrip`;
  - `ParseStringData` takes the line and its index as parameters.
- I/O exceptions are left out.
- `readLine` treating `\r` and `\r\n` as line ends is left out: the writer only writes `\n`.
- The exceptions that end the reading are modelled on values. Java's array index errors (a missing field, a missing `,` part, a line index past 20) propagate out of `generateReport`. In the model they are the result `ok == false`, and nothing after them is modelled.
- Benchmark.BenchmarkSorts.ParseLineData: reports success on count and time texts that `parseDouble` would reject with a `NumberFormatException`, because it does not read the texts as numbers. The same holds for `ParseStringData`, which calls it.
- `UnsortedException`, whose class is not part of this model, is the boolean result `thrown`.
- `SortInterface.java` declares only method signatures and is not part of this model beyond the `QuickSort` methods.
- Report cells not yet written (Java `null`) are `None`, and a written size cell is `Some(text)`.
- `long` times are plain integers: `endTime - startTime` is not reduced modulo 2^64.
- `int` counters are plain integers too. `CountsFitInt` shows that for the harness's sizes (at most 1000 elements) they stay below 2^31, so wrap-around cannot occur there.
- QuickSorter.QuickSort.IterativeSort: requires two or more elements. With fewer, the Java code writes two stack slots into a stack of `list.length` slots and fails with an index error before sorting. The harness never sorts fewer than 100 elements.
- QuickSorter.QuickSort.IterativeQuicksort: likewise requires `low < high`, two or more elements.
- Some methods have no counterpart of their own in the Java code and only split its methods into pieces that are cheaper to verify:
  - `SwapCells`: the three-statement swap;
  - `PushRange` and `PushSides`: the pushes;
  - `PartitionTop`: the body of the iterative loop;
  - `SortAroundPivot`: the two recursive calls;
  - `SortBoth`, `RunTrial` and `RunSize`: a trial, and the inner loop of `runTests`;
  - `WriteLine`: the inner loop of `writeData`.

  Together they run the same statements in the same order.
- The doc comment of `partition` says it counts once per call, but the code counts once per loop iteration. The model follows the code.

/**
  The plain-text format of the benchmark's raw results, as values: the decimal
  text Java's string concatenation gives an `int` or a `long`, the
  single-character `String.split`, the line splitting of `readLine`, and the
  lines of one block of results (a size, then one `count,time` field per
  trial, every field followed by a space).
*/
module LineFormat {
  datatype Option<T> = None | Some(value: T)

  /** The character of a decimal digit. */
  function DigitChar(d: int): (c: char)
    requires 0 <= d < 10
    ensures '0' <= c <= '9' && c as int - '0' as int == d
  {
    ('0' as int + d) as char
  }

  /** Decimal digits of a natural number, without leading zeros. */
  function Digits(n: nat): (r: string)
    ensures |r| >= 1 && forall k :: 0 <= k < |r| ==> '0' <= r[k] <= '9'
    decreases n
  {
    if n < 10 then [DigitChar(n)] else Digits(n / 10) + [DigitChar(n % 10)]
  }

  /** Java's decimal text of an integer: a minus sign for negative values, then the digits. */
  function DecimalString(n: int): (r: string)
    ensures |r| >= 1 && ' ' !in r && ',' !in r && '\n' !in r
  {
    if n < 0 then "-" + Digits(-n) else Digits(n)
  }

  /** A non-empty run of decimal digits. */
  predicate AllDigits(s: string) {
    |s| > 0 && forall k :: 0 <= k < |s| ==> '0' <= s[k] <= '9'
  }

  /** The number a run of decimal digits denotes; `None` unless all are digits. */
  function DigitsValue(s: string): (r: Option<int>)
    ensures r.Some? <==> AllDigits(s)
    ensures r.Some? ==> r.value >= 0
    decreases |s|
  {
    if |s| == 0 || !('0' <= s[|s| - 1] <= '9') then None
    else
      var d := s[|s| - 1] as int - '0' as int;
      if |s| == 1 then Some(d)
      else match DigitsValue(s[..|s| - 1]) {
        case None => None
        case Some(v) => Some(10 * v + d)
      }
  }

  /**
    The integer a decimal literal with an optional minus sign denotes. Only
    such literals are read, and only a literal with a minus sign reads as a
    negative number.
  */
  function ParseDecimal(s: string): (r: Option<int>)
    ensures r.Some? <==> AllDigits(s) || (|s| > 1 && s[0] == '-' && AllDigits(s[1..]))
    ensures r.Some? && r.value < 0 ==> s[0] == '-'
  {
    if |s| > 0 && s[0] == '-' then
      match DigitsValue(s[1..]) {
        case None => None
        case Some(v) => Some(-v)
      }
    else DigitsValue(s)
  }

  lemma {:induction false} DigitsRoundTrip(n: nat)
    ensures DigitsValue(Digits(n)) == Some(n)
    decreases n
  {
    if n >= 10 {
      DigitsRoundTrip(n / 10);
      var s := Digits(n);
      assert s[..|s| - 1] == Digits(n / 10);
    }
  }

  /** The text of a negative integer is a minus sign and the digits of its absolute value. */
  lemma NegativeText(n: int)
    requires n < 0
    ensures |DecimalString(n)| > 0 && DecimalString(n)[0] == '-' && DecimalString(n)[1..] == Digits(-n)
  {
    assert DecimalString(n) == ['-'] + Digits(-n);
  }

  /** Reading back the decimal text of an integer gives the integer. */
  lemma DecimalRoundTrip(n: int)
    ensures ParseDecimal(DecimalString(n)) == Some(n)
  {
    if n < 0 {
      NegativeRoundTrip(n);
    } else {
      UnsignedRoundTrip(n);
    }
  }

  lemma NegativeRoundTrip(n: int)
    requires n < 0
    ensures ParseDecimal(DecimalString(n)) == Some(n)
  {
    DigitsRoundTrip(-n);
    NegativeText(n);
    ParseNegative(DecimalString(n), -n);
  }

  lemma UnsignedRoundTrip(n: nat)
    ensures ParseDecimal(DecimalString(n)) == Some(n)
  {
    DigitsRoundTrip(n);
    assert DecimalString(n) == Digits(n);
    ParseUnsigned(Digits(n), n);
  }

  lemma ParseNegative(s: string, v: int)
    requires |s| > 0 && s[0] == '-' && DigitsValue(s[1..]) == Some(v)
    ensures ParseDecimal(s) == Some(-v)
  {
  }

  lemma ParseUnsigned(s: string, v: int)
    requires DigitsValue(s) == Some(v) && forall k :: 0 <= k < |s| ==> '0' <= s[k] <= '9'
    ensures ParseDecimal(s) == Some(v)
  {
    if |s| > 0 {
      assert s[0] != '-';
    }
  }

  /**
    The pieces of `s` between the occurrences of `d`, empty pieces included;
    without an occurrence the single piece is `s` itself.
  */
  function SplitAll(s: string, d: char): (r: seq<string>)
    ensures |r| >= 1 && (d !in s ==> r == [s])
    ensures forall k :: 0 <= k < |r| ==> d !in r[k]
    decreases |s|
  {
    if |s| == 0 then [""]
    else
      var rest := SplitAll(s[1..], d);
      assert s == [s[0]] + s[1..];
      if s[0] == d then [""] + rest else [[s[0]] + rest[0]] + rest[1..]
  }

  /** Drops the empty pieces at the end. */
  function StripTrailingEmpty(r: seq<string>): (t: seq<string>)
    ensures |t| <= |r| && t == r[..|t|]
    ensures |t| > 0 ==> t[|t| - 1] != ""
    ensures forall k :: |t| <= k < |r| ==> r[k] == ""
    decreases |r|
  {
    if |r| > 0 && r[|r| - 1] == "" then StripTrailingEmpty(r[..|r| - 1]) else r
  }

  /**
    `String.split` on a one-character delimiter with no limit: without a
    match the text itself, otherwise every piece with the empty pieces at the
    end removed (so that a text made of delimiters alone gives no piece).
  */
  function JavaSplit(s: string, d: char): (r: seq<string>)
    ensures d !in s ==> r == [s]
    ensures forall k :: 0 <= k < |r| ==> d !in r[k]
    ensures d in s ==> |r| <= |SplitAll(s, d)| && r == SplitAll(s, d)[..|r|] && (|r| > 0 ==> r[|r| - 1] != "")
    ensures d in s ==> forall k :: |r| <= k < |SplitAll(s, d)| ==> SplitAll(s, d)[k] == ""
  {
    if d !in s then [s] else StripTrailingEmpty(SplitAll(s, d))
  }

  /** The pieces, each followed by `d`: how a writer loop emits a field and its separator. */
  function Terminated(ps: seq<string>, d: char): (r: string)
    ensures |r| >= |ps| && (|ps| > 0 ==> d in r && r[|r| - 1] == d)
    decreases |ps|
  {
    if |ps| == 0 then "" else ps[0] + [d] + Terminated(ps[1..], d)
  }

  /** Concatenation of texts is associative. */
  lemma AppendAssoc(a: string, b: string, c: string)
    ensures a + (b + c) == a + b + c
  {
  }

  lemma {:induction false} TerminatedAppend(ps: seq<string>, p: string, d: char)
    ensures Terminated(ps + [p], d) == Terminated(ps, d) + p + [d]
    decreases |ps|
  {
    if |ps| == 0 {
      assert ps + [p] == [p];
    } else {
      assert (ps + [p])[0] == ps[0] && (ps + [p])[1..] == ps[1..] + [p];
      TerminatedAppend(ps[1..], p, d);
      var h, rest := ps[0] + [d], Terminated(ps[1..], d);
      AppendAssoc(h, rest + p, [d]);
      AppendAssoc(h, rest, p);
    }
  }

  lemma {:induction false} TerminatedConcat(a: seq<string>, b: seq<string>, d: char)
    ensures Terminated(a + b, d) == Terminated(a, d) + Terminated(b, d)
    decreases |a|
  {
    if |a| == 0 {
      assert a + b == b;
    } else {
      assert (a + b)[0] == a[0] && (a + b)[1..] == a[1..] + b;
      TerminatedConcat(a[1..], b, d);
      AppendAssoc(a[0] + [d], Terminated(a[1..], d), Terminated(b, d));
    }
  }

  /** A piece without the delimiter, then the delimiter, comes back as that piece. */
  lemma {:induction false} SplitPiece(p: string, d: char, rest: string)
    requires d !in p
    ensures SplitAll(p + [d] + rest, d) == [p] + SplitAll(rest, d)
    decreases |p|
  {
    var s := p + [d] + rest;
    if |p| == 0 {
      assert s[1..] == rest;
    } else {
      assert s[1..] == p[1..] + [d] + rest;
      SplitPiece(p[1..], d, rest);
      assert [p[0]] + p[1..] == p;
    }
  }

  /** Splitting delimiter-free pieces, each followed by the delimiter, gives them back and one empty piece. */
  lemma {:induction false} SplitTerminated(ps: seq<string>, d: char)
    requires forall k :: 0 <= k < |ps| ==> d !in ps[k]
    ensures SplitAll(Terminated(ps, d), d) == ps + [""]
    decreases |ps|
  {
    if |ps| > 0 {
      SplitPiece(ps[0], d, Terminated(ps[1..], d));
      SplitTerminated(ps[1..], d);
      assert ps == [ps[0]] + ps[1..];
    }
  }

  /**
    `String.split` undoes the writer loop: delimiter-free pieces, the last one
    not empty, each written followed by the delimiter, split back into the
    same pieces.
  */
  lemma SplitWritten(ps: seq<string>, d: char)
    requires |ps| >= 1 && ps[|ps| - 1] != ""
    requires forall k :: 0 <= k < |ps| ==> d !in ps[k]
    ensures JavaSplit(Terminated(ps, d), d) == ps
  {
    SplitTerminated(ps, d);
    var r := ps + [""];
    assert r[..|r| - 1] == ps;
  }

  /** A field `x` `d` `y` with a non-empty `y` splits into `x` and `y`. */
  lemma SplitPair(x: string, y: string, d: char)
    requires d !in x && d !in y && y != ""
    ensures JavaSplit(x + [d] + y, d) == [x, y]
  {
    SplitPiece(x, d, y);
    assert d in x + [d] + y by {
      assert (x + [d] + y)[|x|] == d;
    }
  }

  /**
    The lines `readLine` returns one after the other, for a text whose lines
    end in `'\n'`: the pieces between newlines, with no line after a final
    newline.
  */
  function ReadLines(text: string): (r: seq<string>)
    ensures |text| == 0 ==> r == []
    ensures '\n' !in text && |text| > 0 ==> r == [text]
    ensures forall k :: 0 <= k < |r| ==> '\n' !in r[k]
  {
    if |text| == 0 then []
    else
      var parts := SplitAll(text, '\n');
      if parts[|parts| - 1] == "" then parts[..|parts| - 1] else parts
  }

  /** Reading back newline-free lines, each written followed by a newline, gives the same lines. */
  lemma ReadTerminated(ls: seq<string>)
    requires forall k :: 0 <= k < |ls| ==> '\n' !in ls[k]
    ensures ReadLines(Terminated(ls, '\n')) == ls
  {
    if |ls| > 0 {
      SplitTerminated(ls, '\n');
      var r := ls + [""];
      assert r[..|r| - 1] == ls;
    }
  }

  /** One `count,time` field of a line. */
  function PairField(count: int, time: int): (r: string)
    ensures r != "" && ' ' !in r && '\n' !in r
  {
    DecimalString(count) + "," + DecimalString(time)
  }

  /** The fields of one results line: the size, then one `count,time` field per trial. */
  function LineFields(size: int, counts: seq<int>, times: seq<int>): (r: seq<string>)
    requires |counts| == |times|
    ensures |r| == |counts| + 1 && r[0] == DecimalString(size)
  {
    [DecimalString(size)] + MapPairs(PairField, counts, times)
  }

  /** Field `k` of a line, past the size, is trial `k - 1`'s `count,time` field. */
  lemma FieldAt(size: int, counts: seq<int>, times: seq<int>, k: int)
    requires |counts| == |times| && 1 <= k <= |counts|
    ensures LineFields(size, counts, times)[k] == PairField(counts[k - 1], times[k - 1])
  {
    LineFieldsShift(size, counts, times, k);
  }

  lemma LineFieldsShift(size: int, counts: seq<int>, times: seq<int>, k: int)
    requires |counts| == |times| && 1 <= k <= |counts|
    ensures LineFields(size, counts, times)[k] == MapPairs(PairField, counts, times)[k - 1]
  {
  }

  /** Every field of a line past the size is its trial's `count,time` field. */
  lemma FieldsAll(size: int, counts: seq<int>, times: seq<int>)
    requires |counts| == |times|
    ensures forall k :: 1 <= k <= |counts| ==> LineFields(size, counts, times)[k] == PairField(counts[k - 1], times[k - 1])
  {
    forall k | 1 <= k <= |counts| ensures LineFields(size, counts, times)[k] == PairField(counts[k - 1], times[k - 1]) {
      FieldAt(size, counts, times, k);
    }
  }

  /** `f` applied to every trial's count and time, in trial order. */
  function MapPairs(f: (int, int) -> string, counts: seq<int>, times: seq<int>): (r: seq<string>)
    requires |counts| == |times|
    ensures |r| == |counts|
    ensures forall k :: 0 <= k < |r| ==> r[k] == f(counts[k], times[k])
    decreases |counts|
  {
    if |counts| == 0 then [] else [f(counts[0], times[0])] + MapPairs(f, counts[1..], times[1..])
  }

  /** A line's fields grow by one `count,time` field per trial written. */
  lemma LineFieldsAppend(size: int, counts: seq<int>, times: seq<int>, j: int)
    requires 0 <= j < |counts| == |times|
    ensures LineFields(size, counts[..j + 1], times[..j + 1]) == LineFields(size, counts[..j], times[..j]) + [PairField(counts[j], times[j])]
  {
    var c1, t1, c0, t0 := counts[..j + 1], times[..j + 1], counts[..j], times[..j];
    var a, b := LineFields(size, c1, t1), LineFields(size, c0, t0) + [PairField(counts[j], times[j])];
    assert |a| == j + 2 == |b|;
    forall k | 0 <= k < j + 2 ensures a[k] == b[k] {
      if 1 <= k <= j {
        FieldAt(size, c1, t1, k);
        FieldAt(size, c0, t0, k);
        assert c1[k - 1] == c0[k - 1] && t1[k - 1] == t0[k - 1];
      } else if k == j + 1 {
        FieldAt(size, c1, t1, k);
      }
    }
  }

  /**
    One results line, without its newline: every field followed by a space.
    It holds no newline, and it ends in the space after its last field.
  */
  function LineText(size: int, counts: seq<int>, times: seq<int>): (r: string)
    requires |counts| == |times|
    ensures '\n' !in r
    ensures |r| > 0 && r[|r| - 1] == ' '
  {
    FieldsAll(size, counts, times);
    NoNewline(LineFields(size, counts, times));
    Terminated(LineFields(size, counts, times), ' ')
  }

  /** Tables with one row per size and rows of equal length in the two tables. */
  ghost predicate Shaped(sizes: seq<int>, counts: seq<seq<int>>, times: seq<seq<int>>) {
    |counts| == |sizes| == |times| && forall i :: 0 <= i < |sizes| ==> |counts[i]| == |times[i]|
  }

  /** The lines of one block of results, one per size. */
  ghost function BlockLines(sizes: seq<int>, counts: seq<seq<int>>, times: seq<seq<int>>): (r: seq<string>)
    requires Shaped(sizes, counts, times)
    ensures |r| == |sizes|
  {
    seq(|sizes|, i requires 0 <= i < |sizes| => LineText(sizes[i], counts[i], times[i]))
  }

  /**
    One block of results: its lines, each followed by a newline. Reading it
    back line by line gives its lines.
  */
  ghost function Block(sizes: seq<int>, counts: seq<seq<int>>, times: seq<seq<int>>): (r: string)
    requires Shaped(sizes, counts, times)
    ensures ReadLines(r) == BlockLines(sizes, counts, times)
    ensures |sizes| > 0 ==> r[|r| - 1] == '\n'
  {
    BlockHasNoNewline(sizes, counts, times);
    ReadTerminated(BlockLines(sizes, counts, times));
    Terminated(BlockLines(sizes, counts, times), '\n')
  }

  lemma {:induction false} NoNewline(fs: seq<string>)
    requires forall k :: 0 <= k < |fs| ==> '\n' !in fs[k]
    ensures '\n' !in Terminated(fs, ' ')
    decreases |fs|
  {
    if |fs| > 0 {
      NoNewline(fs[1..]);
    }
  }

  /** No line of a block holds a newline. */
  lemma BlockHasNoNewline(sizes: seq<int>, counts: seq<seq<int>>, times: seq<seq<int>>)
    requires Shaped(sizes, counts, times)
    ensures forall k :: 0 <= k < |sizes| ==> '\n' !in BlockLines(sizes, counts, times)[k]
  {
    forall k | 0 <= k < |sizes| ensures '\n' !in BlockLines(sizes, counts, times)[k] {
      assert BlockLines(sizes, counts, times)[k] == LineText(sizes[k], counts[k], times[k]);
    }
  }

  /** An empty line written alone is a single newline. */
  lemma EmptyLine()
    ensures Terminated([""], '\n') == "\n"
  {
    assert [""][1..] == [];
  }

  /**
    The text of two blocks with an empty line between them reads back as the
    first block's lines, one empty line, then the second block's lines.
  */
  lemma ReportLines(sizes: seq<int>, c1: seq<seq<int>>, t1: seq<seq<int>>, c2: seq<seq<int>>, t2: seq<seq<int>>)
    requires Shaped(sizes, c1, t1) && Shaped(sizes, c2, t2)
    ensures ReadLines(Block(sizes, c1, t1) + "\n" + Block(sizes, c2, t2))
         == BlockLines(sizes, c1, t1) + [""] + BlockLines(sizes, c2, t2)
  {
    var l1, l2 := BlockLines(sizes, c1, t1), BlockLines(sizes, c2, t2);
    var all := l1 + [""] + l2;
    TerminatedConcat(l1 + [""], l2, '\n');
    TerminatedConcat(l1, [""], '\n');
    EmptyLine();
    BlockHasNoNewline(sizes, c1, t1);
    BlockHasNoNewline(sizes, c2, t2);
    assert forall k :: 0 <= k < |all| ==> '\n' !in all[k] by {
      forall k | 0 <= k < |all| ensures '\n' !in all[k] {
        if k < |l1| {
          assert all[k] == l1[k];
        } else if k > |l1| {
          assert all[k] == l2[k - |l1| - 1];
        }
      }
    }
    ReadTerminated(all);
  }

  /**
    The `count,time` fields a line's reader takes apart: fields `1..n` of a
    split line, each split on `','` into its count and time parts; `None` when
    a field or a part is missing, where the reader's array accesses fail.
  */
  function DecodeFields(fields: seq<string>, n: nat): (r: Option<(seq<string>, seq<string>)>)
    ensures r.Some? <==> |fields| > n && forall i :: 1 <= i <= n ==> |JavaSplit(fields[i], ',')| >= 2
    ensures r.Some? ==> |r.value.0| == n == |r.value.1|
    ensures r.Some? ==> forall k :: 0 <= k < n ==>
              && r.value.0[k] == JavaSplit(fields[k + 1], ',')[0] && ',' !in r.value.0[k]
              && r.value.1[k] == JavaSplit(fields[k + 1], ',')[1] && ',' !in r.value.1[k]
  {
    if |fields| <= n || exists i :: 1 <= i <= n && |JavaSplit(fields[i], ',')| < 2 then None
    else Some((seq(n, k requires 0 <= k < n => JavaSplit(fields[k + 1], ',')[0]),
               seq(n, k requires 0 <= k < n => JavaSplit(fields[k + 1], ',')[1])))
  }

  /** The decimal texts of a row of values. */
  function Decimals(xs: seq<int>): (r: seq<string>)
    ensures |r| == |xs|
  {
    seq(|xs|, k requires 0 <= k < |xs| => DecimalString(xs[k]))
  }

  /** A `count,time` field splits on `','` into the count's text and the time's text. */
  lemma PairFieldSplit(count: int, time: int)
    ensures JavaSplit(PairField(count, time), ',') == [DecimalString(count), DecimalString(time)]
  {
    var x, y := DecimalString(count), DecimalString(time);
    assert PairField(count, time) == x + [','] + y;
    SplitPair(x, y, ',');
  }

  /** A results line split on spaces gives back its fields. */
  lemma LineSplit(size: int, counts: seq<int>, times: seq<int>)
    requires |counts| == |times|
    ensures JavaSplit(LineText(size, counts, times), ' ') == LineFields(size, counts, times)
  {
    var fs := LineFields(size, counts, times);
    assert forall k :: 0 <= k < |fs| ==> ' ' !in fs[k];
    assert fs[|fs| - 1] != "";
    SplitWritten(fs, ' ');
  }

  /** The reader takes the fields of a results line apart into the texts of its counts and times. */
  lemma FieldsDecode(size: int, counts: seq<int>, times: seq<int>)
    requires |counts| == |times|
    ensures DecodeFields(LineFields(size, counts, times), |counts|) == Some((Decimals(counts), Decimals(times)))
  {
    var fs, n := LineFields(size, counts, times), |counts|;
    forall i | 1 <= i <= n ensures JavaSplit(fs[i], ',') == [DecimalString(counts[i - 1]), DecimalString(times[i - 1])] {
      FieldAt(size, counts, times, i);
      PairFieldSplit(counts[i - 1], times[i - 1]);
    }
    var r := DecodeFields(fs, n);
    assert r.Some?;
    var (cs, ts) := r.value;
    forall k | 0 <= k < n ensures cs[k] == Decimals(counts)[k] && ts[k] == Decimals(times)[k] {
      assert JavaSplit(fs[k + 1], ',') == [DecimalString(counts[k]), DecimalString(times[k])];
    }
    assert cs == Decimals(counts);
    assert ts == Decimals(times);
  }

  /**
    A results line read back: split on spaces it gives its fields again, the
    first one reads as the size, and the count and time parts of every other
    field read as that trial's count and time.
  */
  lemma LineRoundTrip(size: int, counts: seq<int>, times: seq<int>)
    requires |counts| == |times|
    ensures JavaSplit(LineText(size, counts, times), ' ') == LineFields(size, counts, times)
    ensures ParseDecimal(LineFields(size, counts, times)[0]) == Some(size)
    ensures DecodeFields(LineFields(size, counts, times), |counts|).Some?
    ensures var (cs, ts) := DecodeFields(LineFields(size, counts, times), |counts|).value;
            |cs| == |ts| == |counts| &&
            forall k :: 0 <= k < |counts| ==> ParseDecimal(cs[k]) == Some(counts[k]) && ParseDecimal(ts[k]) == Some(times[k])
  {
    LineSplit(size, counts, times);
    FieldsDecode(size, counts, times);
    DecimalRoundTrip(size);
    forall k | 0 <= k < |counts|
      ensures ParseDecimal(Decimals(counts)[k]) == Some(counts[k]) && ParseDecimal(Decimals(times)[k]) == Some(times[k])
    {
      DecimalRoundTrip(counts[k]);
      DecimalRoundTrip(times[k]);
    }
  }
}

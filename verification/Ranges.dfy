/** compress_ranges: a list of numbers as comma-separated hexadecimal ranges. */
module Ranges {
  import opened Numerals
  import opened Text

  datatype Range = Range(start: int, end: int)

  function Span(start: int, end: int): (s: seq<int>)
    ensures |s| == if end < start then 0 else end - start + 1
    ensures forall i :: 0 <= i < |s| ==> s[i] == start + i
    decreases end - start
  {
    if end < start then [] else Span(start, end - 1) + [end]
  }

  /** The numbers a list of ranges stands for. */
  function Expand(ranges: seq<Range>): seq<int> {
    if ranges == [] then [] else Span(ranges[0].start, ranges[0].end) + Expand(ranges[1..])
  }

  ghost predicate Proper(ranges: seq<Range>) {
    forall i :: 0 <= i < |ranges| ==> ranges[i].start <= ranges[i].end
  }

  /** No range starts one past the end of the range before it. */
  ghost predicate Maximal(ranges: seq<Range>) {
    forall i :: 0 <= i < |ranges| - 1 ==> ranges[i + 1].start != ranges[i].end + 1
  }

  ghost predicate Compresses(ranges: seq<Range>, numbers: seq<int>) {
    Proper(ranges) && Maximal(ranges) && Expand(ranges) == numbers
  }

  lemma {:induction false} ExpandSnoc(ranges: seq<Range>, r: Range)
    ensures Expand(ranges + [r]) == Expand(ranges) + Span(r.start, r.end)
  {
    if ranges == [] {
      assert ranges + [r] == [r];
      assert Expand([r]) == Span(r.start, r.end) + Expand([]);
    } else {
      assert (ranges + [r])[1..] == ranges[1..] + [r];
      ExpandSnoc(ranges[1..], r);
      Assoc(Span(ranges[0].start, ranges[0].end), Expand(ranges[1..]), Span(r.start, r.end));
    }
  }

  lemma ExpandNone()
    ensures Expand([]) == []
  {
  }

  /** The scan over a non-empty list. */
  method ScanRanges(numbers: seq<int>) returns (ranges: seq<Range>)
    requires numbers != []
    ensures Compresses(ranges, numbers)
  {
    hide Expand;
    ranges := [];
    assert Expand([]) == [] by { ExpandNone(); }
    var start, previous := numbers[0], numbers[0];
    for n := 1 to |numbers|
      invariant start <= previous
      invariant Proper(ranges) && Maximal(ranges)
      invariant ranges != [] ==> start != ranges[|ranges| - 1].end + 1
      invariant Expand(ranges) + Span(start, previous) == numbers[..n]
    {
      var number := numbers[n];
      assert numbers[..n + 1] == numbers[..n] + [number];
      if number == previous + 1 {
        Assoc(Expand(ranges), Span(start, previous), [number]);
        previous := number;
        continue;
      }
      ExpandSnoc(ranges, Range(start, previous));
      ranges := ranges + [Range(start, previous)];
      start, previous := number, number;
      assert Span(start, previous) == [number];
    }
    ExpandSnoc(ranges, Range(start, previous));
    ranges := ranges + [Range(start, previous)];
    assert numbers[..|numbers|] == numbers;
  }

  // ------------------------------------------------------- minimal and unique

  lemma SpanSplit(start: int, mid: int, end: int)
    requires start <= mid <= end
    ensures Span(start, end) == Span(start, mid) + Span(mid + 1, end)
  {
  }

  /** Where two lists of proper ranges agree, the first range of a maximal one is at
      least as long as that of the other. */
  lemma FirstRange(ranges: seq<Range>, others: seq<Range>)
    requires ranges != [] && others != [] && Proper(ranges) && Proper(others) && Maximal(ranges)
    requires Expand(ranges) == Expand(others)
    ensures ranges[0].start == others[0].start && others[0].end <= ranges[0].end
  {
    var r, o := ranges[0], others[0];
    var all, rest := Expand(ranges), Expand(ranges[1..]);
    var first, other := Span(r.start, r.end), Span(o.start, o.end);
    assert all == first + rest;
    assert all[0] == first[0] == r.start;
    assert all == other + Expand(others[1..]);
    assert all[0] == other[0] == o.start;
    AfterFirst(ranges);
    assert forall i :: 0 <= i < |other| ==> all[i] == other[i];
    assert forall i :: 0 <= i < |rest| ==> all[|first| + i] == rest[i];
  }

  lemma AfterFirst(ranges: seq<Range>)
    requires ranges != [] && Proper(ranges) && Maximal(ranges)
    ensures var rest := Expand(ranges[1..]); rest != [] ==> rest[0] != ranges[0].end + 1
  {
    if |ranges| > 1 {
      var r := ranges[1..][0];
      assert r == ranges[0 + 1];
      assert Expand(ranges[1..])[0] == Span(r.start, r.end)[0] == r.start;
    }
  }

  lemma {:induction false} FewestProper(ranges: seq<Range>, others: seq<Range>)
    requires Proper(ranges) && Proper(others) && Maximal(ranges)
    requires Expand(ranges) == Expand(others)
    ensures |ranges| <= |others|
    decreases |others|
  {
    if ranges != [] {
      var all := Expand(ranges);
      assert all == Span(ranges[0].start, ranges[0].end) + Expand(ranges[1..]) && all != [];
      assert others != [];
      FirstRange(ranges, others);
      var r, o := ranges[0], others[0];
      var first, other := Span(r.start, r.end), Span(o.start, o.end);
      assert all == other + Expand(others[1..]);
      assert Expand(others[1..]) == all[|other|..];
      if o.end == r.end {
        assert Expand(ranges[1..]) == all[|first|..];
        FewestProper(ranges[1..], others[1..]);
      } else {
        var cut := [Range(o.end + 1, r.end)] + ranges[1..];
        SpanSplit(r.start, o.end, r.end);
        assert Expand(cut) == Span(o.end + 1, r.end) + Expand(ranges[1..]);
        Assoc(other, Span(o.end + 1, r.end), Expand(ranges[1..]));
        assert Expand(cut) == all[|other|..];
        FewestProper(cut, others[1..]);
      }
    }
  }

  /** A range that ends before it starts stands for nothing and can be left out. */
  lemma {:induction false} DropImproper(ranges: seq<Range>) returns (kept: seq<Range>)
    ensures Proper(kept) && Expand(kept) == Expand(ranges) && |kept| <= |ranges|
  {
    if ranges == [] {
      kept := [];
    } else {
      var rest := DropImproper(ranges[1..]);
      var r := ranges[0];
      if r.end < r.start {
        kept := rest;
        assert Span(r.start, r.end) == [];
      } else {
        kept := [r] + rest;
        assert kept[1..] == rest;
      }
    }
  }

  /** No list of ranges that stands for the same numbers is shorter. */
  lemma FewestRanges(ranges: seq<Range>, others: seq<Range>)
    requires Proper(ranges) && Maximal(ranges) && Expand(ranges) == Expand(others)
    ensures |ranges| <= |others|
  {
    hide Expand;
    var kept := DropImproper(others);
    FewestProper(ranges, kept);
  }

  /** A list of numbers has only one compression. */
  lemma {:induction false} CompressionUnique(a: seq<Range>, b: seq<Range>)
    requires Proper(a) && Maximal(a) && Proper(b) && Maximal(b)
    requires Expand(a) == Expand(b)
    ensures a == b
    decreases |a|
  {
    FewestRanges(a, b);
    FewestRanges(b, a);
    if a != [] {
      FirstRange(a, b);
      FirstRange(b, a);
      var first := Span(a[0].start, a[0].end);
      assert Expand(a) == first + Expand(a[1..]);
      assert Expand(b) == first + Expand(b[1..]);
      assert Expand(a[1..]) == Expand(a)[|first|..] == Expand(b[1..]);
      CompressionUnique(a[1..], b[1..]);
      assert a == [a[0]] + a[1..] && b == [b[0]] + b[1..];
    }
  }

  // -------------------------------------------------------------------- as text

  /** Python's f"{n:x}". */
  function PyHex(n: int): string {
    if n < 0 then "-" + Numeral(-n, 16) else Numeral(n, 16)
  }

  const DASH: char := '\U{2013}'

  function RangeText(r: Range): string {
    if r.start == r.end then "0x" + PyHex(r.start)
    else "0x" + PyHex(r.start) + [DASH] + "0x" + PyHex(r.end)
  }

  /** A range is written as its one number or as its two ends with an en dash between. */
  lemma RangeWritten(start: nat, end: nat)
    ensures RangeText(Range(start, start)) == Hex(start)
    ensures start != end ==> RangeText(Range(start, end)) == Hex(start) + "\U{2013}" + Hex(end)
  {
    hide Numeral;
    Assoc(Hex(start) + "\U{2013}", "0x", Numeral(end, 16));
  }

  function RangeTexts(ranges: seq<Range>): (r: seq<string>)
    ensures |r| == |ranges|
  {
    if ranges == [] then [] else [RangeText(ranges[0])] + RangeTexts(ranges[1..])
  }

  /** A hexadecimal number at the start of `s`, and what follows it. */
  datatype Parsed<T> = Nothing | Parsed(value: T, rest: string)

  function ParseDigits(s: string): (p: Parsed<int>)
    ensures p.Parsed? ==> |p.rest| < |s|
  {
    var n := DigitRun(s, 16);
    if n == 0 then Nothing else Parsed(Value(s[..n], 16), s[n..])
  }

  function ParseHex(s: string): (p: Parsed<int>)
    ensures p.Parsed? ==> |p.rest| < |s|
  {
    if |s| < 3 || s[..2] != "0x" then Nothing
    else if s[2] == '-' then
      match ParseDigits(s[3..])
      case Nothing => Nothing
      case Parsed(v, rest) => Parsed(-v, rest)
    else ParseDigits(s[2..])
  }

  function ParseRange(s: string): (p: Parsed<Range>)
    ensures p.Parsed? ==> |p.rest| < |s|
  {
    match ParseHex(s)
    case Nothing => Nothing
    case Parsed(start, rest) =>
      if rest != "" && rest[0] == DASH then
        match ParseHex(rest[1..])
        case Nothing => Nothing
        case Parsed(end, after) => Parsed(Range(start, end), after)
      else Parsed(Range(start, start), rest)
  }

  function ParseList(s: string): Parsed<seq<Range>>
    decreases |s|
  {
    match ParseRange(s)
    case Nothing => Nothing
    case Parsed(r, rest) =>
      if |rest| >= 2 && rest[..2] == ", " then
        match ParseList(rest[2..])
        case Nothing => Nothing
        case Parsed(rs, after) => Parsed([r] + rs, after)
      else Parsed([r], rest)
  }

  /** Reads a printed list of ranges back into the numbers it stands for. */
  function ParseRanges(s: string): Parsed<seq<int>> {
    if s == "NONE" then Parsed([], "")
    else
      match ParseList(s)
      case Nothing => Nothing
      case Parsed(rs, rest) => Parsed(Expand(rs), rest)
  }

  predicate EndsNumber(rest: string) {
    rest == "" || !IsDigit(rest[0], 16)
  }

  lemma ParseDigitsText(n: nat, rest: string)
    requires EndsNumber(rest)
    ensures ParseDigits(Numeral(n, 16) + rest) == Parsed(n, rest)
  {
    hide Numeral, DigitRun, Value;
    var digits := Numeral(n, 16);
    DigitRunIs(digits, rest, 16);
    NumeralValue(n, 16);
    assert (digits + rest)[..|digits|] == digits && (digits + rest)[|digits|..] == rest;
  }

  lemma ParseHexText(n: int, rest: string)
    requires EndsNumber(rest)
    ensures ParseHex("0x" + PyHex(n) + rest) == Parsed(n, rest)
  {
    hide Numeral, ParseDigits;
    var s, digits := "0x" + PyHex(n) + rest, Numeral(if n < 0 then -n else n, 16);
    ParseDigitsText(if n < 0 then -n else n, rest);
    assert s[..2] == "0x";
    if n < 0 {
      assert s[3..] == digits + rest;
    } else {
      assert IsDigit(digits[0], 16) && s[2] == digits[0];
      assert s[2..] == digits + rest;
    }
  }

  lemma ParseRangeText(r: Range, rest: string)
    requires EndsNumber(rest) && (rest != "" ==> rest[0] != DASH)
    ensures ParseRange(RangeText(r) + rest) == Parsed(r, rest)
  {
    hide ParseHex, PyHex;
    if r.start == r.end {
      ParseHexText(r.start, rest);
    } else {
      var tail := [DASH] + "0x" + PyHex(r.end) + rest;
      assert RangeText(r) + rest == "0x" + PyHex(r.start) + tail;
      ParseHexText(r.start, tail);
      assert tail[1..] == "0x" + PyHex(r.end) + rest;
      ParseHexText(r.end, rest);
    }
  }

  lemma {:induction false} ParseListText(ranges: seq<Range>)
    requires ranges != []
    ensures ParseList(Join(", ", RangeTexts(ranges))) == Parsed(ranges, "")
  {
    hide ParseRange, RangeText;
    var r, others := ranges[0], ranges[1..];
    JoinCons(", ", RangeText(r), RangeTexts(others));
    if others == [] {
      assert RangeText(r) + "" == RangeText(r) && ranges == [r];
      assert [RangeText(r)] + RangeTexts(others) == [RangeText(r)];
      ParseRangeText(r, "");
    } else {
      var rest := ", " + Join(", ", RangeTexts(others));
      ParseRangeText(r, rest);
      assert rest[..2] == ", " && rest[2..] == Join(", ", RangeTexts(others));
      ParseListText(others);
      assert ranges == [r] + others;
    }
  }

  /** compress_ranges, for every list of integers: what it prints is read back as
      exactly that list, and is the print of its one minimal list of ranges. */
  method CompressRanges(numbers: seq<int>) returns (text: string)
    ensures ParseRanges(text) == Parsed(numbers, "")
    ensures numbers == [] <==> text == "NONE"
    ensures numbers != [] ==> exists ranges :: Compresses(ranges, numbers) && text == Join(", ", RangeTexts(ranges))
  {
    if numbers == [] {
      return "NONE";
    }
    var ranges := ScanRanges(numbers);
    var parts: seq<string> := [];
    for i := 0 to |ranges|
      invariant parts == RangeTexts(ranges[..i])
    {
      var r := ranges[i];
      parts := parts + [if r.start == r.end then "0x" + PyHex(r.start)
                        else "0x" + PyHex(r.start) + [DASH] + "0x" + PyHex(r.end)];
      RangeTextsSnoc(ranges[..i], r);
      assert ranges[..i + 1] == ranges[..i] + [r];
    }
    assert ranges[..|ranges|] == ranges;
    text := Join(", ", parts);
    ParseListText(ranges);
    StartsWithNumber(ranges);
  }

  lemma {:induction false} RangeTextsSnoc(ranges: seq<Range>, r: Range)
    ensures RangeTexts(ranges + [r]) == RangeTexts(ranges) + [RangeText(r)]
  {
    if ranges != [] {
      assert (ranges + [r])[1..] == ranges[1..] + [r];
      RangeTextsSnoc(ranges[1..], r);
    } else {
      assert ranges + [r] == [r];
    }
  }

  lemma StartsWithNumber(ranges: seq<Range>)
    requires ranges != []
    ensures Join(", ", RangeTexts(ranges)) != "NONE"
  {
    JoinCons(", ", RangeText(ranges[0]), RangeTexts(ranges[1..]));
    assert RangeText(ranges[0])[0] == '0';
  }
}

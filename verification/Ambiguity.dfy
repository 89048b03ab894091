/** What print_quoted's output determines: which buffers no other is printed like, and
    a reader that gets the bytes back for as many buffers as any reader can. */
module Ambiguity {
  import opened Numerals
  import opened Tracee
  import opened Quoting
  import opened Text

  predicate DigitAt(bs: seq<byte>, i: nat) {
    i < |bs| && IsAsciiDigit(bs[i])
  }

  function DigitValue(b: byte): int {
    b - '0' as int
  }

  /** The number that byte `i` and a digit behind it make together. */
  function Joined(bs: seq<byte>, i: nat): int
    requires DigitAt(bs, i + 1)
  {
    10 * bs[i] + DigitValue(bs[i + 1])
  }

  /** The escape of byte `i` can be read in one way only: it has a single digit, and
      unless that is zero no digit behind it makes a number up to 31 of the two. (The
      escapes of 127 to 255 start with such a number as well.) */
  predicate SoleAt(bs: seq<byte>, i: nat)
    requires i < |bs|
  {
    || IsPrint(bs[i])
    || bs[i] == 0
    || (bs[i] < 10 && (DigitAt(bs, i + 1) ==> Joined(bs, i) > 31))
  }

  predicate Sole(bs: seq<byte>) {
    forall i :: 0 <= i < |bs| ==> SoleAt(bs, i)
  }

  /** The escape of byte `i` is the longest that its digits and those behind it allow. */
  predicate LongestAt(bs: seq<byte>, i: nat)
    requires i < |bs|
  {
    IsPrint(bs[i]) || bs[i] == 0 || (DigitAt(bs, i + 1) ==> IsPrintable(Joined(bs, i)) || Joined(bs, i) > 255)
  }

  predicate Longest(bs: seq<byte>) {
    forall i :: 0 <= i < |bs| ==> LongestAt(bs, i)
  }

  predicate IsPrintable(n: int) {
    0 <= n < 256 && IsPrint(n)
  }

  /** Both the clean buffers and the sole ones are among the longest. */
  lemma CleanOrSole(bs: seq<byte>)
    ensures Clean(bs) || Sole(bs) ==> Longest(bs)
  {
    if Sole(bs) {
      assert forall i :: 0 <= i < |bs| ==> SoleAt(bs, i) ==> LongestAt(bs, i);
    }
  }

  // ---------------------------------------------------- the numerals of a byte

  lemma DecLengths(b: byte)
    ensures |Dec(b)| == if b < 10 then 1 else if b < 100 then 2 else 3
  {
    assert b >= 10 ==> Dec(b) == Dec(b / 10) + [DigitChar(b % 10)];
    assert b >= 100 ==> Dec(b / 10) == Dec(b / 100) + [DigitChar(b / 10 % 10)] by {
      assert b / 10 / 10 == b / 100;
    }
  }

  /** A numeral that is one digit longer than another it starts with. */
  lemma OneDigitMore(n: nat, v: nat)
    requires |Dec(v)| == |Dec(n)| + 1 && Dec(n) <= Dec(v)
    ensures v >= 10 && v / 10 == n && Dec(v)[|Dec(n)|] == DigitChar(v % 10)
  {
    assert v >= 10;
    var front := Dec(v / 10);
    assert Dec(v) == front + [DigitChar(v % 10)];
    assert front == Dec(v)[..|front|] == Dec(n);
    NumeralValue(v / 10, 10);
    NumeralValue(n, 10);
  }

  /** A byte that is an ASCII digit is printed as that digit. */
  function DigitByte(d: nat): (b: byte)
    requires d < 10
    ensures IsAsciiDigit(b) && DigitValue(b) == d && QuoteByte(b) == [DigitChar(d)]
  {
    d + '0' as int
  }

  // --------------------------------------------------- other buffers alike

  lemma EscapedOne(b: byte)
    ensures Escaped([b]) == QuoteByte(b)
  {
    assert [b][1..] == [];
  }

  /** An escape and a digit byte behind it are printed like the escape of the number
      that they make together. */
  lemma JoinedAlike(n: byte, d: nat)
    requires 1 <= n && d < 10 && 10 * n + d < 256 && !IsPrint(n) && !IsPrint(10 * n + d)
    ensures Escaped([n, DigitByte(d)]) == Escaped([10 * n + d])
  {
    var v := 10 * n + d;
    assert Dec(v) == Dec(n) + [DigitChar(d)];
    EscapedOne(n);
    EscapedOne(v);
    EscapedSnoc([n], DigitByte(d));
    assert [n] + [DigitByte(d)] == [n, DigitByte(d)];
  }

  lemma DigitIs(b: byte) returns (d: nat)
    requires IsAsciiDigit(b)
    ensures d < 10 && d == DigitValue(b) && DigitByte(d) == b
  {
    d := DigitValue(b);
  }

  /** Replacing a part by one that is printed alike. */
  lemma Replaced(before: seq<byte>, part: seq<byte>, other: seq<byte>, after: seq<byte>)
    requires Escaped(part) == Escaped(other) && |part| != |other|
    ensures Escaped(before + other + after) == Escaped(before + part + after)
    ensures before + other + after != before + part + after
  {
    EscapedAppend(before + part, after);
    EscapedAppend(before, part);
    EscapedAppend(before + other, after);
    EscapedAppend(before, other);
    assert |before + other + after| != |before + part + after|;
  }

  /** Byte `i` and the digit behind it, put together. */
  lemma PutTogether(bs: seq<byte>, i: nat) returns (other: seq<byte>)
    requires i < |bs| && bs[i] != 0 && !IsPrint(bs[i])
    requires DigitAt(bs, i + 1) && Joined(bs, i) < 256 && !IsPrint(Joined(bs, i))
    ensures Escaped(other) == Escaped(bs) && other != bs && |other| < |bs|
  {
    hide Escaped, IsPrint, IsAsciiDigit;
    var d := DigitIs(bs[i + 1]);
    JoinedAlike(bs[i], d);
    var part, alike := [bs[i], bs[i + 1]], [10 * bs[i] + d];
    assert bs == bs[..i] + part + bs[i + 2..];
    Replaced(bs[..i], part, alike, bs[i + 2..]);
    other := bs[..i] + alike + bs[i + 2..];
  }

  /** Byte `i`, whose escape has several digits, with the last of them set apart. */
  lemma TakenApart(bs: seq<byte>, i: nat) returns (other: seq<byte>)
    requires i < |bs| && bs[i] >= 10 && !IsPrint(bs[i])
    ensures Escaped(other) == Escaped(bs) && other != bs
  {
    hide Escaped;
    var b := bs[i];
    JoinedAlike(b / 10, b % 10);
    var part, alike := [b], [b / 10, DigitByte(b % 10)];
    assert bs == bs[..i] + part + bs[i + 1..];
    Replaced(bs[..i], part, alike, bs[i + 1..]);
    other := bs[..i] + alike + bs[i + 1..];
  }

  /** A buffer that is not sole shares its text with another one. */
  lemma NotSole(bs: seq<byte>) returns (other: seq<byte>)
    requires !Sole(bs)
    ensures Quoted(other) == Quoted(bs) && other != bs
  {
    hide Escaped;
    var i :| 0 <= i < |bs| && !SoleAt(bs, i);
    if bs[i] >= 10 {
      other := TakenApart(bs, i);
    } else {
      other := PutTogether(bs, i);
    }
  }

  // ------------------------------------------------------- no other buffer alike

  /** What the first characters of a text tell of its first byte. */
  lemma FirstByte(b: byte)
    ensures var q := QuoteByte(b);
            && q != ""
            && (NeedsBackslash(b) ==> q == ['\\', b as char] && IsPrint(b))
            && (IsPrint(b) && !NeedsBackslash(b) ==> q == [b as char] && q[0] != '\\')
            && (!IsPrint(b) ==> q == "\\" + Dec(b) && q[0] == '\\' && IsDigit(q[1], 10))
  {
    assert !IsPrint(b) ==> QuoteByte(b)[1] == Dec(b)[0];
  }

  /** A digit at the front of a text is a digit byte. */
  lemma FirstDigit(bs: seq<byte>, after: string)
    requires after == "" || !IsDigit(after[0], 10)
    requires StartsWithDigit(Escaped(bs) + after)
    ensures DigitAt(bs, 0) && (Escaped(bs) + after)[0] == DigitChar(DigitValue(bs[0]))
  {
    if bs != [] {
      FirstByte(bs[0]);
      assert (Escaped(bs) + after)[0] == QuoteByte(bs[0])[0];
    }
  }

  lemma DigitCharInjective(m: nat, n: nat)
    requires m < 10 && n < 10 && DigitChar(m) == DigitChar(n)
    ensures m == n
  {
  }

  /** If a text starts with the escape of `b` and with that of a longer number, then a
      digit byte follows `b`, and the two make up that number or its first digits. */
  lemma LongerNumeral(b: byte, tail: seq<byte>, after: string, c: byte)
    requires after == "" || !IsDigit(after[0], 10)
    requires |Dec(b)| < |Dec(c)| && Dec(c) <= Dec(b) + (Escaped(tail) + after)
    ensures DigitAt(tail, 0)
    ensures 10 * b + DigitValue(tail[0]) == if |Dec(c)| == |Dec(b)| + 1 then c else c / 10
  {
    hide Escaped, Dec;
    DecLengths(b);
    DecLengths(c);
    var text := Dec(b) + (Escaped(tail) + after);
    var v := if |Dec(c)| == |Dec(b)| + 1 then c else c / 10;
    DecLengths(v);
    DropDigit(c);
    assert Dec(v) <= Dec(c) && Dec(v) <= text;
    assert Dec(b) == text[..|Dec(b)|] == Dec(v)[..|Dec(b)|];
    OneDigitMore(b, v);
    assert text[|Dec(b)|] == Dec(v)[|Dec(b)|] == (Escaped(tail) + after)[0];
    FirstDigit(tail, after);
    DigitCharInjective(DigitValue(tail[0]), v % 10);
  }

  lemma DropDigit(c: byte)
    ensures c >= 10 ==> Dec(c / 10) <= Dec(c)
  {
  }

  /** Bytes whose escapes start the same text, one of them sole. */
  lemma SameEscape(b: byte, tail: seq<byte>, c: byte, rest: seq<byte>)
    requires SoleAt([b] + tail, 0) && !IsPrint(b) && !IsPrint(c)
    requires Dec(b) + Escaped(tail) == Dec(c) + Escaped(rest)
    ensures b == c
  {
    hide Escaped, Dec;
    var bs, text := [b] + tail, Dec(b) + Escaped(tail);
    assert |tail| > 0 ==> bs[1] == tail[0];
    DecLengths(b);
    DecLengths(c);
    assert Escaped(tail) + "" == Escaped(tail);
    if c < 10 {
      assert Dec(b) == text[..1] == Dec(c);
      NumeralValue(b, 10);
      NumeralValue(c, 10);
      assert b == Value(Dec(b), 10) && c == Value(Dec(c), 10) by { DecIs(b); DecIs(c); }
    } else {
      LongerNumeral(b, tail, "", c);
    }
  }

  lemma DecIs(n: nat)
    ensures Dec(n) == Numeral(n, 10)
  {
  }

  /** The first bytes of two buffers with the same text, one of them sole. */
  lemma SameFirst(b: byte, tail: seq<byte>, c: byte, rest: seq<byte>)
    requires SoleAt([b] + tail, 0)
    requires QuoteByte(b) + Escaped(tail) == QuoteByte(c) + Escaped(rest)
    ensures b == c
  {
    hide Escaped, Dec, QuoteByte, SoleAt;
    var text := QuoteByte(b) + Escaped(tail);
    FirstByte(b);
    FirstByte(c);
    assert text[0] == QuoteByte(b)[0] == QuoteByte(c)[0];
    if !IsPrint(b) && !IsPrint(c) {
      assert text[1..] == Dec(b) + Escaped(tail);
      assert text[1..] == Dec(c) + Escaped(rest);
      SameEscape(b, tail, c, rest);
    } else if text[0] == '\\' {
      assert text[1] == QuoteByte(b)[1] == QuoteByte(c)[1];
    }
  }

  lemma {:induction false} SoleIsOnly(bs: seq<byte>, other: seq<byte>)
    requires Sole(bs) && Escaped(bs) == Escaped(other)
    ensures bs == other
  {
    hide QuoteByte;
    if bs != [] && other != [] {
      var tail, rest, text := bs[1..], other[1..], Escaped(bs);
      assert bs == [bs[0]] + tail && other == [other[0]] + rest;
      assert SoleAt(bs, 0);
      SameFirst(bs[0], tail, other[0], rest);
      var q := QuoteByte(bs[0]);
      assert Escaped(tail) == text[|q|..] == Escaped(rest);
      forall i | 0 <= i < |tail|
        ensures SoleAt(tail, i)
      {
        assert SoleAt(bs, i + 1);
      }
      SoleIsOnly(tail, rest);
    } else {
      if bs != [] { FirstByte(bs[0]); }
      if other != [] { FirstByte(other[0]); }
    }
  }

  lemma SameText(a: seq<byte>, b: seq<byte>)
    requires Quoted(a) == Quoted(b)
    ensures Escaped(a) == Escaped(b)
  {
    assert Escaped(a) == Quoted(a)[1..|Quoted(a)| - 1];
    assert Escaped(b) == Quoted(b)[1..|Quoted(b)| - 1];
  }

  /** What the printed text determines: no other buffer is printed like `bs` if and
      only if every escape in it is sole. */
  lemma QuotedDetermines(bs: seq<byte>)
    ensures (forall other :: Quoted(other) == Quoted(bs) ==> other == bs) <==> Sole(bs)
  {
    if Sole(bs) {
      forall other | Quoted(other) == Quoted(bs)
        ensures other == bs
      {
        SameText(bs, other);
        SoleIsOnly(bs, other);
      }
    } else {
      var other := NotSole(bs);
    }
  }

  // ------------------------------------------------------------ the best reader

  /** `s` starts with the numeral, `k` digits long, of a byte that is escaped. */
  predicate NumeralAt(s: string, k: nat) {
    && k <= |s|
    && var v := Value(s[..k], 10);
       v < 256 && !IsPrint(v) && s[..k] == Dec(v)
  }

  /** The length of the longest one, or 0. */
  function NumeralLength(s: string): (k: nat)
    ensures k > 0 ==> NumeralAt(s, k)
    ensures k <= 3 && forall j :: k < j <= 3 ==> !NumeralAt(s, j)
  {
    if NumeralAt(s, 3) then 3 else if NumeralAt(s, 2) then 2 else if NumeralAt(s, 1) then 1 else 0
  }

  /** Reads escaped text up to the first unescaped quote. A backslash takes the longest
      numeral of an escaped byte after it, or else one quote or backslash. */
  function Decode(s: string): Unquoted
    decreases |s|
  {
    if s == "" then Malformed
    else if s[0] == '"' then Unquoted([], s[1..])
    else if s[0] != '\\' then Prepend(s[0] as int, Decode(s[1..]))
    else
      var k := NumeralLength(s[1..]);
      if k > 0 then Prepend(Value(s[1..1 + k], 10), Decode(s[1 + k..]))
      else if |s| >= 2 && (s[1] == '"' || s[1] == '\\') then Prepend(s[1] as int, Decode(s[2..]))
      else Malformed
  }

  function DecodeQuoted(s: string): Unquoted {
    if s != "" && s[0] == '"' then Decode(s[1..]) else Malformed
  }

  lemma OwnNumeral(b: byte, after: string)
    requires !IsPrint(b)
    ensures NumeralAt(Dec(b) + after, |Dec(b)|) && Value((Dec(b) + after)[..|Dec(b)|], 10) == b
  {
    assert (Dec(b) + after)[..|Dec(b)|] == Dec(b);
    NumeralValue(b, 10);
  }

  /** Where an escape is the longest, the reader takes exactly its digits. */
  lemma LongestLength(b: byte, tail: seq<byte>, after: string)
    requires !IsPrint(b) && LongestAt([b] + tail, 0)
    requires after != "" && !IsDigit(after[0], 10)
    ensures NumeralLength(Dec(b) + (Escaped(tail) + after)) == |Dec(b)|
  {
    hide Escaped, Dec, Value;
    var bs, s := [b] + tail, Dec(b) + (Escaped(tail) + after);
    assert |tail| > 0 ==> bs[1] == tail[0];
    OwnNumeral(b, Escaped(tail) + after);
    DecLengths(b);
    forall k | |Dec(b)| < k <= 3
      ensures !NumeralAt(s, k)
    {
      if NumeralAt(s, k) {
        var c := Value(s[..k], 10);
        assert Dec(c) == s[..k] <= s;
        DecLengths(c);
        LongerNumeral(b, tail, after, c);
      }
    }
  }

  lemma DecodePlain(c: char, after: string)
    requires c != '"' && c != '\\'
    ensures Decode([c] + after) == Prepend(c as int, Decode(after))
  {
    assert ([c] + after)[1..] == after;
  }

  lemma DecodeBackslashed(b: byte, after: string)
    requires NeedsBackslash(b)
    ensures Decode(['\\', b as char] + after) == Prepend(b, Decode(after))
  {
    var s := ['\\', b as char] + after;
    assert s[2..] == after && s[1..][0] == s[1];
    if NumeralLength(s[1..]) > 0 {
      NumeralStarts(s[1..], NumeralLength(s[1..]));
    }
  }

  lemma NumeralStarts(s: string, k: nat)
    requires NumeralAt(s, k)
    ensures k > 0 && IsDigit(s[0], 10)
  {
    var v := Value(s[..k], 10);
    assert s[0] == Dec(v)[0];
  }

  lemma DecodeNumeral(b: byte, after: string)
    requires !IsPrint(b) && NumeralLength(Dec(b) + after) == |Dec(b)|
    ensures Decode("\\" + Dec(b) + after) == Prepend(b, Decode(after))
  {
    hide NumeralAt, Dec, Value;
    var s, k := "\\" + Dec(b) + after, |Dec(b)|;
    OwnNumeral(b, after);
    assert s[1..] == Dec(b) + after;
    assert s[1..1 + k] == (Dec(b) + after)[..k] && s[1 + k..] == after;
  }

  /** The reader gets a longest buffer back, whatever follows its closing quote. */
  lemma {:induction false} DecodesLongest(bs: seq<byte>, rest: string)
    requires Longest(bs)
    ensures Decode(Escaped(bs) + ("\"" + rest)) == Unquoted(bs, rest)
  {
    hide Decode, Dec, IsPrint, NumeralLength;
    var end := "\"" + rest;
    if bs == [] {
      assert Escaped(bs) + end == end;
      DecodeEnd(rest);
    } else {
      var b, tail := bs[0], bs[1..];
      var after := Escaped(tail) + end;
      forall i | 0 <= i < |tail|
        ensures LongestAt(tail, i)
      {
        assert LongestAt(bs, i + 1);
      }
      DecodesLongest(tail, rest);
      assert Escaped(bs) + end == QuoteByte(b) + after;
      assert bs == [b] + tail;
      FirstByte(b);
      if !IsPrint(b) {
        assert LongestAt(bs, 0);
        LongestLength(b, tail, end);
        DecodeNumeral(b, after);
      } else if NeedsBackslash(b) {
        DecodeBackslashed(b, after);
      } else {
        assert b as char != '"';
        DecodePlain(b as char, after);
      }
    }
  }

  lemma DecodeEnd(rest: string)
    ensures Decode("\"" + rest) == Unquoted([], rest)
  {
    assert ("\"" + rest)[1..] == rest;
  }

  /** Every buffer is printed like a longest one. */
  lemma {:induction false} HasLongest(bs: seq<byte>) returns (other: seq<byte>)
    ensures Longest(other) && Escaped(other) == Escaped(bs)
    decreases |bs|
  {
    hide Escaped;
    if Longest(bs) {
      other := bs;
    } else {
      var i :| 0 <= i < |bs| && !LongestAt(bs, i);
      other := PutTogether(bs, i);
      other := HasLongest(other);
    }
  }

  /** The round trip of the best reader: it finds the closing quote and a buffer that
      is printed exactly so, for every buffer and whatever follows; and that is the
      buffer itself if and only if all its escapes are the longest. */
  lemma DecodeRoundTrip(bs: seq<byte>, rest: string)
    ensures var u := DecodeQuoted(Quoted(bs) + rest);
            && u.Unquoted? && u.rest == rest
            && (u == Unquoted(bs, rest) <==> Longest(bs))
            && exists other: seq<byte> :: Longest(other) && Quoted(other) == Quoted(bs) && u == Unquoted(other, rest)
  {
    hide Longest, Decode, Escaped;
    var other := HasLongest(bs);
    assert (Quoted(bs) + rest)[1..] == Escaped(other) + ("\"" + rest);
    DecodesLongest(other, rest);
    assert Quoted(other) == Quoted(bs);
    if Longest(bs) {
      DecodesLongest(bs, rest);
    }
  }

  /** No reader does better: each text is that of exactly one longest buffer, so one
      that recovers any other buffer must miss a longest one. */
  lemma OneLongest(bs: seq<byte>)
    ensures exists one: seq<byte> :: OnlyLongest(one, Quoted(bs))
  {
    hide Longest, DecodeQuoted, Quoted;
    DecodeRoundTrip(bs, "");
    var one: seq<byte> :| Longest(one) && Quoted(one) == Quoted(bs) && DecodeQuoted(Quoted(bs) + "") == Unquoted(one, "");
    forall other | Longest(other) && Quoted(other) == Quoted(bs)
      ensures other == one
    {
      DecodeRoundTrip(other, "");
    }
    assert OnlyLongest(one, Quoted(bs));
  }

  ghost predicate OnlyLongest(one: seq<byte>, text: string) {
    Longest(one) && Quoted(one) == text && forall other :: Longest(other) && Quoted(other) == text ==> other == one
  }
}

/** print_quoted: bytes between double quotes, with backslash escapes for the
    quote, the backslash and everything unprintable. */
module Quoting {
  import opened Numerals
  import opened Tracee
  import Text

  /** isprint in the "C" locale. */
  predicate IsPrint(b: byte) {
    0x20 <= b <= 0x7e
  }

  predicate NeedsBackslash(b: byte) {
    b == '"' as int || b == '\\' as int
  }

  function QuoteByte(b: byte): string {
    if NeedsBackslash(b) then ['\\', b as char]
    else if IsPrint(b) then [b as char]
    else "\\" + Dec(b)
  }

  function Escaped(bs: seq<byte>): string {
    if bs == [] then "" else QuoteByte(bs[0]) + Escaped(bs[1..])
  }

  function Quoted(bs: seq<byte>): string {
    "\"" + Escaped(bs) + "\""
  }

  lemma {:induction false} EscapedAppend(a: seq<byte>, b: seq<byte>)
    ensures Escaped(a + b) == Escaped(a) + Escaped(b)
  {
    if a == [] {
      assert a + b == b;
    } else {
      assert (a + b)[1..] == a[1..] + b;
      EscapedAppend(a[1..], b);
      Text.Assoc(QuoteByte(a[0]), Escaped(a[1..]), Escaped(b));
    }
  }

  lemma EscapedSnoc(bs: seq<byte>, b: byte)
    ensures Escaped(bs + [b]) == Escaped(bs) + QuoteByte(b)
  {
    hide QuoteByte;
    EscapedAppend(bs, [b]);
    assert Escaped([b]) == QuoteByte(b) + Escaped([b][1..]);
  }

  /** How each byte is written: quote and backslash behind a backslash, the other bytes
      from 32 to 126 as they are, and all others as a decimal number behind one. */
  lemma QuotedByte(b: byte)
    ensures b == 34 ==> QuoteByte(b) == "\\\""
    ensures b == 92 ==> QuoteByte(b) == "\\\\"
    ensures 32 <= b <= 126 && b != 34 && b != 92 ==> QuoteByte(b) == [b as char]
    ensures b < 32 || b > 126 ==> QuoteByte(b)[0] == '\\' && AllDigits(QuoteByte(b)[1..], 10) && Value(QuoteByte(b)[1..], 10) == b
  {
    NumeralValue(b, 10);
    if b < 32 || b > 126 {
      assert QuoteByte(b)[1..] == Dec(b);
    }
  }

  /** So quoted text is a quote, each byte in its turn, and a quote. */
  lemma QuotedBytes(bs: seq<byte>)
    ensures Quoted(bs) == "\"" + Text.Concat(seq(|bs|, (i: nat) requires i < |bs| => QuoteByte(bs[i]))) + "\""
  {
    EscapedBytes(bs);
  }

  lemma {:induction false} EscapedBytes(bs: seq<byte>)
    ensures Escaped(bs) == Text.Concat(seq(|bs|, (i: nat) requires i < |bs| => QuoteByte(bs[i])))
  {
    hide QuoteByte;
    if bs != [] {
      var tail := bs[1..];
      EscapedBytes(tail);
      var all := seq(|bs|, (i: nat) requires i < |bs| => QuoteByte(bs[i]));
      assert all[1..] == seq(|tail|, (i: nat) requires i < |tail| => QuoteByte(tail[i]));
    }
  }

  lemma EscapedNone()
    ensures Escaped([]) == ""
  {
  }

  method PrintQuoted(err: Stderr, buf: array<byte>, size: nat)
    requires size <= buf.Length
    modifies err
    ensures err.text == old(err.text) + Quoted(buf[..size])
  {
    hide Escaped, Dec;
    ghost var bs := buf[..size];
    EscapedNone();
    err.Fputc('"');
    ghost var start := err.text;
    for i := 0 to size
      invariant err.text == start + Escaped(bs[..i])
    {
      ghost var before := err.text;
      if buf[i] == '"' as int || buf[i] == '\\' as int {
        err.Fputs(['\\', buf[i] as char]);
      } else if IsPrint(buf[i]) {
        err.Fputc(buf[i] as char);
      } else {
        err.Fputs("\\" + Dec(buf[i]));
      }
      ghost var q := QuoteByte(bs[i]);
      assert err.text == before + q;
      assert err.text == start + Escaped(bs[..i + 1]) by {
        assert bs[..i + 1] == bs[..i] + [bs[i]];
        EscapedSnoc(bs[..i], bs[i]);
        Text.Assoc(start, Escaped(bs[..i]), q);
      }
    }
    assert bs[..size] == bs;
    err.Fputc('"');
  }

  // ---------------------------------------------------------------- reading back

  datatype Unquoted = Malformed | Unquoted(bytes: seq<nat>, rest: string)

  /** Reads escaped text up to the first unescaped quote. A backslash takes the
      longest run of decimal digits after it, or else one quote or backslash. */
  function Unescape(s: string): Unquoted
    decreases |s|
  {
    if s == "" then Malformed
    else if s[0] == '"' then Unquoted([], s[1..])
    else if s[0] != '\\' then Prepend(s[0] as int, Unescape(s[1..]))
    else
      var n := DigitRun(s[1..], 10);
      if n > 0 then Prepend(Value(s[1..1 + n], 10), Unescape(s[1 + n..]))
      else if |s| >= 2 && (s[1] == '"' || s[1] == '\\') then Prepend(s[1] as int, Unescape(s[2..]))
      else Malformed
  }

  function Prepend(b: nat, u: Unquoted): Unquoted {
    match u
    case Malformed => Malformed
    case Unquoted(bytes, rest) => Unquoted([b] + bytes, rest)
  }

  function Unquote(s: string): Unquoted {
    if s != "" && s[0] == '"' then Unescape(s[1..]) else Malformed
  }

  predicate IsAsciiDigit(b: byte) {
    '0' as int <= b <= '9' as int
  }

  /** No byte written as a decimal escape is directly followed by a digit. */
  predicate Clean(bs: seq<byte>) {
    forall i :: 0 <= i < |bs| - 1 && !IsPrint(bs[i]) ==> !IsAsciiDigit(bs[i + 1])
  }

  /** How many ASCII digits `bs` starts with. */
  function LeadingDigits(bs: seq<byte>): (n: nat)
    ensures n <= |bs|
    ensures n > 0 <==> bs != [] && IsAsciiDigit(bs[0])
  {
    if bs == [] || !IsAsciiDigit(bs[0]) then 0 else 1 + LeadingDigits(bs[1..])
  }

  /** What a reader makes of quoted `bs`: digits after a decimal escape are taken
      as part of its number. */
  function ReadBack(bs: seq<byte>): (r: seq<nat>)
    ensures |r| <= |bs|
  {
    if bs == [] then []
    else if IsPrint(bs[0]) then [bs[0]] + ReadBack(bs[1..])
    else
      var k := LeadingDigits(bs[1..]);
      [Value(Dec(bs[0]) + Escaped(bs[1..][..k]), 10)] + ReadBack(bs[1..][k..])
  }

  predicate StartsWithDigit(s: string) {
    s != "" && IsDigit(s[0], 10)
  }

  /** Leading digit bytes stand for themselves. */
  lemma {:induction false} EscapedDigits(bs: seq<byte>)
    ensures AllDigits(Escaped(bs[..LeadingDigits(bs)]), 10)
    ensures !StartsWithDigit(Escaped(bs[LeadingDigits(bs)..]))
  {
    var k := LeadingDigits(bs);
    if k > 0 {
      EscapedDigits(bs[1..]);
      assert bs[..k] == [bs[0]] + bs[1..][..k - 1];
      assert bs[k..] == bs[1..][k - 1..];
      assert QuoteByte(bs[0]) == [bs[0] as char];
    }
  }

  lemma UnescapePrintable(b: byte, after: string)
    requires IsPrint(b)
    ensures Unescape(QuoteByte(b) + after) == Prepend(b, Unescape(after))
  {
    var s := QuoteByte(b) + after;
    assert s[|QuoteByte(b)|..] == after;
  }

  lemma UnescapeDecimal(digits: string, after: string)
    requires digits != "" && AllDigits(digits, 10)
    requires !StartsWithDigit(after)
    ensures Unescape("\\" + digits + after) == Prepend(Value(digits, 10), Unescape(after))
  {
    var s := "\\" + digits + after;
    assert s[1..] == digits + after;
    DigitRunIs(digits, after, 10);
    assert s[1..1 + |digits|] == digits && s[1 + |digits|..] == after;
  }

  lemma Regroup(p: string, d: string, e: string, f: string, q: string, r: string)
    ensures p + d + (e + f) + q + r == p + (d + e) + (f + q + r)
  {
  }

  lemma SplitDecimal(b: byte, tail: seq<byte>, rest: string) returns (digits: string, after: string)
    requires !IsPrint(b)
    ensures QuoteByte(b) + Escaped(tail) + "\"" + rest == "\\" + digits + after
    ensures digits == Dec(b) + Escaped(tail[..LeadingDigits(tail)])
    ensures after == Escaped(tail[LeadingDigits(tail)..]) + "\"" + rest
    ensures AllDigits(digits, 10) && !StartsWithDigit(after)
  {
    hide Escaped, LeadingDigits, Dec;
    var k := LeadingDigits(tail);
    var d, e, f := Dec(b), Escaped(tail[..k]), Escaped(tail[k..]);
    EscapedDigits(tail);
    EscapedAppend(tail[..k], tail[k..]);
    assert tail == tail[..k] + tail[k..];
    digits, after := d + e, f + "\"" + rest;
    Regroup("\\", d, e, f, "\"", rest);
  }

  /** After a decimal escape, the digits that follow join its number. */
  lemma UnescapeDecimalByte(b: byte, tail: seq<byte>, rest: string)
    requires !IsPrint(b)
    ensures var k := LeadingDigits(tail);
            Unescape(QuoteByte(b) + Escaped(tail) + "\"" + rest)
            == Prepend(Value(Dec(b) + Escaped(tail[..k]), 10), Unescape(Escaped(tail[k..]) + "\"" + rest))
  {
    var digits, after := SplitDecimal(b, tail, rest);
    UnescapeDecimal(digits, after);
  }

  /** For every buffer and whatever follows it, the reader stops exactly at the
      closing quote, and reads `ReadBack`. */
  lemma {:induction false} UnescapeEscaped(bs: seq<byte>, rest: string)
    ensures Unescape(Escaped(bs) + "\"" + rest) == Unquoted(ReadBack(bs), rest)
    decreases |bs|
  {
    if bs == [] {
      assert (Escaped(bs) + "\"" + rest)[1..] == rest;
    } else if IsPrint(bs[0]) {
      var after := Escaped(bs[1..]) + "\"" + rest;
      assert Escaped(bs) + "\"" + rest == QuoteByte(bs[0]) + after;
      UnescapePrintable(bs[0], after);
      UnescapeEscaped(bs[1..], rest);
    } else {
      UnescapeDecimalByte(bs[0], bs[1..], rest);
      UnescapeEscaped(bs[1..][LeadingDigits(bs[1..])..], rest);
    }
  }

  lemma CleanCons(bs: seq<byte>)
    requires bs != []
    ensures Clean(bs) <==> Clean(bs[1..]) && (!IsPrint(bs[0]) && |bs| > 1 ==> !IsAsciiDigit(bs[1]))
  {
    assert forall i :: 0 < i < |bs| ==> bs[i] == bs[1..][i - 1];
  }

  /** What becomes of the first byte: itself, unless it is escaped and digits follow. */
  lemma ReadBackCons(bs: seq<byte>)
    requires bs != []
    ensures if IsPrint(bs[0]) || LeadingDigits(bs[1..]) == 0 then ReadBack(bs) == [bs[0]] + ReadBack(bs[1..])
            else |ReadBack(bs)| < |bs|
  {
    hide Dec;
    var tail := bs[1..];
    if !IsPrint(bs[0]) && LeadingDigits(tail) == 0 {
      EscapedNone();
      assert tail[..0] == [] && tail[0..] == tail;
      assert Dec(bs[0]) + Escaped(tail[..0]) == Dec(bs[0]);
      DecValue(bs[0]);
    }
  }

  lemma DecValue(n: nat)
    ensures Value(Dec(n), 10) == n
  {
    NumeralValue(n, 10);
  }

  lemma {:induction false} ReadBackExact(bs: seq<byte>)
    ensures ReadBack(bs) == bs <==> Clean(bs)
    ensures !Clean(bs) ==> |ReadBack(bs)| < |bs|
    decreases |bs|
  {
    hide ReadBack, Clean, IsPrint, LeadingDigits;
    if bs == [] {
      NothingToRead();
    } else {
      CleanCons(bs);
      ReadBackCons(bs);
      ReadBackExact(bs[1..]);
      assert bs == [bs[0]] + bs[1..];
    }
  }

  lemma NothingToRead()
    ensures ReadBack([]) == [] && Clean([])
  {
  }

  /** The round trip of this reader: for every buffer the closing quote is the first
      unescaped quote, and the bytes come back exactly when the buffer is clean. */
  lemma QuotedRoundTrip(bs: seq<byte>, rest: string)
    ensures Unquote(Quoted(bs) + rest).Unquoted? && Unquote(Quoted(bs) + rest).rest == rest
    ensures Unquote(Quoted(bs) + rest) == Unquoted(bs, rest) <==> Clean(bs)
  {
    assert (Quoted(bs) + rest)[1..] == Escaped(bs) + "\"" + rest;
    UnescapeEscaped(bs, rest);
    ReadBackExact(bs);
  }

  /** Two buffers, one clean and one not, that are printed alike. */
  lemma QuotedAmbiguous()
    ensures Quoted([1, '2' as int]) == Quoted([12]) && !Clean([1, '2' as int]) && Clean([12])
  {
    var digit: seq<byte> := ['2' as int];
    assert ([1] + digit)[1..] == digit && digit[1..] == [];
    assert [1, '2' as int] == [1] + digit;
    assert Escaped(digit) == "2";
    assert Dec(1) == "1" && Dec(12) == "12";
    assert Escaped([1] + digit) == "\\1" + "2";
    assert [12][1..] == [];
  }

  /** Clean buffers with the same quoted text are the same buffer. */
  lemma QuotedInjective(a: seq<byte>, b: seq<byte>)
    requires Clean(a) && Clean(b)
    requires Quoted(a) == Quoted(b)
    ensures a == b
  {
    QuotedRoundTrip(a, "");
    QuotedRoundTrip(b, "");
  }

  lemma DecOfByte(b: byte)
    ensures |Dec(b)| <= 3 && forall i :: 0 <= i < |Dec(b)| ==> '0' <= Dec(b)[i] <= '9'
  {
    assert |Numeral(b / 100, 10)| == 1;
    if b >= 10 {
      assert |Numeral(b / 10, 10)| <= 2;
    }
  }

  predicate Printable(s: string) {
    forall i :: 0 <= i < |s| ==> ' ' <= s[i] <= '~'
  }

  lemma {:induction false} EscapedPrintable(bs: seq<byte>)
    ensures |Escaped(bs)| <= 4 * |bs| && Printable(Escaped(bs))
  {
    hide QuoteByte;
    if bs != [] {
      EscapedPrintable(bs[1..]);
      QuoteBytePrintable(bs[0]);
    }
  }

  lemma QuoteBytePrintable(b: byte)
    ensures |QuoteByte(b)| <= 4 && Printable(QuoteByte(b))
  {
    DecOfByte(b);
  }

  /** Quoted text is printable and at most four characters per byte long. */
  lemma QuotedPrintable(bs: seq<byte>)
    ensures |Quoted(bs)| <= 4 * |bs| + 2 && Printable(Quoted(bs))
  {
    hide Escaped;
    EscapedPrintable(bs);
  }
}

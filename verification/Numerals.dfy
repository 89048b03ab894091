/** The number formats of printf ("%u", "%llu", "%lld", "%d", "0x%llx") and of
    Python's `str(n)` and `f"{n:x}"`, with the readers that undo them. */
module Numerals {

  const TWO31: int := 0x8000_0000
  const TWO32: int := 0x1_0000_0000
  const TWO63: int := 0x8000_0000_0000_0000
  const TWO64: int := 0x1_0000_0000_0000_0000

  type u32 = x: int | 0 <= x < TWO32
  type u64 = x: int | 0 <= x < TWO64

  /** 0..15 for a lower-case hexadecimal digit, 16 for every other character. */
  function DigitOf(c: char): (d: nat)
    ensures d <= 16
  {
    if '0' <= c <= '9' then c as int - '0' as int
    else if 'a' <= c <= 'f' then c as int - 'a' as int + 10
    else 16
  }

  predicate IsDigit(c: char, base: nat) {
    DigitOf(c) < base
  }

  function DigitChar(d: nat): (c: char)
    requires d < 16
    ensures DigitOf(c) == d
    ensures d < 10 ==> '0' <= c <= '9'
  {
    if d < 10 then (d + '0' as int) as char else (d - 10 + 'a' as int) as char
  }

  /** The digits are the usual ones, in lower case. */
  lemma DigitChars(d: nat)
    requires d < 16
    ensures DigitChar(d) == "0123456789abcdef"[d]
  {
  }

  predicate AllDigits(s: string, base: nat) {
    forall i :: 0 <= i < |s| ==> IsDigit(s[i], base)
  }

  /** The numeral of `n` without leading zeros. */
  function Numeral(n: nat, base: nat): (s: string)
    requires base == 10 || base == 16
    ensures |s| > 0 && AllDigits(s, base)
    decreases n
  {
    if n < base then [DigitChar(n)] else Numeral(n / base, base) + [DigitChar(n % base)]
  }

  /** The number a string of digits denotes, most significant digit first. */
  function Value(s: string, base: nat): nat
  {
    if s == "" then 0 else Value(s[..|s| - 1], base) * base + DigitOf(s[|s| - 1])
  }

  lemma ValueSnoc(s: string, c: char, base: nat)
    ensures Value(s + [c], base) == Value(s, base) * base + DigitOf(c)
  {
    assert (s + [c])[..|s|] == s;
  }

  lemma {:induction false} NumeralValue(n: nat, base: nat)
    requires base == 10 || base == 16
    ensures Value(Numeral(n, base), base) == n
    decreases n
  {
    if n >= base {
      var front, d := Numeral(n / base, base), n % base;
      NumeralValue(n / base, base);
      ValueSnoc(front, DigitChar(d), base);
      assert n / base * base + d == n by {
        if base == 10 {} else {}
      }
    } else {
      ValueSnoc("", DigitChar(n), base);
      assert "" + [DigitChar(n)] == [DigitChar(n)];
    }
  }

  /** No number is written with a leading zero, save zero itself. */
  lemma {:induction false} NumeralCanonical(n: nat, base: nat)
    requires base == 10 || base == 16
    ensures n == 0 ==> Numeral(n, base) == "0"
    ensures n > 0 ==> Numeral(n, base)[0] != '0'
    decreases n
  {
    if n >= base {
      NumeralCanonical(n / base, base);
      assert n / base > 0 by {
        if base == 10 {} else {}
      }
    }
  }

  /** How many digits `s` starts with. */
  function DigitRun(s: string, base: nat): (n: nat)
    ensures n <= |s|
    ensures forall i :: 0 <= i < n ==> IsDigit(s[i], base)
    ensures n < |s| ==> !IsDigit(s[n], base)
  {
    if s == "" || !IsDigit(s[0], base) then 0 else 1 + DigitRun(s[1..], base)
  }

  lemma DigitRunIs(digits: string, rest: string, base: nat)
    requires AllDigits(digits, base)
    requires rest == "" || !IsDigit(rest[0], base)
    ensures DigitRun(digits + rest, base) == |digits|
  {
    var s, n := digits + rest, DigitRun(digits + rest, base);
    assert forall i :: 0 <= i < |digits| ==> s[i] == digits[i];
    assert rest != "" ==> s[|digits|] == rest[0];
  }

  function Dec(n: nat): (s: string)
    ensures |s| > 0 && AllDigits(s, 10)
  {
    Numeral(n, 10)
  }

  /** "%d" and "%lld": a sign only when negative. */
  function SignedDec(n: int): string {
    if n < 0 then "-" + Dec(-n) else Dec(n)
  }

  /** "0x%llx". */
  function Hex(n: nat): string {
    "0x" + Numeral(n, 16)
  }

  /** The value of a 64-bit pattern read as a signed two's complement number. */
  function Int64(v: u64): (r: int)
    ensures -TWO63 <= r < TWO63 && r % TWO64 == v
  {
    if v < TWO63 then v else v - TWO64
  }

  /** `(int32_t)v`: the low 32 bits read as a signed number. */
  function Int32(v: u64): (r: int)
    ensures -TWO31 <= r < TWO31 && r % TWO32 == v % TWO32
  {
    var low := v % TWO32;
    if low < TWO31 then low else low - TWO32
  }

  /** Reads a printed number back: hexadecimal after "0x", else signed decimal. */
  function ReadNumber(s: string): int {
    if |s| > 2 && s[..2] == "0x" then Value(s[2..], 16)
    else if |s| > 1 && s[0] == '-' then 0 - Value(s[1..], 10)
    else Value(s, 10)
  }

  lemma ReadNumberHex(n: nat)
    ensures ReadNumber(Hex(n)) == n
  {
    NumeralValue(n, 16);
    assert Hex(n)[2..] == Numeral(n, 16);
  }

  lemma ReadNumberSigned(n: int)
    ensures ReadNumber(SignedDec(n)) == n
  {
    var digits := Numeral(if n < 0 then -n else n, 10);
    NumeralValue(if n < 0 then -n else n, 10);
    if n < 0 {
      assert SignedDec(n)[1..] == digits && SignedDec(n)[..2][0] == '-';
    } else {
      assert IsDigit(digits[0], 10) && |digits| > 2 ==> digits[..2][1] == digits[1] && IsDigit(digits[1], 10);
    }
  }
}

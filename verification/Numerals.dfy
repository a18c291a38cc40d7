/**
 Numerals as text: fixed-width numerals in base ten or sixteen, and signed decimals of any length.
 Each is read back to the number it was written for, and leaves the text that follows it.
 */
module Numerals {
  import opened Wrappers

  const DIGITS := "0123456789abcdef"

  type Base = b: int | b == 10 || b == 16 witness 10

  // Products and quotients by a base, with the two bases told apart to keep them linear.
  function Times(n: nat, base: Base): nat { if base == 10 then n * 10 else n * 16 }

  function Quotient(n: nat, base: Base): nat { if base == 10 then n / 10 else n / 16 }

  function LastDigit(n: nat, base: Base): nat { if base == 10 then n % 10 else n % 16 }

  function Digit(d: nat): char
    requires d < 16
  {
    DIGITS[d]
  }

  /** The value of a digit; upper-case letters are accepted too. */
  function DigitValue(c: char): Option<nat> {
    if '0' <= c <= '9' then Some(c as int - '0' as int)
    else if 'a' <= c <= 'f' then Some(c as int - 'a' as int + 10)
    else if 'A' <= c <= 'F' then Some(c as int - 'A' as int + 10)
    else None
  }

  predicate IsDigit(c: char, base: Base) {
    DigitValue(c).Some? && DigitValue(c).value < base
  }

  lemma DigitRoundTrip(d: nat)
    requires d < 16
    ensures DigitValue(Digit(d)) == Some(d)
  {
    assert DIGITS == ['0', '1', '2', '3', '4', '5', '6', '7', '8', '9', 'a', 'b', 'c', 'd', 'e', 'f'];
  }

  function Power(base: Base, w: nat): (p: nat)
    ensures p > 0
  {
    if w == 0 then 1 else Times(Power(base, w - 1), base)
  }

  // ---- Fixed width -----------------------------------------------------------------------

  /** The last w digits of n, padded with zeros. */
  function Fixed(n: nat, w: nat, base: Base): (s: string)
    ensures |s| == w
  {
    if w == 0 then "" else Fixed(Quotient(n, base), w - 1, base) + [Digit(LastDigit(n, base))]
  }

  /** The number a text of digits stands for. */
  function ParseFixed(s: string, base: Base): Option<nat> {
    if s == "" then Some(0)
    else
      var front := ParseFixed(s[..|s| - 1], base);
      if front.None? || !IsDigit(s[|s| - 1], base) then None
      else Some(Times(front.value, base) + DigitValue(s[|s| - 1]).value)
  }

  lemma ParseSnoc(s: string, c: char, base: Base)
    requires ParseFixed(s, base).Some? && IsDigit(c, base)
    ensures ParseFixed(s + [c], base) == Some(Times(ParseFixed(s, base).value, base) + DigitValue(c).value)
  {
    assert (s + [c])[..|s|] == s;
  }

  lemma {:induction false} FixedRoundTrip(n: nat, w: nat, base: Base)
    requires n < Power(base, w)
    ensures ParseFixed(Fixed(n, w, base), base) == Some(n)
  {
    if w > 0 {
      var front, d := Fixed(Quotient(n, base), w - 1, base), LastDigit(n, base);
      FixedRoundTrip(Quotient(n, base), w - 1, base);
      DigitRoundTrip(d);
      ParseSnoc(front, Digit(d), base);
    }
  }

  lemma {:induction false} FixedDigits(n: nat, w: nat, base: Base)
    ensures forall c :: c in Fixed(n, w, base) ==> IsDigit(c, base)
  {
    if w > 0 {
      FixedDigits(Quotient(n, base), w - 1, base);
      DigitRoundTrip(LastDigit(n, base));
    }
  }

  // ---- Digit by digit -----------------------------------------------------------------------

  /** The number that digits stand for, the most significant first. */
  function ValueOf(digits: seq<nat>, base: Base): nat {
    if digits == [] then 0 else Times(ValueOf(digits[..|digits| - 1], base), base) + digits[|digits| - 1]
  }

  /** A number is written with its own digits. */
  lemma {:induction false} FixedIsDigits(digits: seq<nat>, base: Base)
    requires forall i :: 0 <= i < |digits| ==> digits[i] < base
    ensures |Fixed(ValueOf(digits, base), |digits|, base)| == |digits|
    ensures forall i :: 0 <= i < |digits| ==> Fixed(ValueOf(digits, base), |digits|, base)[i] == Digit(digits[i])
  {
    if digits != [] {
      var front := digits[..|digits| - 1];
      FixedIsDigits(front, base);
      assert Quotient(ValueOf(digits, base), base) == ValueOf(front, base);
      assert LastDigit(ValueOf(digits, base), base) == digits[|digits| - 1];
    }
  }

  /** Digits are those of ASCII, above nine the lower-case letters. */
  lemma DigitIs(d: nat)
    requires d < 16
    ensures Digit(d) as int == if d < 10 then '0' as int + d else 'a' as int + (d - 10)
  {
    assert DIGITS == ['0', '1', '2', '3', '4', '5', '6', '7', '8', '9', 'a', 'b', 'c', 'd', 'e', 'f'];
  }

  /** Read are those digits, and the upper-case letters with the values of the lower-case ones. */
  lemma DigitRead(c: char, d: nat)
    requires d < 16
    ensures DigitValue(c) == Some(d) <==> c == Digit(d) || (d >= 10 && c as int == 'A' as int + (d - 10))
    ensures IsDigit(c, 16) <==> c in "0123456789abcdefABCDEF"
    ensures IsDigit(c, 10) <==> '0' <= c <= '9'
  {
    DigitIs(d);
  }

  // ---- Decimals of any length ------------------------------------------------------------

  function Decimal(n: nat): (s: string)
    ensures s != ""
  {
    if n < 10 then [Digit(n)] else Decimal(n / 10) + [Digit(n % 10)]
  }

  /** Reads digits as far as they go, on top of what was read before. */
  function ParseDecimal(before: nat, text: string): (nat, string)
    decreases |text|
  {
    if text != "" && IsDigit(text[0], 10) then ParseDecimal(before * 10 + DigitValue(text[0]).value, text[1..])
    else (before, text)
  }

  /** What follows a numeral does not continue it. */
  predicate EndsNumeral(rest: string) { rest == "" || !IsDigit(rest[0], 10) }

  lemma ParseStep(before: nat, c: char, rest: string)
    requires IsDigit(c, 10)
    ensures ParseDecimal(before, [c] + rest) == ParseDecimal(before * 10 + DigitValue(c).value, rest)
  {
    assert ([c] + rest)[1..] == rest;
  }

  lemma DecimalSnoc(n: nat, rest: string)
    requires n >= 10
    ensures Decimal(n) + rest == Decimal(n / 10) + ([Digit(n % 10)] + rest)
  {
  }

  lemma {:induction false} DecimalPrefix(n: nat, rest: string)
    ensures ParseDecimal(0, Decimal(n) + rest) == ParseDecimal(n, rest)
    ensures IsDigit((Decimal(n) + rest)[0], 10)
    decreases n
  {
    DigitRoundTrip(n % 10);
    if n < 10 {
      ParseStep(0, Digit(n), rest);
    } else {
      var last := Digit(n % 10);
      DecimalSnoc(n, rest);
      DecimalPrefix(n / 10, [last] + rest);
      ParseStep(n / 10, last, rest);
      assert n / 10 * 10 + n % 10 == n;
    }
  }

  /** A decimal is read back whole, and what follows it is left. */
  lemma DecimalRoundTrip(n: nat, rest: string)
    requires EndsNumeral(rest)
    ensures ParseDecimal(0, Decimal(n) + rest) == (n, rest)
  {
    DecimalPrefix(n, rest);
  }
}

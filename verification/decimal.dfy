/** Decimal digit strings: Python's `str` of an integer, the zero-padded
    fields of a `%Y-%m-%d` date, and the parsers that invert them. */
module Decimal {
  import opened Wrappers

  predicate IsDigit(c: char) {
    '0' <= c <= '9'
  }

  predicate AllDigits(s: string) {
    forall i :: 0 <= i < |s| ==> IsDigit(s[i])
  }

  function Digit(n: int): (c: char)
    requires 0 <= n <= 9
    ensures IsDigit(c)
  {
    "0123456789"[n]
  }

  function DigitValue(c: char): (n: nat)
    requires IsDigit(c)
    ensures n <= 9
  {
    (c as int) - ('0' as int)
  }

  lemma DigitValueOfDigit(n: int)
    requires 0 <= n <= 9
    ensures DigitValue(Digit(n)) == n
  {
  }

  /** The number a string of decimal digits denotes (most significant first). */
  function Value(s: string): nat
    requires AllDigits(s)
  {
    if |s| == 0 then 0 else 10 * Value(s[..|s| - 1]) + DigitValue(s[|s| - 1])
  }

  function Pow10(w: nat): (p: nat)
    ensures p >= 1
  {
    if w == 0 then 1 else 10 * Pow10(w - 1)
  }

  /** `n` written in exactly `w` digits, with leading zeros (C's `%0*d`). */
  function Padded(n: nat, w: nat): (s: string)
    requires n < Pow10(w)
    ensures |s| == w && AllDigits(s)
    ensures Value(s) == n
  {
    if w == 0 then ""
    else
      var s := Padded(n / 10, w - 1) + [Digit(n % 10)];
      assert s[..|s| - 1] == Padded(n / 10, w - 1);
      DigitValueOfDigit(n % 10);
      s
  }

  /** The shortest decimal spelling of a natural number. */
  function Natural(n: nat): (s: string)
    ensures 1 <= |s| && AllDigits(s)
    ensures Value(s) == n
    ensures |s| > 1 ==> s[0] != '0'
  {
    if n < 10 then
      DigitValueOfDigit(n);
      [Digit(n)]
    else
      var s := Natural(n / 10) + [Digit(n % 10)];
      assert s[..|s| - 1] == Natural(n / 10);
      DigitValueOfDigit(n % 10);
      s
  }

  /** Python's `str(n)` for an `int` `n`: a minus sign for negatives, then the digits. */
  function DecimalString(n: int): string {
    if n < 0 then "-" + Natural(-n) else Natural(n)
  }

  /** Python's `int(s)` restricted to an optional minus sign followed by digits. */
  function ParseDecimal(s: string): Option<int> {
    if 1 < |s| && s[0] == '-' && AllDigits(s[1..]) then Some(-(Value(s[1..]) as int))
    else if 0 < |s| && AllDigits(s) then Some(Value(s) as int)
    else None
  }

  /** Parsing undoes `str`: every integer is recovered from its decimal string. */
  lemma ParseDecimalString(n: int)
    ensures ParseDecimal(DecimalString(n)) == Some(n)
  {
    if n < 0 {
      var s := DecimalString(n);
      assert s[1..] == Natural(-n);
    } else {
      assert DecimalString(n)[0] != '-';
    }
  }

  /** Distinct integers have distinct decimal strings. */
  lemma DecimalStringInjective(a: int, b: int)
    requires DecimalString(a) == DecimalString(b)
    ensures a == b
  {
    ParseDecimalString(a);
    ParseDecimalString(b);
  }
}

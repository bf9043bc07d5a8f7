/**
 * Decimal rendering of integers, as Python's formatting does it: `str(n)` for an
 * int, and the zero-padded fixed-width form that `date.isoformat()` uses for the
 * year (`%04d`), month and day (`%02d`). `Value` reads a digit string back and is
 * the inverse both renderings are proved against.
 */
module Decimal {

  function Pow10(n: nat): (r: nat)
    ensures r >= 1
  {
    if n == 0 then 1 else 10 * Pow10(n - 1)
  }

  predicate IsDigit(c: char) {
    '0' <= c <= '9'
  }

  predicate AllDigits(s: string) {
    forall i :: 0 <= i < |s| ==> IsDigit(s[i])
  }

  function DigitChar(d: nat): (c: char)
    requires d < 10
    ensures IsDigit(c)
  {
    ('0' as int + d) as char
  }

  function DigitValue(c: char): (d: nat)
    requires IsDigit(c)
    ensures d < 10
    ensures DigitChar(d) == c
  {
    c as int - '0' as int
  }

  /** The number a string of decimal digits denotes (most significant digit first). */
  function Value(s: string): (n: nat)
    requires AllDigits(s)
    ensures n < Pow10(|s|)
  {
    if s == [] then 0 else 10 * Value(s[..|s| - 1]) + DigitValue(s[|s| - 1])
  }

  lemma {:induction false} DivBound(n: nat, width: nat)
    requires width > 0 && n < Pow10(width)
    ensures n / 10 < Pow10(width - 1)
  {
    assert Pow10(width) == 10 * Pow10(width - 1);
  }

  /** `n` written in exactly `width` digits, with leading zeros. */
  function Padded(n: nat, width: nat): (s: string)
    requires n < Pow10(width)
    ensures |s| == width && AllDigits(s)
  {
    if width == 0 then ""
    else
      DivBound(n, width);
      Padded(n / 10, width - 1) + [DigitChar(n % 10)]
  }

  /** Reading a zero-padded rendering back gives the number that was rendered. */
  lemma {:induction false} ValuePadded(n: nat, width: nat)
    requires n < Pow10(width)
    ensures Value(Padded(n, width)) == n
  {
    if width > 0 {
      DivBound(n, width);
      var s := Padded(n, width);
      assert s[..|s| - 1] == Padded(n / 10, width - 1);
      ValuePadded(n / 10, width - 1);
    }
  }

  /** `str(n)` for a natural number: shortest decimal form, no leading zero. */
  function NatToString(n: nat): (s: string)
    ensures |s| >= 1 && AllDigits(s)
    ensures (s[0] == '0') == (n == 0)
    ensures n == 0 ==> s == "0"
  {
    if n < 10 then [DigitChar(n)] else NatToString(n / 10) + [DigitChar(n % 10)]
  }

  lemma {:induction false} ValueNatToString(n: nat)
    ensures Value(NatToString(n)) == n
  {
    if n >= 10 {
      var s := NatToString(n);
      assert s[..|s| - 1] == NatToString(n / 10);
      ValueNatToString(n / 10);
    }
  }

  /** `str(i)` for a Python int: a minus sign before the digits of a negative number. */
  function IntToString(i: int): (s: string)
    ensures |s| >= 1
    ensures i >= 0 ==> AllDigits(s) && Value(s) == i
    ensures i < 0 ==> s[0] == '-' && AllDigits(s[1..]) && Value(s[1..]) == -i
    ensures i >= 0 ==> (s[0] == '0' <==> i == 0)
    ensures i < 0 ==> |s| >= 2 && s[1] != '0'
    ensures i == 0 ==> s == "0"
  {
    if i < 0 then
      ValueNatToString(-i);
      assert ("-" + NatToString(-i))[1..] == NatToString(-i);
      "-" + NatToString(-i)
    else
      ValueNatToString(i);
      NatToString(i)
  }

}

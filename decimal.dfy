/**
 * Decimal text and numbers, as the two entry points use them: `parseInt(s, 10)` on digit strings,
 * the template-literal conversion `${n}` of an integer, and `x.toFixed(1)` of a PHP version
 * counted in tenths.
 */
module Decimal {
  import opened Wrappers

  predicate IsDigit(c: char) {
    '0' <= c <= '9'
  }

  predicate AllDigits(s: string) {
    forall i :: 0 <= i < |s| ==> IsDigit(s[i])
  }

  function DigitValue(c: char): (d: nat)
    requires IsDigit(c)
    ensures d < 10
  {
    c as int - '0' as int
  }

  function DigitChar(d: nat): (c: char)
    requires d < 10
    ensures IsDigit(c) && DigitValue(c) == d
  {
    ('0' as int + d) as char
  }

  /** `parseInt(s, 10)` for a string made only of decimal digits; 0 for the empty string, which the source never passes. */
  function DigitsValue(s: string): nat
    requires AllDigits(s)
    decreases |s|
  {
    if s == [] then 0 else 10 * DigitsValue(s[..|s| - 1]) + DigitValue(s[|s| - 1])
  }

  /** The decimal text of a non-negative integer, without leading zeros. */
  function NatToString(n: nat): (s: string)
    ensures |s| >= 1 && AllDigits(s)
    ensures s[0] == '0' ==> n == 0
    decreases n
  {
    if n < 10 then [DigitChar(n)] else NatToString(n / 10) + [DigitChar(n % 10)]
  }

  lemma {:induction false} NatToStringRoundTrip(n: nat)
    ensures DigitsValue(NatToString(n)) == n
    decreases n
  {
    if n >= 10 {
      NatToStringRoundTrip(n / 10);
      var s := NatToString(n);
      assert s[..|s| - 1] == NatToString(n / 10);
    }
  }

  /** The text `${n}` of an integer in a template literal. */
  function IntToString(n: int): (s: string)
    ensures |s| >= 1
  {
    if n < 0 then "-" + NatToString(-n) else NatToString(n)
  }

  /** Reads back a canonical integer text: an optional minus sign and at least one digit. */
  function ParseInt(s: string): Option<int>
  {
    if |s| >= 2 && s[0] == '-' && AllDigits(s[1..]) then Some(-(DigitsValue(s[1..]) as int))
    else if |s| >= 1 && AllDigits(s) then Some(DigitsValue(s))
    else None
  }

  lemma IntToStringRoundTrip(n: int)
    ensures ParseInt(IntToString(n)) == Some(n)
  {
    var s := IntToString(n);
    if n < 0 {
      assert s[1..] == NatToString(-n);
      NatToStringRoundTrip(-n);
    } else {
      assert IsDigit(s[0]);
      NatToStringRoundTrip(n);
    }
  }

  lemma IntToStringInjective(a: int, b: int)
    requires IntToString(a) == IntToString(b)
    ensures a == b
  {
    IntToStringRoundTrip(a);
    IntToStringRoundTrip(b);
  }

  /** `(t / 10).toFixed(1)` for a version counted in tenths: whole part, a dot, one decimal. */
  function FormatTenths(t: nat): (s: string)
    ensures |s| >= 3 && s[|s| - 2] == '.' && AllDigits(s[..|s| - 2]) && IsDigit(s[|s| - 1])
  {
    NatToString(t / 10) + "." + [DigitChar(t % 10)]
  }

  /** Reads back a one-decimal version text as tenths. */
  function ParseTenths(s: string): Option<nat>
  {
    if |s| >= 3 && s[|s| - 2] == '.' && AllDigits(s[..|s| - 2]) && IsDigit(s[|s| - 1])
    then Some(10 * DigitsValue(s[..|s| - 2]) + DigitValue(s[|s| - 1]))
    else None
  }

  lemma FormatTenthsRoundTrip(t: nat)
    ensures ParseTenths(FormatTenths(t)) == Some(t)
  {
    var s := FormatTenths(t);
    assert s[..|s| - 2] == NatToString(t / 10);
    NatToStringRoundTrip(t / 10);
  }

  lemma FormatTenthsInjective(a: nat, b: nat)
    requires FormatTenths(a) == FormatTenths(b)
    ensures a == b
  {
    FormatTenthsRoundTrip(a);
    FormatTenthsRoundTrip(b);
  }
}

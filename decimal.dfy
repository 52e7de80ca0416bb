/**
 * Decimal rendering of integers, as JavaScript's template strings and
 * `toString` print integers below 10^21 in magnitude (larger ones switch to
 * exponent notation, which this module does not produce), together with the
 * parser that inverts it.
 */
module Decimal {

  predicate IsDigit(c: char) {
    '0' <= c <= '9'
  }

  predicate AllDigits(s: string) {
    forall k :: 0 <= k < |s| ==> IsDigit(s[k])
  }

  function DigitChar(d: nat): (c: char)
    requires d < 10
    ensures IsDigit(c) && DigitValue(c) == d
  {
    ('0' as int + d) as char
  }

  function DigitValue(c: char): nat
    requires IsDigit(c)
  {
    (c as int - '0' as int) as nat
  }

  /** The decimal digits of `n`, most significant first, without leading zeros. */
  function NatToString(n: nat): (s: string)
    ensures |s| >= 1 && AllDigits(s)
    ensures |s| > 1 ==> s[0] != '0'
  {
    if n < 10 then [DigitChar(n)] else NatToString(n / 10) + [DigitChar(n % 10)]
  }

  /** `String(i)` for an integer `i`: a minus sign before the digits of a negative value. */
  function IntToString(i: int): (s: string)
    ensures |s| >= 1 && IsDigit(s[|s| - 1])
    ensures AllDigits(s) <==> i >= 0
  {
    if i < 0 then
      var s := "-" + NatToString(-i);
      assert !IsDigit(s[0]);
      s
    else NatToString(i)
  }

  /** The value of a string of decimal digits (the empty string reads as 0). */
  function ParseNat(s: string): nat
    requires AllDigits(s)
  {
    if s == [] then 0 else 10 * ParseNat(s[..|s| - 1]) + DigitValue(s[|s| - 1])
  }

  /** The value of an optional minus sign followed by decimal digits. */
  function ParseInt(s: string): int
    requires AllDigits(s) || (|s| >= 1 && s[0] == '-' && AllDigits(s[1..]))
  {
    if |s| >= 1 && s[0] == '-' then -(ParseNat(s[1..]) as int) else ParseNat(s)
  }

  lemma {:induction false} ParseNatToString(n: nat)
    ensures ParseNat(NatToString(n)) == n
  {
    var s := NatToString(n);
    if n >= 10 {
      assert s[..|s| - 1] == NatToString(n / 10);
      ParseNatToString(n / 10);
    }
  }

  /** A non-negative integer prints as its digits alone. */
  lemma IntToStringOfNat(n: nat)
    ensures IntToString(n) == NatToString(n)
  {
  }

  lemma ParseIntToString(i: int)
    ensures AllDigits(IntToString(i)) || (IntToString(i)[0] == '-' && AllDigits(IntToString(i)[1..]))
    ensures ParseInt(IntToString(i)) == i
  {
    var s := IntToString(i);
    if i < 0 {
      assert s[1..] == NatToString(-i);
      ParseNatToString(-i);
    } else {
      ParseNatToString(i);
    }
  }

  /** Printing is injective: distinct integers print differently. */
  lemma IntToStringInjective(i: int, j: int)
    ensures IntToString(i) == IntToString(j) <==> i == j
  {
    ParseIntToString(i);
    ParseIntToString(j);
  }
}

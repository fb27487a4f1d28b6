/** Decimal text of integers: the rendering Go uses for `%d` and for JSON
    numbers of integer type, and the integer grammar of RFC 8259 section 6
    (an optional minus sign, then `0` or a non-zero digit followed by
    digits) that reads such text back. */
module Decimal {
  import opened Common

  predicate IsDigit(c: char) {
    '0' <= c <= '9'
  }

  predicate AllDigits(s: string) {
    forall i :: 0 <= i < |s| ==> IsDigit(s[i])
  }

  function DigitChar(d: nat): (c: char)
    requires d < 10
    ensures IsDigit(c)
  {
    ['0', '1', '2', '3', '4', '5', '6', '7', '8', '9'][d]
  }

  function DigitValue(c: char): (d: nat)
    requires IsDigit(c)
    ensures d < 10
  {
    (c as int - '0' as int) as nat
  }

  lemma DigitCharValue(d: nat)
    requires d < 10
    ensures DigitValue(DigitChar(d)) == d
  {
  }

  /** The value of a string of decimal digits, most significant first. */
  function DigitsValue(s: string): nat
    requires AllDigits(s)
  {
    if |s| == 0 then 0 else DigitsValue(s[..|s| - 1]) * 10 + DigitValue(s[|s| - 1])
  }

  /** The shortest decimal text of a natural number. */
  function NatDigits(n: nat): (s: string)
    ensures |s| >= 1 && AllDigits(s)
    ensures |s| > 1 ==> s[0] != '0'
    decreases n
  {
    if n < 10 then [DigitChar(n)] else NatDigits(n / 10) + [DigitChar(n % 10)]
  }

  /** Go's decimal rendering of a signed integer. */
  function FormatInt(x: int): (s: string)
    ensures |s| >= 1
    ensures x < 0 <==> s[0] == '-'
  {
    if x < 0 then "-" + NatDigits(-x) else NatDigits(x)
  }

  /** Reads a natural number in the integer grammar: `0`, or a non-zero
      digit followed by digits. Anything else is rejected. */
  function ParseNat(s: string): Option<nat>
  {
    if |s| == 0 || !AllDigits(s) || (|s| > 1 && s[0] == '0') then None
    else Some(DigitsValue(s))
  }

  /** Reads an optionally negative integer in the integer grammar. Like Go's
      `strconv.ParseInt`, `-0` is accepted and denotes zero. */
  function ParseInt(s: string): Option<int>
  {
    if |s| >= 1 && s[0] == '-' then
      match ParseNat(s[1..])
      case Some(n) => Some(0 - n as int)
      case None => None
    else
      match ParseNat(s)
      case Some(n) => Some(n)
      case None => None
  }

  lemma {:induction false} NatDigitsValue(n: nat)
    ensures DigitsValue(NatDigits(n)) == n
    decreases n
  {
    var s := NatDigits(n);
    if n < 10 {
      DigitCharValue(n);
    } else {
      NatDigitsValue(n / 10);
      assert s[..|s| - 1] == NatDigits(n / 10);
      DigitCharValue(n % 10);
    }
  }

  lemma ParseNatDigits(n: nat)
    ensures ParseNat(NatDigits(n)) == Some(n)
  {
    NatDigitsValue(n);
  }

  lemma ParseNegative(n: nat)
    ensures ParseInt("-" + NatDigits(n)) == Some(0 - n)
  {
    var d := NatDigits(n);
    var s := "-" + d;
    assert s[1..] == d;
    ParseNatDigits(n);
  }

  lemma FormatNonNegativeRoundTrip(x: int)
    requires x >= 0
    ensures ParseInt(FormatInt(x)) == Some(x)
  {
    ParseNatDigits(x);
    assert IsDigit(NatDigits(x)[0]);
  }

  lemma NegativeRoundTrip(x: int)
    requires x < 0
    ensures ParseInt(FormatInt(x)) == Some(x)
  {
    var n: nat := -x;
    assert FormatInt(x) == "-" + NatDigits(n);
    ParseNegative(n);
  }

  /** Reading back the rendering of any integer yields that integer. */
  lemma FormatIntRoundTrip(x: int)
    ensures ParseInt(FormatInt(x)) == Some(x)
  {
    if x < 0 {
      NegativeRoundTrip(x);
    } else {
      FormatNonNegativeRoundTrip(x);
    }
  }
}

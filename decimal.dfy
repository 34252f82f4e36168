/**
  Decimal text of natural numbers, as Rust's `{}` and `{:02}` format
  specifiers produce it for unsigned and non-negative integers, and its
  reading back.
 */
module Decimal {

  predicate IsDigit(c: char) {
    '0' <= c <= '9'
  }

  predicate AllDigits(s: string) {
    forall i :: 0 <= i < |s| ==> IsDigit(s[i])
  }

  function DigitChar(d: nat): (c: char)
    requires d < 10
    ensures IsDigit(c)
  {
    ('0' as int + d) as char
  }

  function DigitValue(c: char): (d: nat)
    requires IsDigit(c)
    ensures d < 10
  {
    c as int - '0' as int
  }

  /** The shortest decimal text of `n`: `{}` applied to an unsigned integer. */
  function NatToDecimal(n: nat): (s: string)
    ensures |s| >= 1 && AllDigits(s)
    ensures |s| == 1 <==> n < 10
    ensures s[0] == '0' <==> n == 0
    decreases n
  {
    if n < 10 then [DigitChar(n)] else NatToDecimal(n / 10) + [DigitChar(n % 10)]
  }

  /** The number a string of digits denotes; leading zeros are allowed. */
  function DecimalValue(s: string): nat
    requires AllDigits(s)
  {
    if s == [] then 0 else DecimalValue(s[..|s| - 1]) * 10 + DigitValue(s[|s| - 1])
  }

  lemma {:induction false} DecimalRoundTrip(n: nat)
    ensures DecimalValue(NatToDecimal(n)) == n
    decreases n
  {
    if n >= 10 {
      var s := NatToDecimal(n);
      assert s[..|s| - 1] == NatToDecimal(n / 10);
      DecimalRoundTrip(n / 10);
    }
  }

  lemma {:induction false} LeadingZero(s: string)
    requires AllDigits(s)
    ensures AllDigits("0" + s) && DecimalValue("0" + s) == DecimalValue(s)
    decreases |s|
  {
    if s != [] {
      assert ("0" + s)[..|s|] == "0" + s[..|s| - 1];
      LeadingZero(s[..|s| - 1]);
    }
  }

  /** `{:02}` applied to a non-negative integer: at least two digits, zero-filled on the left. */
  function ZeroPad2(n: nat): (s: string)
    ensures |s| >= 2 && AllDigits(s)
    ensures DecimalValue(s) == n
    ensures n < 100 ==> |s| == 2
    ensures n < 10 ==> s == "0" + NatToDecimal(n)
    ensures n >= 10 ==> s == NatToDecimal(n)
  {
    var d := NatToDecimal(n);
    DecimalRoundTrip(n);
    if |d| < 2 then LeadingZero(d); "0" + d
    else
      assert n < 100 ==> |NatToDecimal(n / 10)| == 1;
      d
  }
}

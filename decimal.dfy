/** Decimal digit strings: `n.toString()` in script.js and `str(n)` / `{n:02d}` in
    digital_clock.py, restricted to non-negative integers. */
module Decimal {

  predicate IsDigit(c: char) {
    '0' <= c <= '9'
  }

  predicate AllDigits(s: string) {
    forall k :: 0 <= k < |s| ==> IsDigit(s[k])
  }

  function Digit(d: nat): (c: char)
    requires d < 10
    ensures IsDigit(c) && DigitValue(c) == d
  {
    ('0' as int + d) as char
  }

  function DigitValue(c: char): nat
    requires IsDigit(c)
  {
    c as int - '0' as int
  }

  /** The shortest decimal spelling of `n`, most significant digit first. */
  function DecimalString(n: nat): (r: string)
    ensures 1 <= |r| && AllDigits(r)
    ensures n < 10 <==> |r| == 1
    ensures 10 <= n < 100 ==> |r| == 2
    ensures |r| > 1 ==> r[0] != '0'
    decreases n
  {
    if n < 10 then [Digit(n)] else DecimalString(n / 10) + [Digit(n % 10)]
  }

  /** The number a string of digits spells, leading zeros allowed. */
  function DecimalValue(s: string): nat
    requires AllDigits(s)
    decreases |s|
  {
    if s == [] then 0 else DecimalValue(s[..|s| - 1]) * 10 + DigitValue(s[|s| - 1])
  }

  /** Reading back a decimal spelling gives the number that was spelled. */
  lemma {:induction false} DecimalRoundTrip(n: nat)
    ensures DecimalValue(DecimalString(n)) == n
    decreases n
  {
    if n >= 10 {
      DecimalRoundTrip(n / 10);
      var s := DecimalString(n);
      assert s[..|s| - 1] == DecimalString(n / 10);
    }
  }

  /** `padStart(2, '0')` on `n.toString()`, and Python's `{n:02d}` for `n >= 0`:
      at least two digits, with one leading zero added only below ten. */
  function Pad2(n: nat): (r: string)
    ensures 2 <= |r| && AllDigits(r)
    ensures DecimalValue(r) == n
    ensures n < 100 <==> |r| == 2
    ensures n < 10 <==> r[0] == '0'
  {
    DecimalRoundTrip(n);
    var d := DecimalString(n);
    if |d| < 2 then
      var r := "0" + d;
      assert r[..1] == "0";
      r
    else
      d
  }

  /** Below one hundred, the padded spelling is exactly the tens digit then the units digit. */
  lemma Pad2Digits(n: nat)
    requires n < 100
    ensures Pad2(n) == [Digit(n / 10), Digit(n % 10)]
  {
    if n >= 10 {
      assert DecimalString(n) == DecimalString(n / 10) + [Digit(n % 10)];
    }
  }
}

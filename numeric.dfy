/** Machine integers and the two numeric conversions the program relies on:
    the C++ conversion of a floating value to an integer type, and the
    decimal text that an output stream writes for an unsigned integer. */
module Numeric {

  /** The values of `unsigned int` / `uint32_t`. */
  type Uint32 = x: int | 0 <= x < 0x1_0000_0000

  /** C++ floating-to-integer conversion: the fractional part is discarded,
      i.e. the value is truncated toward zero (not floored). */
  function TruncateTowardZero(r: real): (n: int)
    ensures 0.0 <= r ==> 0 <= n && n as real <= r < n as real + 1.0
    ensures r < 0.0 ==> n <= 0 && n as real - 1.0 < r <= n as real
  {
    if r >= 0.0 then r.Floor else -((-r).Floor)
  }

  /** Truncation is odd: it commutes with negation, which flooring does not. */
  lemma TruncateIsOdd(r: real)
    ensures TruncateTowardZero(-r) == -TruncateTowardZero(r)
  {
  }

  /** An integral value converts to itself. */
  lemma TruncateOfIntegral(n: int)
    ensures TruncateTowardZero(n as real) == n
  {
  }

  predicate IsDigit(c: char) {
    '0' <= c <= '9'
  }

  predicate AllDigits(s: string) {
    forall i :: 0 <= i < |s| ==> IsDigit(s[i])
  }

  function DigitChar(d: nat): (c: char)
    requires d < 10
    ensures IsDigit(c)
  {
    ('0' as int + d) as char
  }

  function DigitValue(c: char): (d: nat)
    requires IsDigit(c)
    ensures d < 10 && DigitChar(d) == c
  {
    c as int - '0' as int
  }

  /** The text `std::ostream << n` writes for an unsigned n: decimal digits,
      no sign and no leading zero (zero itself is written "0"). */
  function DecimalString(n: nat): (s: string)
    ensures |s| > 0 && AllDigits(s)
    ensures s[0] == '0' ==> n == 0 && s == "0"
    decreases n
  {
    if n < 10 then [DigitChar(n)] else DecimalString(n / 10) + [DigitChar(n % 10)]
  }

  /** The number a string of decimal digits denotes. */
  function DecimalValue(s: string): (n: nat)
    requires AllDigits(s)
  {
    if s == [] then 0 else DecimalValue(s[..|s| - 1]) * 10 + DigitValue(s[|s| - 1])
  }

  /** Reading back the written digits gives the number written. */
  lemma {:induction false} DecimalRoundTrip(n: nat)
    ensures DecimalValue(DecimalString(n)) == n
    decreases n
  {
    var s := DecimalString(n);
    if n >= 10 {
      var prefix := DecimalString(n / 10);
      assert s[..|s| - 1] == prefix;
      DecimalRoundTrip(n / 10);
    }
  }

  /** Distinct numbers are written as distinct texts. */
  lemma DecimalStringInjective(m: nat, n: nat)
    requires DecimalString(m) == DecimalString(n)
    ensures m == n
  {
    DecimalRoundTrip(m);
    DecimalRoundTrip(n);
  }
}

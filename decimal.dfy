/** Decimal text of Java ints: Integer.toString and Integer.parseInt, ASCII digits only. */
module Decimal {
  import opened Options

  const IntMin: int := -0x8000_0000
  const IntMax: int := 0x7fff_ffff

  predicate IsDigit(c: char) {
    '0' <= c <= '9'
  }

  predicate AllDigits(s: string) {
    forall i :: 0 <= i < |s| ==> IsDigit(s[i])
  }

  function DigitChar(d: int): (c: char)
    requires 0 <= d < 10
    ensures IsDigit(c)
  {
    ('0' as int + d) as char
  }

  function DigitValue(c: char): (d: int)
    requires IsDigit(c)
    ensures 0 <= d < 10
  {
    c as int - '0' as int
  }

  /** The digits of n, most significant first, without leading zeros. */
  function Digits(n: nat): (s: string)
    ensures |s| >= 1 && AllDigits(s)
    decreases n
  {
    if n < 10 then [DigitChar(n)] else Digits(n / 10) + [DigitChar(n % 10)]
  }

  /** The number a digit string denotes, read left to right. */
  function DigitsValue(s: string): nat
    requires AllDigits(s)
    decreases |s|
  {
    if s == [] then 0 else 10 * DigitsValue(s[..|s| - 1]) + DigitValue(s[|s| - 1])
  }

  /** Integer.toString: a minus sign before the digits of a negative number. */
  function IntToString(n: int): (s: string)
    ensures |s| >= 1 && ':' !in s
  {
    if n < 0 then "-" + Digits(-n) else Digits(n)
  }

  /** Integer.parseInt: an optional '+' or '-', then one or more digits, and
      the value must lie in the 32-bit range; anything else is a failure. */
  function ParseInt(s: string): Option<int> {
    if |s| == 0 then None
    else
      var body := if s[0] == '-' || s[0] == '+' then s[1..] else s;
      if |body| == 0 || !AllDigits(body) then None
      else
        var v: int := if s[0] == '-' then -(DigitsValue(body) as int) else DigitsValue(body);
        if IntMin <= v <= IntMax then Some(v) else None
  }

  lemma {:induction false} DigitsRoundTrip(n: nat)
    ensures DigitsValue(Digits(n)) == n
    decreases n
  {
    if n >= 10 {
      DigitsRoundTrip(n / 10);
      var s := Digits(n / 10) + [DigitChar(n % 10)];
      assert s[..|s| - 1] == Digits(n / 10);
    }
  }

  /** parseInt reads back what toString writes, for every 32-bit int. */
  lemma ParseIntToString(n: int)
    ensures IntMin <= n <= IntMax ==> ParseInt(IntToString(n)) == Some(n)
  {
    if IntMin <= n < 0 {
      ParseNegative(-n);
    } else if 0 <= n <= IntMax {
      ParseNonNegative(n);
    }
  }

  lemma ParseNonNegative(n: nat)
    requires n <= IntMax
    ensures ParseInt(Digits(n)) == Some(n)
  {
    DigitsRoundTrip(n);
    assert IsDigit(Digits(n)[0]);
  }

  lemma ParseNegative(n: nat)
    requires 0 < n <= -IntMin
    ensures ParseInt("-" + Digits(n)) == Some(-(n as int))
  {
    DigitsRoundTrip(n);
    var s := "-" + Digits(n);
    assert s[0] == '-' && s[1..] == Digits(n);
  }
}

/** Decimal text of numbers, as Rust's `to_string` and `parse` give it. */
module Numerals {
  import opened Collections

  predicate IsDigit(c: char) {
    '0' <= c <= '9'
  }

  predicate AllDigits(s: string) {
    forall i :: 0 <= i < |s| ==> IsDigit(s[i])
  }

  function DigitChar(d: nat): (c: char)
    requires d < 10
    ensures IsDigit(c) && c as int == '0' as int + d
  {
    ('0' as int + d) as char
  }

  function DigitValue(c: char): (d: nat)
    requires IsDigit(c)
    ensures d < 10
  {
    c as int - '0' as int
  }

  function Digits(n: nat): (s: string)
    ensures s != [] && AllDigits(s)
  {
    if n < 10 then [DigitChar(n)] else Digits(n / 10) + [DigitChar(n % 10)]
  }

  function DigitsValue(s: string): nat
    requires AllDigits(s)
  {
    if s == [] then 0 else 10 * DigitsValue(s[..|s| - 1]) + DigitValue(s[|s| - 1])
  }

  /** A non-empty run of digits, or nothing. */
  function ParseDigits(s: string): Option<nat> {
    if s != [] && AllDigits(s) then Some(DigitsValue(s)) else None
  }

  /** Printing and parsing are inverse. */
  lemma {:induction false} DigitsRoundTrip(n: nat)
    ensures ParseDigits(Digits(n)) == Some(n)
  {
    var s := Digits(n);
    if n < 10 {
      assert s[..|s| - 1] == [] && DigitsValue([]) == 0;
      assert DigitsValue(s) == DigitValue(DigitChar(n));
    } else {
      assert s[..|s| - 1] == Digits(n / 10);
      DigitsRoundTrip(n / 10);
    }
  }

  /** No leading zero. */
  lemma {:induction false} DigitsForm(n: nat)
    ensures n > 0 ==> Digits(n)[0] != '0'
    ensures n == 0 ==> Digits(n) == "0"
  {
    if n >= 10 {
      DigitsForm(n / 10);
    }
  }

  function IntText(i: int): string {
    if i < 0 then "-" + Digits(-i) else Digits(i)
  }

  lemma IntTextInjective(i: int, j: int)
    requires IntText(i) == IntText(j)
    ensures i == j
  {
    DigitsRoundTrip(if i < 0 then -i else i);
    DigitsRoundTrip(if j < 0 then -j else j);
    var s := IntText(i);
    if i < 0 {
      assert s[0] == '-' && !IsDigit(s[0]);
      assert j < 0;
      assert s[1..] == Digits(-i) == Digits(-j);
    } else {
      assert IsDigit(s[0]);
      assert j >= 0;
    }
  }
}

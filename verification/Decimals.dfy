/** Decimal numerals: what `String(n)` and `{n}` print for a natural number, and reading them back. */
module Decimals {

  const DIGITS: string := "0123456789"

  predicate IsDigit(c: char) {
    c in DIGITS
  }

  function DigitChar(d: nat): (c: char)
    requires d < 10
    ensures IsDigit(c)
  {
    DIGITS[d]
  }

  function DigitValue(c: char): (d: nat)
    ensures d < 10
    ensures IsDigit(c) ==> DigitChar(d) == c
  {
    if '0' <= c <= '9' then c as int - '0' as int else 0
  }

  /** The shortest numeral of `n`: no leading zero, `"0"` for zero. */
  function Numeral(n: nat): (s: string)
    ensures s != [] && forall c | c in s :: IsDigit(c)
  {
    if n < 10 then [DigitChar(n)] else Numeral(n / 10) + [DigitChar(n % 10)]
  }

  /** The number a string of digits stands for. */
  function NumeralValue(s: string): nat {
    if s == [] then 0 else 10 * NumeralValue(s[..|s| - 1]) + DigitValue(s[|s| - 1])
  }

  lemma DigitBack(d: nat)
    requires d < 10
    ensures DigitValue(DigitChar(d)) == d
  {
  }

  /** One more digit makes ten times the number and the digit. */
  lemma OneMoreDigit(s: string, d: nat)
    requires d < 10
    ensures NumeralValue(s + [DigitChar(d)]) == 10 * NumeralValue(s) + d
  {
    var t := s + [DigitChar(d)];
    assert t[..|t| - 1] == s && t[|t| - 1] == DigitChar(d);
    DigitBack(d);
  }

  lemma Tens(n: nat)
    ensures 10 * (n / 10) + n % 10 == n
  {
  }

  lemma {:induction false} NumeralRoundTrip(n: nat)
    ensures NumeralValue(Numeral(n)) == n
  {
    if n < 10 {
      OneMoreDigit("", n);
      assert "" + [DigitChar(n)] == [DigitChar(n)];
    } else {
      NumeralRoundTrip(n / 10);
      OneMoreDigit(Numeral(n / 10), n % 10);
      Tens(n);
    }
  }

  lemma NumeralInjective(m: nat, n: nat)
    requires Numeral(m) == Numeral(n)
    ensures m == n
  {
    NumeralRoundTrip(m);
    NumeralRoundTrip(n);
  }
}

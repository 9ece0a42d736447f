/**
 Decimal numerals for natural numbers: the text Python's `str` gives an
 `int` (the converters render every digit value this way, so a base-60 digit
 such as 45 prints as the two characters "45"), and the reading of such a
 numeral back into its value.
 */
module Numerals {

  predicate IsDigitChar(ch: char) {
    '0' <= ch <= '9'
  }

  /** The character of a single decimal digit. */
  function DigitChar(d: nat): (ch: char)
    requires d < 10
    ensures IsDigitChar(ch)
    ensures CharValue(ch) == d
  {
    ('0' as int + d) as char
  }

  /** The value of a decimal digit character. */
  function CharValue(ch: char): (d: nat)
    requires IsDigitChar(ch)
    ensures d < 10
  {
    ch as int - '0' as int
  }

  /** A numeral is a non-empty run of decimal digit characters. */
  predicate IsNumeral(s: string) {
    |s| > 0 && forall i :: 0 <= i < |s| ==> IsDigitChar(s[i])
  }

  /** The decimal numeral of `n`, most significant digit first, as `str(n)`. */
  function Decimal(n: nat): (s: string)
    ensures IsNumeral(s)
    ensures s[0] == '0' <==> n == 0
    ensures |s| == 1 <==> n < 10
  {
    if n < 10 then [DigitChar(n)] else Decimal(n / 10) + [DigitChar(n % 10)]
  }

  /** The value of a string of decimal digits, read most significant first. */
  function NumeralValue(s: string): nat
    requires forall i :: 0 <= i < |s| ==> IsDigitChar(s[i])
  {
    if |s| == 0 then 0 else NumeralValue(s[..|s| - 1]) * 10 + CharValue(s[|s| - 1])
  }

  /** Reading a rendered numeral gives back the number it renders. */
  lemma {:induction false} NumeralValueOfDecimal(n: nat)
    ensures NumeralValue(Decimal(n)) == n
  {
    var s := Decimal(n);
    if n >= 10 {
      assert s[..|s| - 1] == Decimal(n / 10);
      NumeralValueOfDecimal(n / 10);
    }
  }

  /** Distinct numbers render as distinct numerals. */
  lemma {:induction false} DecimalInjective(m: nat, n: nat)
    requires Decimal(m) == Decimal(n)
    ensures m == n
  {
    NumeralValueOfDecimal(m);
    NumeralValueOfDecimal(n);
  }
}

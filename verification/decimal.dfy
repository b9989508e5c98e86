/** Rendering of a non-negative integer in base ten: digits, no leading
    zeros, "0" for zero. This is what JavaScript's template literals
    (`${status}`) write for integers below 10^21; from 10^21 on they
    switch to exponent form, which is not modelled. */
module Decimal {

  predicate IsDigit(c: char)
  {
    '0' <= c <= '9'
  }

  predicate AllDigits(s: string)
  {
    forall i :: 0 <= i < |s| ==> IsDigit(s[i])
  }

  function DigitChar(d: nat): (c: char)
    requires d < 10
    ensures IsDigit(c)
    ensures c as int - '0' as int == d
  {
    "0123456789"[d]
  }

  function DigitValue(c: char): nat
    requires IsDigit(c)
  {
    c as int - '0' as int
  }

  /** The decimal text of `n`. */
  function ToDecimal(n: nat): (s: string)
    ensures 1 <= |s|
    ensures AllDigits(s)
    ensures |s| > 1 ==> s[0] != '0'
    decreases n
  {
    if n < 10 then [DigitChar(n)] else ToDecimal(n / 10) + [DigitChar(n % 10)]
  }

  /** The number a string of decimal digits denotes (the inverse reading). */
  function ValueOf(s: string): nat
    requires AllDigits(s)
    decreases |s|
  {
    if |s| == 0 then 0 else 10 * ValueOf(s[..|s| - 1]) + DigitValue(s[|s| - 1])
  }

  /** Reading the rendered digits back gives the number: the rendering loses nothing. */
  lemma {:induction false} ValueOfToDecimal(n: nat)
    ensures ValueOf(ToDecimal(n)) == n
    decreases n
  {
    var s := ToDecimal(n);
    if n >= 10 {
      ValueOfToDecimal(n / 10);
      assert s[..|s| - 1] == ToDecimal(n / 10);
    }
  }

  /** Distinct numbers render as distinct strings. */
  lemma ToDecimalInjective(m: nat, n: nat)
    requires ToDecimal(m) == ToDecimal(n)
    ensures m == n
  {
    ValueOfToDecimal(m);
    ValueOfToDecimal(n);
  }

  /** Digits followed by a non-digit: the digits are fixed by the text. */
  lemma DigitsThenOther(d1: string, x1: string, d2: string, x2: string)
    requires AllDigits(d1) && AllDigits(d2)
    requires |x1| > 0 && |x2| > 0 && !IsDigit(x1[0]) && !IsDigit(x2[0])
    requires d1 + x1 == d2 + x2
    ensures d1 == d2 && x1 == x2
  {
    if |d1| < |d2| {
      DigitAt(d1, x1, d2, x2);
    } else if |d2| < |d1| {
      DigitAt(d2, x2, d1, x1);
    } else {
      assert d1 == (d1 + x1)[..|d1|];
      assert d2 == (d2 + x2)[..|d2|];
      assert x1 == (d1 + x1)[|d1|..];
      assert x2 == (d2 + x2)[|d2|..];
    }
  }

  /** Where the shorter run of digits ends, the longer one has a digit. */
  lemma DigitAt(d1: string, x1: string, d2: string, x2: string)
    requires AllDigits(d2) && |x1| > 0 && |d1| < |d2|
    ensures (d1 + x1)[|d1|] == x1[0]
    ensures IsDigit((d2 + x2)[|d1|])
  {
  }
}

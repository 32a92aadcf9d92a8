/**
 Decimal text of integers, as Ruby's `Integer#to_s` writes it inside string
 interpolation, together with the reader that undoes it.
 */
module Decimal {
  import opened Wrappers

  predicate IsDigit(c: char) {
    '0' <= c <= '9'
  }

  predicate AllDigits(s: string) {
    forall i :: 0 <= i < |s| ==> IsDigit(s[i])
  }

  function DigitChar(d: nat): (c: char)
    requires d < 10
    ensures IsDigit(c)
    ensures c as int - '0' as int == d
  {
    ('0' as int + d) as char
  }

  function DigitValue(c: char): nat
    requires IsDigit(c)
  {
    c as int - '0' as int
  }

  /** The shortest decimal text of `n` (no sign, no leading zeros). */
  function NatText(n: nat): (s: string)
    ensures |s| > 0
    ensures AllDigits(s)
    ensures s[0] == '0' ==> n == 0
    decreases n
  {
    if n < 10 then [DigitChar(n)] else NatText(n / 10) + [DigitChar(n % 10)]
  }

  /** `Integer#to_s`: a minus sign in front of negative numbers. */
  function IntText(n: int): (s: string)
    ensures |s| > 0
    ensures n >= 0 ==> AllDigits(s)
    ensures n < 0 ==> s[0] == '-' && AllDigits(s[1..])
    ensures ',' !in s && ' ' !in s
  {
    if n < 0 then "-" + NatText(-n) else NatText(n)
  }

  /** The value of a non-empty string of digits, read most significant first. */
  function DigitsValue(s: string): nat
    requires |s| > 0 && AllDigits(s)
    decreases |s|
  {
    if |s| == 1 then DigitValue(s[0])
    else DigitsValue(s[..|s| - 1]) * 10 + DigitValue(s[|s| - 1])
  }

  /** Reads a non-negative decimal number; anything else is None. */
  function ReadNat(s: string): (r: Option<nat>)
    ensures r.Some? <==> |s| > 0 && AllDigits(s)
  {
    if |s| > 0 && AllDigits(s) then Some(DigitsValue(s)) else None
  }

  lemma {:induction false} DigitsValueOfNatText(n: nat)
    ensures DigitsValue(NatText(n)) == n
    decreases n
  {
    if n >= 10 {
      var s := NatText(n);
      assert s[..|s| - 1] == NatText(n / 10);
      DigitsValueOfNatText(n / 10);
    }
  }

  /** Reading back the text of a non-negative number gives the number. */
  lemma ReadNatText(n: nat)
    ensures ReadNat(NatText(n)) == Some(n)
    ensures ReadNat(IntText(n)) == Some(n)
  {
    DigitsValueOfNatText(n);
  }

  /** Digit text never holds the separators used around it in the report. */
  lemma DigitsHaveNoSeparators(s: string)
    requires AllDigits(s)
    ensures '-' !in s && ',' !in s && ' ' !in s
  {
  }
}

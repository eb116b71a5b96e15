/** Decimal text of natural numbers. */
module Decimal {
  import opened Arith

  predicate IsDigit(c: char)
  {
    '0' <= c <= '9'
  }

  predicate AllDigits(s: string)
  {
    forall i :: 0 <= i < |s| ==> IsDigit(s[i])
  }

  function DigitChar(d: nat): (c: char)
    requires d < 10
    ensures IsDigit(c) && DigitVal(c) == d
  {
    (d + 48) as char
  }

  function DigitVal(c: char): (d: nat)
    requires IsDigit(c)
    ensures d < 10
  {
    c as int - 48
  }

  /** The number that a digit string spells; the empty string spells zero. */
  function Value(s: string): (n: nat)
    requires AllDigits(s)
  {
    if s == "" then 0 else Value(s[..|s| - 1]) * 10 + DigitVal(s[|s| - 1])
  }

  lemma {:induction false} ValueAppend(s: string, c: char)
    requires AllDigits(s) && IsDigit(c)
    ensures AllDigits(s + [c]) && Value(s + [c]) == Value(s) * 10 + DigitVal(c)
  {}

  /** The digits of n without leading zeros; zero has none. */
  function Digits(n: nat): (s: string)
    ensures AllDigits(s) && Value(s) == n
    ensures n > 0 ==> |s| > 0 && s[0] != '0'
  {
    if n == 0 then ""
    else
      DivShrinks(n, 10);
      var t, c := Digits(n / 10), DigitChar(n % 10);
      ValueAppend(t, c);
      t + [c]
  }

  /** How a number prints: its digits, a single zero for zero. */
  function Text(n: nat): (s: string)
    ensures AllDigits(s) && Value(s) == n && |s| > 0
  {
    if n == 0 then "0" else Digits(n)
  }
}

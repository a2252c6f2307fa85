/** Decimal digits and the numbers they denote. */
module Digits {

  predicate IsDigit(c: char) { '0' <= c <= '9' }

  function Pow10(n: nat): (p: nat)
    ensures p >= 1
  {
    if n == 0 then 1 else 10 * Pow10(n - 1)
  }

  predicate AllDigits(s: string) { forall i :: 0 <= i < |s| ==> IsDigit(s[i]) }

  function Digit(c: char): nat
    requires IsDigit(c)
  {
    c as int - '0' as int
  }

  /** The number a digit string denotes. */
  function Value(s: string): nat
    requires AllDigits(s)
  {
    if s == [] then 0 else Digit(s[0]) * Pow10(|s| - 1) + Value(s[1..])
  }

  lemma {:induction false} ValueSnoc(s: string, c: char)
    requires AllDigits(s) && IsDigit(c)
    ensures AllDigits(s + [c]) && Value(s + [c]) == Value(s) * 10 + Digit(c)
  {
    if s != [] {
      assert (s + [c])[1..] == s[1..] + [c];
      ValueSnoc(s[1..], c);
      assert Pow10(|s|) == 10 * Pow10(|s| - 1);
      Shifted(Digit(s[0]), Pow10(|s| - 1));
    } else {
      assert [c][1..] == [] && [] + [c] == [c];
    }
  }

  lemma Shifted(d: nat, p: nat)
    ensures d * (10 * p) == (d * p) * 10
  {
  }
}

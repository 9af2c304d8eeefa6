/**
 * Decimal rendering of non-negative integers, as JavaScript produces it when a
 * numeric array index is used as a property name (`result[key] = val` with a
 * number `key`).
 */
module Decimal {

  predicate IsDigit(c: char) {
    '0' <= c <= '9'
  }

  predicate AllDigits(s: string) {
    forall i :: 0 <= i < |s| ==> IsDigit(s[i])
  }

  /** The character of one decimal digit. */
  function Digit(d: nat): (c: char)
    requires d < 10
    ensures IsDigit(c)
  {
    (d + '0' as int) as char
  }

  /** The value of one decimal digit character; inverse of `Digit`. */
  function DigitValue(c: char): (d: nat)
    requires IsDigit(c)
    ensures d < 10 && Digit(d) == c
  {
    c as int - '0' as int
  }

  /**
   * The canonical decimal form of `n`: digits only, never empty, and with a
   * leading zero only for zero itself.
   */
  function Show(n: nat): (s: string)
    ensures |s| > 0 && AllDigits(s)
    ensures s[0] == '0' <==> n == 0
    decreases n
  {
    if n < 10 then [Digit(n)] else Show(n / 10) + [Digit(n % 10)]
  }

  /** Reads a string of decimal digits back as a number. */
  function Parse(s: string): nat
    requires AllDigits(s)
    decreases |s|
  {
    if |s| == 0 then 0 else 10 * Parse(s[..|s| - 1]) + DigitValue(s[|s| - 1])
  }

  /** `k` is the canonical decimal name of an index below `bound`. */
  predicate IsIndexName(k: string, bound: nat) {
    AllDigits(k) && Parse(k) < bound && Show(Parse(k)) == k
  }

  /** Reading back the decimal form of `n` gives `n`. */
  lemma {:induction false} ParseShow(n: nat)
    ensures Parse(Show(n)) == n
    decreases n
  {
    if n >= 10 {
      var s := Show(n);
      assert s[..|s| - 1] == Show(n / 10);
      assert DigitValue(Digit(n % 10)) == n % 10;
      ParseShow(n / 10);
    } else {
      assert DigitValue(Digit(n)) == n;
    }
  }

  /** Distinct indices render as distinct property names. */
  lemma ShowInjective(m: nat, n: nat)
    ensures Show(m) == Show(n) ==> m == n
  {
    ParseShow(m);
    ParseShow(n);
  }
}

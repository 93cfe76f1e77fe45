/**
 Decimal digits and numbers as text.
 */
module Decimals {

  predicate IsNum(c: char) { '0' <= c <= '9' }

  function DigitOf(c: char): nat
    requires IsNum(c)
  {
    c as int - '0' as int
  }

  function Digit(d: nat): char
    requires d < 10
  {
    '0' + d as char
  }

  predicate AllDigits(s: string) { forall i :: 0 <= i < |s| ==> IsNum(s[i]) }

  function Decimal(n: nat): (s: string)
    ensures s != [] && AllDigits(s)
  {
    if n < 10 then [Digit(n)] else Decimal(n / 10) + [Digit(n % 10)]
  }

  /** The value of digits read after a. */
  function Value(a: nat, ds: string): nat
    requires AllDigits(ds)
    decreases |ds|
  {
    if ds == [] then a else Value(a * 10 + DigitOf(ds[0]), ds[1..])
  }

  lemma {:induction false} ValueSnoc(a: nat, ds: string, d: nat)
    requires d < 10 && AllDigits(ds)
    ensures Value(a, ds + [Digit(d)]) == Value(a, ds) * 10 + d && a <= Value(a, ds)
    decreases |ds|
  {
    if ds == [] {
      assert Value(a, [Digit(d)]) == Value(a * 10 + d, []);
    } else {
      assert (ds + [Digit(d)])[1..] == ds[1..] + [Digit(d)];
      ValueSnoc(a * 10 + DigitOf(ds[0]), ds[1..], d);
    }
  }

  /** Reading a printed number gives it back. */
  lemma {:induction false} DecimalValue(n: nat)
    ensures Value(0, Decimal(n)) == n
  {
    if n < 10 {
      assert Value(0, [Digit(n)]) == Value(n, []);
    } else {
      DecimalValue(n / 10);
      ValueSnoc(0, Decimal(n / 10), n % 10);
    }
  }

  function Ten(k: nat): nat { if k == 0 then 1 else 10 * Ten(k - 1) }

  /** A number below 10^k has at most k digits. */
  lemma {:induction false} DecimalLength(n: nat, k: nat)
    requires n < Ten(k) && k > 0
    ensures |Decimal(n)| <= k
    decreases k
  {
    if n >= 10 { DecimalLength(n / 10, k - 1); }
  }
}

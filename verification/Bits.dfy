/**
 Machine words as natural numbers, with the bit operations of C defined by
 recursion on the binary expansion: bit 0 is `x % 2`, the rest is `x / 2`.
 */
module Bits {

  /** 2^64, what a machine word wraps at. */
  const WORD_SPAN: nat := 0x1_0000_0000_0000_0000

  function Pow2(n: nat): (r: nat)
    ensures r > 0
  {
    if n == 0 then 1 else 2 * Pow2(n - 1)
  }

  /** Whether `x & (1 << i)` is non-zero. */
  predicate Bit(x: nat, i: nat)
  {
    if i == 0 then x % 2 == 1 else Bit(x / 2, i - 1)
  }

  /** `x | (1 << s)` */
  function SetBit(x: nat, s: nat): nat
  {
    if s == 0 then x - x % 2 + 1 else 2 * SetBit(x / 2, s - 1) + x % 2
  }

  /** `x & ~(1 << s)` */
  function ClearBit(x: nat, s: nat): nat
  {
    if s == 0 then x - x % 2 else 2 * ClearBit(x / 2, s - 1) + x % 2
  }

  /** `x & (~0 << s)` */
  function MaskFrom(x: nat, s: nat): nat
  {
    if s == 0 then x else 2 * MaskFrom(x / 2, s - 1)
  }

  /** `x & y` */
  function And(x: nat, y: nat): nat
  {
    if x == 0 || y == 0 then 0 else (if x % 2 == 1 && y % 2 == 1 then 1 else 0) + 2 * And(x / 2, y / 2)
  }

  /** `x << s` in a word wide enough for the result */
  function Shl(x: nat, s: nat): nat
  {
    if s == 0 then x else 2 * Shl(x, s - 1)
  }

  /** `x >> s` */
  function Shr(x: nat, s: nat): nat
  {
    if s == 0 then x else Shr(x / 2, s - 1)
  }

  /** Byte i of x, counted from the low end. */
  function ByteOf(x: int, i: nat): (r: nat)
    ensures r < 256
    decreases i
  {
    if i == 0 then x % 256 else ByteOf(x / 256, i - 1)
  }

  /** The lowest set bit: `ffs(x) - 1`. */
  function Ffs(x: nat): (r: nat)
    requires x != 0
    ensures Bit(x, r)
    ensures forall j: nat :: j < r ==> !Bit(x, j)
  {
    if x % 2 == 1 then 0 else 1 + Ffs(x / 2)
  }

  /** The highest set bit: `fls(x) - 1`, that is floor(log2 x). */
  function Fls(x: nat): (r: nat)
    requires x != 0
    ensures Pow2(r) <= x < 2 * Pow2(r)
  {
    if x == 1 then 0 else 1 + Fls(x / 2)
  }

  lemma Halves(a: nat, r: nat)
    requires r < 2
    ensures (2 * a + r) / 2 == a && (2 * a + r) % 2 == r
  {}

  lemma {:induction false} SetBitAt(x: nat, s: nat, i: nat)
    ensures Bit(SetBit(x, s), i) <==> i == s || Bit(x, i)
  {
    if s == 0 {
      Halves(x / 2, 1);
      assert SetBit(x, 0) == 2 * (x / 2) + 1;
    } else {
      Halves(SetBit(x / 2, s - 1), x % 2);
      if i != 0 { SetBitAt(x / 2, s - 1, i - 1); }
    }
  }

  lemma {:induction false} ClearBitAt(x: nat, s: nat, i: nat)
    ensures Bit(ClearBit(x, s), i) <==> i != s && Bit(x, i)
  {
    if s == 0 {
      Halves(x / 2, 0);
      assert ClearBit(x, 0) == 2 * (x / 2);
    } else {
      Halves(ClearBit(x / 2, s - 1), x % 2);
      if i != 0 { ClearBitAt(x / 2, s - 1, i - 1); }
    }
  }

  lemma {:induction false} MaskFromAt(x: nat, s: nat, i: nat)
    ensures Bit(MaskFrom(x, s), i) <==> i >= s && Bit(x, i)
  {
    if s != 0 {
      Halves(MaskFrom(x / 2, s - 1), 0);
      if i != 0 { MaskFromAt(x / 2, s - 1, i - 1); }
    }
  }

  /** A word with no set bit is zero, and the other way round. */
  lemma {:induction false} ZeroHasNoBit(x: nat)
    ensures x == 0 ==> forall i: nat :: !Bit(x, i)
    ensures x != 0 ==> exists i: nat :: Bit(x, i)
  {
    if x == 0 {
      forall i: nat ensures !Bit(x, i) { NoBitInZero(i); }
    } else {
      var r := Ffs(x);
      assert Bit(x, r);
    }
  }

  lemma {:induction false} NoBitInZero(i: nat)
    ensures !Bit(0, i)
  {
    if i != 0 { NoBitInZero(i - 1); }
  }

  lemma {:induction false} Pow2Monotone(m: nat, n: nat)
    requires m <= n
    ensures Pow2(m) <= Pow2(n)
    decreases n
  {
    if m < n { Pow2Monotone(m, n - 1); }
  }

  lemma {:induction false} Pow2Strict(m: nat, n: nat)
    requires Pow2(m) < Pow2(n)
    ensures m < n
  {
    if n <= m { Pow2Monotone(n, m); }
  }

  lemma {:induction false} Pow2Add(m: nat, n: nat)
    ensures Pow2(m + n) == Pow2(m) * Pow2(n)
    decreases n
  {
    if n != 0 { Pow2Add(m, n - 1); }
  }

  /** Shifting left multiplies by the power of two. */
  lemma {:induction false} ShlTimes(x: nat, s: nat)
    ensures Shl(x, s) == x * Pow2(s)
  {
    if s != 0 { ShlTimes(x, s - 1); }
  }

  lemma {:induction false} ShlAdd(a: nat, b: nat, s: nat)
    ensures Shl(a + b, s) == Shl(a, s) + Shl(b, s)
  {
    if s != 0 { ShlAdd(a, b, s - 1); }
  }

  lemma {:induction false} ShlLe(a: nat, b: nat, s: nat)
    requires a <= b
    ensures Shl(a, s) <= Shl(b, s)
  {
    if s != 0 { ShlLe(a, b, s - 1); }
  }

  /** One more is one power of two more. */
  lemma {:induction false} ShlNext(a: nat, s: nat)
    ensures Shl(a + 1, s) == Shl(a, s) + Pow2(s)
  {
    if s != 0 { ShlNext(a, s - 1); }
  }

  lemma {:induction false} ShlPow2(k: nat, s: nat)
    ensures Shl(Pow2(k), s) == Pow2(s + k)
  {
    if s != 0 { ShlPow2(k, s - 1); }
  }

  /** Shifting right rounds down. */
  lemma {:induction false} ShrBracket(x: nat, s: nat)
    ensures Shl(Shr(x, s), s) <= x < Shl(Shr(x, s) + 1, s)
  {
    if s != 0 { ShrBracket(x / 2, s - 1); }
  }

  lemma ShrBetween(x: nat, s: nat, lo: nat, hi: nat)
    requires Shl(lo, s) <= x < Shl(hi, s)
    ensures lo <= Shr(x, s) < hi
  {
    ShrBracket(x, s);
    if Shr(x, s) < lo { ShlLe(Shr(x, s) + 1, lo, s); }
    if hi <= Shr(x, s) { ShlLe(hi, Shr(x, s), s); }
  }

  lemma {:induction false} AndSelf(x: nat)
    ensures And(x, x) == x
  {
    if x != 0 { AndSelf(x / 2); }
  }

  lemma AndEven(x: nat, y: nat, r: nat, s: nat)
    requires r < 2 && s < 2 && r + s == 1
    ensures And(2 * x + r, 2 * y + s) == 2 * And(x, y)
  {
    Halves(x, r);
    Halves(y, s);
  }

  lemma FlsDouble(h: nat, r: nat)
    requires h > 0 && r < 2
    ensures Pow2(Fls(2 * h + r)) == 2 * Pow2(Fls(h))
  {
    Halves(h, r);
  }

  /** One step of the test for powers of two. */
  lemma PowerStep(h: nat)
    requires h > 0
    ensures And(2 * h + 1, 2 * h) != 0 && And(2 * h, 2 * h - 1) == 2 * And(h, h - 1)
  {
    AndEven(h, h, 1, 0);
    AndSelf(h);
    AndEven(h, h - 1, 0, 1);
  }

  /** `x & (x - 1)` is zero exactly for the powers of two. */
  lemma {:induction false} PowerTest(x: nat)
    requires x > 0
    ensures And(x, x - 1) == 0 <==> x == Pow2(Fls(x))
  {
    if x == 1 {
      assert Pow2(0) == 1;
    } else {
      var h := x / 2;
      PowerStep(h);
      PowerTest(h);
      FlsDouble(h, x % 2);
      PowerParity(x, h, x % 2, And(x, x - 1), And(h, h - 1), Pow2(Fls(x)), Pow2(Fls(h)));
    }
  }

  lemma PowerParity(x: nat, h: nat, r: nat, a: nat, b: nat, p: nat, q: nat)
    requires x == 2 * h + r && r < 2 && p == 2 * q && (b == 0 <==> h == q)
    requires if r == 1 then a != 0 else a == 2 * b
    ensures a == 0 <==> x == p
  {}

  /** floor(log2) is the only exponent bracketing its argument. */
  lemma FlsUnique(x: nat, e: nat)
    requires Pow2(e) <= x < 2 * Pow2(e)
    ensures x != 0 && Fls(x) == e
  {
    var r := Fls(x);
    assert Pow2(r) < Pow2(e + 1) && Pow2(e) < Pow2(r + 1);
    Pow2Strict(r, e + 1);
    Pow2Strict(e, r + 1);
  }

  /** The low e bits are zero: a multiple of 2^e. */
  predicate Multiple(x: nat, e: nat) { MaskFrom(x, e) == x }

  /** Masking the low e bits rounds down to a multiple of 2^e. */
  lemma {:induction false} MaskFromRounds(x: nat, e: nat)
    ensures MaskFrom(x, e) <= x < MaskFrom(x, e) + Pow2(e)
    ensures Multiple(MaskFrom(x, e), e)
  {
    if e != 0 {
      MaskFromRounds(x / 2, e - 1);
      Halves(MaskFrom(x / 2, e - 1), 0);
    }
  }

  lemma {:induction false} MultipleHalf(x: nat, e: nat)
    requires e != 0
    ensures Multiple(x, e) <==> x % 2 == 0 && Multiple(x / 2, e - 1)
  {
    MaskFromRounds(x / 2, e - 1);
  }

  lemma {:induction false} MultipleOfLess(x: nat, e: nat, f: nat)
    requires f <= e && Multiple(x, e)
    ensures Multiple(x, f)
  {
    if f != 0 {
      MultipleHalf(x, e);
      MultipleOfLess(x / 2, e - 1, f - 1);
      MultipleHalf(x, f);
    }
  }

  /** Two multiples are at least 2^e apart. */
  lemma {:induction false} MultiplesApart(x: nat, y: nat, e: nat)
    requires Multiple(x, e) && Multiple(y, e) && x < y
    ensures x + Pow2(e) <= y
  {
    if e != 0 {
      MultipleHalf(x, e);
      MultipleHalf(y, e);
      MultiplesApart(x / 2, y / 2, e - 1);
    }
  }

  lemma HalfAdd(x: nat, y: nat)
    requires x % 2 == 0 && y % 2 == 0
    ensures (x + y) % 2 == 0 && (x + y) / 2 == x / 2 + y / 2
  {
    Halves(x / 2 + y / 2, 0);
  }

  lemma {:induction false} MultipleAdd(x: nat, y: nat, e: nat)
    requires Multiple(x, e) && Multiple(y, e)
    ensures Multiple(x + y, e)
  {
    if e != 0 {
      MultipleHalf(x, e);
      MultipleHalf(y, e);
      HalfAdd(x, y);
      MultipleAdd(x / 2, y / 2, e - 1);
      MultipleHalf(x + y, e);
    }
  }

  lemma {:induction false} MultipleOfPow2(e: nat, n: nat)
    requires e <= n
    ensures Multiple(Pow2(n), e)
  {
    if e != 0 {
      var half := Pow2(n - 1);
      assert Pow2(n) == 2 * half;
      Halves(half, 0);
      MultipleOfPow2(e - 1, n - 1);
      MultipleHalf(2 * half, e);
    }
  }

  lemma {:induction false} MultipleFactor(x: nat, e: nat) returns (k: nat)
    requires Multiple(x, e)
    ensures x == k * Pow2(e)
  {
    if e == 0 {
      k := x;
    } else {
      MultipleHalf(x, e);
      k := MultipleFactor(x / 2, e - 1);
    }
  }

  lemma {:induction false} FactorMod(k: nat, d: nat)
    requires d > 0
    ensures k * d % d == 0
  {
    if k != 0 {
      FactorMod(k - 1, d);
      assert k * d == (k - 1) * d + d;
      ModStep((k - 1) * d, d);
    }
  }

  lemma ModStep(a: nat, d: nat)
    requires d > 0
    ensures (a + d) % d == a % d
  {
    var q, r := a / d, a % d;
    assert a + d == (q + 1) * d + r;
    ModUnique(a + d, d, q + 1, r);
  }

  lemma ModUnique(a: nat, d: nat, q: nat, r: nat)
    requires r < d && a == q * d + r
    ensures a % d == r
  {
    var p, s := a / d, a % d;
    assert a == p * d + s;
    if p < q { TimesLess(p, q, d); }
    if q < p { TimesLess(q, p, d); }
  }

  lemma TimesLess(a: nat, b: nat, d: nat)
    requires a < b
    ensures a * d + d <= b * d
  {
    var k := b - a - 1;
    assert b * d == a * d + d + k * d;
  }

  /** Being a multiple, in the usual words. */
  lemma MultipleMod(x: nat, e: nat)
    requires Multiple(x, e)
    ensures x % Pow2(e) == 0
  {
    var k := MultipleFactor(x, e);
    FactorMod(k, Pow2(e));
  }
}

/**
 The integer part of __rem_pio2_large: products of 24-bit pieces, their distillation
 into 24-bit digits, and the complement that rounds to the nearest multiple.  All
 values are whole numbers that doubles hold exactly.
 */
module Pio2 {
  import Bits

  const BASE: nat := 0x100_0000
  const EXACT: nat := 0x20_0000_0000_0000
  const INT32: nat := 0x8000_0000

  /** d times BASE to the k. */
  function Scaled(d: int, k: nat): int { if k == 0 then d else BASE * Scaled(d, k - 1) }

  lemma {:induction false} ScaledAdd(a: int, b: int, k: nat)
    ensures Scaled(a + b, k) == Scaled(a, k) + Scaled(b, k)
    decreases k
  {
    if k != 0 { ScaledAdd(a, b, k - 1); }
  }

  lemma {:induction false} ScaledBase(x: int, k: nat)
    ensures Scaled(BASE * x, k) == Scaled(x, k + 1)
    decreases k
  {
    if k != 0 { ScaledBase(x, k - 1); }
  }

  lemma {:induction false} ScaledMonotone(a: int, b: int, k: nat)
    requires a <= b
    ensures Scaled(a, k) <= Scaled(b, k) && (a < b ==> Scaled(a, k) < Scaled(b, k))
    ensures Scaled(0, k) == 0
    decreases k
  {
    if k != 0 { ScaledMonotone(a, b, k - 1); }
  }

  /** The number with these digits, least significant first. */
  function Value(ds: seq<int>): int { if ds == [] then 0 else ds[0] + BASE * Value(ds[1..]) }

  /** The number with these terms, most significant first. */
  function Weighted(q: seq<int>): int { if q == [] then 0 else Weighted(q[..|q| - 1]) * BASE + q[|q| - 1] }

  predicate Digits(ds: seq<int>) { forall i :: 0 <= i < |ds| ==> 0 <= ds[i] < BASE }

  // ---- the terms q[i]

  /** The sum of x[j] * f[jx + i - j] over the first n of them. */
  function Term(x: seq<nat>, f: seq<nat>, i: nat, n: nat): nat
    requires n <= |x| && |x| - 1 + i < |f|
  {
    if n == 0 then 0 else Term(x, f, i, n - 1) + x[n - 1] * f[|x| - 1 + i - (n - 1)]
  }

  /** Three products of 24-bit numbers and their sums are exact. */
  lemma {:induction false} TermExact(x: seq<nat>, f: seq<nat>, i: nat, n: nat)
    requires n <= |x| <= 3 && |x| - 1 + i < |f| && Digits(x) && Digits(f)
    ensures Term(x, f, i, n) <= n * 0xffff_fe00_0001 && Term(x, f, i, n) < EXACT
    decreases n
  {
    if n != 0 {
      TermExact(x, f, i, n - 1);
      ProductBound(x[n - 1], f[|x| - 1 + i - (n - 1)]);
    }
  }

  lemma ProductBound(a: nat, b: nat)
    requires a < BASE && b < BASE
    ensures a * b <= 0xffff_fe00_0001
  {
    Monotone(a, 0xff_ffff, b);
    Monotone(b, 0xff_ffff, 0xff_ffff);
  }

  lemma Monotone(a: nat, c: nat, b: nat)
    requires a <= c
    ensures a * b <= c * b
  {}

  /** One product more. */
  function TermAdd(x: seq<nat>, f: seq<nat>, i: nat, j: nat, fw: nat): (r: nat)
    requires j < |x| && |x| - 1 + i < |f|
    ensures fw == Term(x, f, i, j) ==> r == Term(x, f, i, j + 1)
  {
    fw + x[j] * f[|x| - 1 + i - j]
  }

  /** The inner loop: one term, exact at every step. */
  method TermSum(x: seq<nat>, f: seq<nat>, i: nat) returns (fw: nat)
    requires 1 <= |x| <= 3 && |x| - 1 + i < |f| && Digits(x) && Digits(f)
    ensures fw == Term(x, f, i, |x|)
  {
    var j := 0;
    fw := 0;
    while j < |x|
      invariant 0 <= j <= |x| && fw == Term(x, f, i, j) && fw < EXACT
    {
      TermExact(x, f, i, j + 1);
      fw := TermAdd(x, f, i, j, fw);
      j := j + 1;
    }
  }

  /** The loop that computes q[0..jk]. */
  method Terms(x: seq<nat>, f: seq<nat>, jk: nat) returns (q: array<int>)
    requires 1 <= |x| <= 3 && |f| == |x| + jk && Digits(x) && Digits(f)
    ensures fresh(q) && q.Length == jk + 1
    ensures forall i :: 0 <= i <= jk ==> q[i] == Term(x, f, i, |x|) && 0 <= q[i] <= 3 * 0xffff_fe00_0001
  {
    q := new int[jk + 1];
    var i := 0;
    while i <= jk
      invariant 0 <= i <= jk + 1
      invariant forall k :: 0 <= k < i ==> q[k] == Term(x, f, k, |x|) && 0 <= q[k] <= 3 * 0xffff_fe00_0001
    {
      TermExact(x, f, i, |x|);
      var fw := TermSum(x, f, i);
      q[i] := fw;
      i := i + 1;
    }
  }

  // ---- distillation

  lemma {:induction false} ValueSnoc(ds: seq<int>, d: int)
    ensures Value(ds + [d]) == Value(ds) + Scaled(d, |ds|)
    decreases |ds|
  {
    if ds == [] {
      assert ds + [d] == [d] && [d][1..] == [];
    } else {
      assert (ds + [d])[1..] == ds[1..] + [d];
      ValueSnoc(ds[1..], d);
    }
  }

  /** The number that terms, the running term z and finished digits make up. */
  function Sum(terms: seq<int>, z: int, ds: seq<int>): int { Scaled(BASE * Weighted(terms) + z, |ds|) + Value(ds) }

  /** The loop that turns the terms into digits, least significant first: digits and
      what is left of the leading term make up the same number. */
  method Distill(q: array<int>, jz: nat) returns (iq: array<int>, z: int)
    requires jz < q.Length && forall i :: 0 <= i <= jz ==> 0 <= q[i] <= 3 * 0xffff_fe00_0001
    ensures fresh(iq) && iq.Length == jz && Digits(iq[..]) && 0 <= z < EXACT
    ensures Weighted(q[..jz + 1]) == Scaled(z, jz) + Value(iq[..])
  {
    iq := new int[jz];
    var i, j := 0, jz;
    z := q[jz];
    assert q[..jz + 1][..jz] == q[..jz];
    while j > 0
      invariant i + j == jz && 0 <= z < 4 * 0xffff_fe00_0001 && Digits(iq[..i])
      invariant Weighted(q[..jz + 1]) == Sum(q[..j], z, iq[..i])
    {
      var fw := z / BASE;
      assert fw < INT32;
      ghost var was := iq[..i];
      iq[i] := z - BASE * fw;
      assert iq[..i + 1] == was + [z - BASE * fw];
      DigitOut(q[..j], was, z, fw, i);
      assert q[..j][..j - 1] == q[..j - 1];
      z := q[j - 1] + fw;
      i, j := i + 1, j - 1;
    }
    assert iq[..jz] == iq[..] && q[..0] == [];
  }

  /** One round: the value is the same before and after. */
  lemma DigitOut(terms: seq<int>, ds: seq<int>, z: int, fw: int, i: nat)
    requires terms != [] && |ds| == i
    ensures Sum(terms, z, ds) == Sum(terms[..|terms| - 1], terms[|terms| - 1] + fw, ds + [z - BASE * fw])
  {
    ValueSnoc(ds, z - BASE * fw);
    Carry(Weighted(terms), fw, z - BASE * fw, i);
  }

  /** One digit moves from the term to the digits, the rest to the next term. */
  lemma Carry(w: int, fw: int, d: int, i: nat)
    ensures Scaled(BASE * w + (BASE * fw + d), i) == Scaled(w + fw, i + 1) + Scaled(d, i)
  {
    ScaledAdd(BASE * (w + fw), d, i);
    ScaledBase(w + fw, i);
  }

  // ---- 1 - q

  /** What the complement loop makes of the digits: the first digit that is not zero
      from the base, the later ones from the base less one. */
  function Complement(ds: seq<int>): seq<int> {
    if ds == [] then []
    else if ds[0] == 0 then [0] + Complement(ds[1..])
    else [BASE - ds[0]] + Nines(ds[1..])
  }

  function Nines(ds: seq<int>): seq<int> { if ds == [] then [] else [BASE - 1 - ds[0]] + Nines(ds[1..]) }

  lemma ValueCons(d: int, ds: seq<int>)
    ensures Value([d] + ds) == d + BASE * Value(ds)
  {
    assert ([d] + ds)[1..] == ds;
  }

  lemma {:induction false} NinesValue(ds: seq<int>)
    requires Digits(ds)
    ensures |Nines(ds)| == |ds| && Digits(Nines(ds)) && Value(Nines(ds)) == Scaled(1, |ds|) - 1 - Value(ds)
    decreases |ds|
  {
    if ds != [] {
      NinesValue(ds[1..]);
      ValueCons(BASE - 1 - ds[0], Nines(ds[1..]));
    }
  }

  lemma {:induction false} ComplementDigits(ds: seq<int>)
    requires Digits(ds)
    ensures |Complement(ds)| == |ds| && Digits(Complement(ds))
    decreases |ds|
  {
    if ds != [] {
      if ds[0] == 0 { ComplementDigits(ds[1..]); } else { NinesValue(ds[1..]); }
    }
  }

  /** Zero stays; any other number becomes its distance from the next power. */
  lemma {:induction false} ComplementValue(ds: seq<int>)
    requires Digits(ds)
    ensures Value(Complement(ds)) == if Value(ds) == 0 then 0 else Scaled(1, |ds|) - Value(ds)
    decreases |ds|
  {
    if ds != [] {
      var rest := ds[1..];
      if ds[0] == 0 {
        ComplementValue(rest);
        ValueCons(0, Complement(rest));
      } else {
        ValueBound(rest);
        NinesValue(rest);
        ValueCons(BASE - ds[0], Nines(rest));
      }
    }
  }

  predicate ZeroTo(ds: seq<int>, k: nat)
    requires k <= |ds|
  {
    forall j :: 0 <= j < k ==> ds[j] == 0
  }

  lemma {:induction false} NinesAt(ds: seq<int>, k: nat)
    requires k < |ds|
    ensures |Nines(ds)| == |ds| && Nines(ds)[k] == BASE - 1 - ds[k]
    decreases |ds|
  {
    if |ds| > 1 { NinesAt(ds[1..], if k == 0 then 0 else k - 1); } else { assert ds[1..] == []; }
  }

  lemma {:induction false} ComplementAt(ds: seq<int>, k: nat)
    requires k < |ds|
    ensures |Complement(ds)| == |ds|
    ensures Complement(ds)[k] == if !ZeroTo(ds, k) then BASE - 1 - ds[k] else if ds[k] == 0 then 0 else BASE - ds[k]
    decreases |ds|
  {
    var rest := ds[1..];
    if rest == [] {
    } else if ds[0] == 0 {
      ComplementAt(rest, if k == 0 then 0 else k - 1);
      if k > 0 { ZeroShift(ds, k); }
    } else {
      NinesAt(rest, if k == 0 then 0 else k - 1);
    }
  }

  lemma ZeroShift(ds: seq<int>, k: nat)
    requires 0 < k <= |ds| && ds[0] == 0
    ensures ZeroTo(ds, k) <==> ZeroTo(ds[1..], k - 1)
  {
    if ZeroTo(ds[1..], k - 1) {
      forall j | 0 <= j < k ensures ds[j] == 0 { assert j > 0 ==> ds[j] == ds[1..][j - 1]; }
    }
  }

  /** The complement loop, in place. */
  method ComplementLoop(iq: array<int>, jz: nat) returns (carry: bool)
    requires jz <= iq.Length
    modifies iq
    ensures iq[..jz] == Complement(old(iq[..jz])) && iq[jz..] == old(iq[jz..])
    ensures carry <==> !ZeroTo(old(iq[..jz]), jz)
  {
    carry := false;
    ghost var ds := iq[..jz];
    var i := 0;
    while i < jz
      invariant 0 <= i <= jz && (carry <==> !ZeroTo(ds, i))
      invariant forall k :: i <= k < iq.Length ==> iq[k] == old(iq[k])
      invariant |Complement(ds)| == jz || i == 0
      invariant forall k :: 0 <= k < i ==> iq[k] == Complement(ds)[k]
    {
      ComplementAt(ds, i);
      var j := iq[i];
      if !carry {
        if j != 0 {
          carry := true;
          iq[i] := BASE - j;
        }
      } else {
        iq[i] := BASE - 1 - j;
      }
      i := i + 1;
    }
    if jz == 0 { assert ds == []; }
  }

  /** Two to the (24 - q0): what the leading digit counts up to; q0 is below 3. */
  function Span(q0: int): nat { if q0 == 1 then 0x80_0000 else if q0 == 2 then 0x40_0000 else BASE }

  lemma ValueTop(ds: seq<int>)
    requires ds != []
    ensures Value(ds) == Value(ds[..|ds| - 1]) + Scaled(ds[|ds| - 1], |ds| - 1)
  {
    assert ds == ds[..|ds| - 1] + [ds[|ds| - 1]];
    ValueSnoc(ds[..|ds| - 1], ds[|ds| - 1]);
  }

  lemma {:induction false} ValueBound(ds: seq<int>)
    requires Digits(ds)
    ensures 0 <= Value(ds) < Scaled(1, |ds|)
    decreases |ds|
  {
    if ds != [] { ValueBound(ds[1..]); }
  }

  /** Below its leading digit's span, a number is less than that many powers. */
  lemma SpanBound(ds: seq<int>, m: nat)
    requires ds != [] && Digits(ds) && ds[|ds| - 1] < m
    ensures Value(ds) < Scaled(m, |ds| - 1)
  {
    var k, t := |ds| - 1, ds[|ds| - 1];
    ValueTop(ds);
    ValueBound(ds[..k]);
    ScaledAdd(t, 1, k);
    ScaledMonotone(t + 1, m, k);
  }

  /** The leading digit of BASE powers less v lies in the last m before BASE. */
  lemma LeadingDigit(low: int, t: int, k: nat, v: int, m: nat)
    requires low + Scaled(t, k) == Scaled(BASE, k) - v && 0 <= low < Scaled(1, k) && 0 < v < Scaled(m, k) && m <= BASE
    ensures BASE - m <= t < BASE
  {
    ScaledAdd(BASE - m, m, k);
    ScaledAdd(t, 1, k);
    if t <= BASE - m - 1 { ScaledMonotone(t + 1, BASE - m, k); }
    if BASE <= t { ScaledMonotone(BASE, t, k); }
  }

  lemma MaskArith(low: int, t: int, u: int, k: nat, v: int, m: nat)
    requires low + Scaled(t, k) == Scaled(BASE, k) - v && 0 <= low < Scaled(1, k) && 0 < v < Scaled(m, k)
    requires 0 < m <= BASE && BASE % m == 0 && u == t % m
    ensures low + Scaled(u, k) == Scaled(m, k) - v
  {
    LeadingDigit(low, t, k, v, m);
    Remainder(t, m);
    ScaledAdd(u, BASE - m, k);
    ScaledAdd(BASE - m, m, k);
  }

  /** Masking the leading digit of the complement leaves the distance from m powers. */
  lemma MaskValue(ds: seq<int>, c: seq<int>, m: nat, u: int)
    requires Digits(ds) && ds != [] && c == Complement(ds) && Value(ds) != 0 && 0 < m <= BASE && BASE % m == 0
    requires ds[|ds| - 1] < m && |c| == |ds| && u == c[|c| - 1] % m
    ensures Value(c[|c| - 1 := u]) == Scaled(m, |ds| - 1) - Value(ds)
  {
    ComplementValue(ds);
    ComplementDigits(ds);
    ValueBound(ds);
    ScaledBase(1, |ds| - 1);
    SpanBound(ds, m);
    TopChange(c, u);
    ValueBound(c[..|c| - 1]);
    MaskArith(Value(c[..|c| - 1]), c[|c| - 1], u, |c| - 1, Value(ds), m);
  }

  lemma TopChange(c: seq<int>, u: int)
    requires c != []
    ensures Value(c) == Value(c[..|c| - 1]) + Scaled(c[|c| - 1], |c| - 1)
    ensures Value(c[|c| - 1 := u]) == Value(c[..|c| - 1]) + Scaled(u, |c| - 1)
  {
    var d := c[|c| - 1 := u];
    ValueTop(c);
    ValueTop(d);
    assert d[..|c| - 1] == c[..|c| - 1];
  }

  lemma Remainder(t: int, m: nat)
    requires 0 < m <= BASE && BASE % m == 0 && BASE - m <= t < BASE
    ensures t % m == t - (BASE - m)
  {
    var q := BASE / m;
    assert BASE == q * m;
    assert BASE - m == (q - 1) * m;
    Bits.ModUnique(t, m, q - 1, t - (BASE - m));
  }

  lemma SpanDivides(q0: int)
    requires q0 < 3
    ensures 0 < Span(q0) <= BASE && BASE % Span(q0) == 0
  {}

  /** A digit with the bits above Span(q0) cleared. */
  function Mask(t: int, q0: int): int { t % Span(q0) }

  lemma FlipZero(ds: seq<int>, c: seq<int>, q0: int)
    requires Digits(ds) && ds != [] && c == Complement(ds) && |c| == |ds| && Digits(c) && Value(ds) == 0
    ensures Value(c[|c| - 1 := Mask(c[|c| - 1], q0)]) == 0
  {
    ComplementValue(ds);
    ZeroValue(c);
    assert c[|c| - 1 := 0] == c;
  }

  /** Complementing and masking a fraction of Span(q0) leading digits. */
  lemma FlipValue(ds: seq<int>, c: seq<int>, q0: int)
    requires Digits(ds) && ds != [] && q0 < 3 && ds[|ds| - 1] < Span(q0)
    requires c == Complement(ds) && |c| == |ds| && Digits(c)
    ensures Value(c[|c| - 1 := Mask(c[|c| - 1], q0)])
         == if Value(ds) != 0 then Scaled(Span(q0), |ds| - 1) - Value(ds) else 0
  {
    if Value(ds) == 0 {
      FlipZero(ds, c, q0);
    } else {
      SpanDivides(q0);
      MaskValue(ds, c, Span(q0), Mask(c[|c| - 1], q0));
    }
  }

  /** The mask of the leading digit. */
  method MaskTop(iq: array<int>, jz: nat, q0: int)
    requires 0 < jz <= iq.Length && q0 < 3 && Digits(iq[..jz])
    modifies iq
    ensures iq[..jz] == old(iq[..jz])[jz - 1 := Mask(old(iq[jz - 1]), q0)] && Digits(iq[..jz])
  {
    ghost var c := iq[..jz];
    assert 0 <= c[jz - 1] < BASE;
    if q0 == 1 {
      iq[jz - 1] := iq[jz - 1] % 0x80_0000;
    } else if q0 == 2 {
      iq[jz - 1] := iq[jz - 1] % 0x40_0000;
    }
    assert iq[..jz] == c[jz - 1 := Mask(c[jz - 1], q0)];
  }

  /** The whole of 1 - q: a fraction v of Span(q0) leading digits becomes its distance
      from one; zero stays zero, and the carry says which. */
  method Flip(iq: array<int>, jz: nat, q0: int) returns (carry: bool)
    requires 0 < jz <= iq.Length && q0 < 3 && Digits(iq[..jz]) && iq[jz - 1] < Span(q0)
    modifies iq
    ensures Digits(iq[..jz]) && (carry <==> Value(old(iq[..jz])) != 0)
    ensures Value(iq[..jz]) == if carry then Scaled(Span(q0), jz - 1) - Value(old(iq[..jz])) else 0
  {
    ghost var ds := iq[..jz];
    ZeroValue(ds);
    ComplementDigits(ds);
    carry := ComplementLoop(iq, jz);
    FlipValue(ds, iq[..jz], q0);
    MaskTop(iq, jz, q0);
  }

  lemma {:induction false} ZeroValue(ds: seq<int>)
    requires Digits(ds)
    ensures ZeroTo(ds, |ds|) <==> Value(ds) == 0
    ensures Value(ds) == 0 ==> forall i :: 0 <= i < |ds| ==> ds[i] == 0
    decreases |ds|
  {
    if ds != [] {
      ValueBound(ds[1..]);
      ZeroValue(ds[1..]);
      if ds[0] == 0 { ZeroShift(ds, |ds|); }
    }
  }

  // ---- the nearest whole number

  /** What one whole is worth, as Unit(q0) times BASE to the Places. */
  function Unit(q0: int): nat
    requires q0 < 3
  {
    if q0 > 0 then Span(q0) else Bits.Pow2(-q0)
  }

  function Places(q0: int, jz: nat): nat
    requires jz > 0
  {
    if q0 > 0 then jz - 1 else jz
  }

  /** The fraction left: zr in the leading term and the digits. */
  function Fraction(zr: int, ds: seq<int>): int { Scaled(zr, |ds|) + Value(ds) }

  /** total is n wholes, up to multiples of 8, and the fraction. */
  ghost predicate Parts(total: int, q0: int, n: int, zr: int, ds: seq<int>, k: int)
    requires q0 < 3 && ds != []
  {
    total == Scaled(Unit(q0) * (8 * k + n), Places(q0, |ds|)) + Fraction(zr, ds)
  }

  /** A number is at least half of 2h powers exactly when its leading part is at
      least h. */
  lemma HalfTop(low: int, t: int, h: int, k: nat)
    requires 0 <= low < Scaled(1, k)
    ensures 2 * (low + Scaled(t, k)) >= Scaled(2 * h, k) <==> t >= h
  {
    ScaledAdd(h, h, k);
    ScaledAdd(t, 1, k);
    if t >= h { ScaledMonotone(h, t, k); } else { ScaledMonotone(t + 1, h, k); }
  }

  ghost predicate AtLeastHalf(q0: int, zr: int, ds: seq<int>)
    requires q0 < 3 && ds != []
  {
    2 * Fraction(zr, ds) >= Scaled(Unit(q0), Places(q0, |ds|))
  }

  lemma TopTrim(z: nat, ds: seq<int>, es: seq<int>, q0: int, w: nat, i: nat)
    requires 0 < q0 < 3 && Digits(ds) && ds != [] && es == ds[|ds| - 1 := ds[|ds| - 1] - i * Span(q0)]
    requires Digits(es) && w * Span(q0) == z * BASE
    ensures Scaled(z, |ds|) + Value(ds) == Scaled(Span(q0) * (w + i), |ds| - 1) + Fraction(0, es)
  {
    var k, t := |ds| - 1, ds[|ds| - 1];
    var u := t - i * Span(q0);
    TopChange(ds, u);
    ScaledBase(z, k);
    ScaledAdd(Span(q0) * w, Span(q0) * i, k);
    ScaledAdd(Span(q0) * i, u, k);
    assert Span(q0) * (w + i) == Span(q0) * w + Span(q0) * i;
    assert Span(q0) * i == i * Span(q0) && BASE * z == Span(q0) * w;
    ScaledMonotone(0, 0, |ds|);
  }

  lemma TopHalf(es: seq<int>, m: nat)
    requires Digits(es) && es != [] && m > 0
    ensures 2 * Value(es) >= Scaled(2 * m, |es| - 1) <==> es[|es| - 1] >= m
  {
    ValueTop(es);
    ValueBound(es[..|es| - 1]);
    HalfTop(Value(es[..|es| - 1]), es[|es| - 1], m, |es| - 1);
  }

  /** The step for q0 > 0: the leading digit still holds whole parts. */
  method TrimTop(z: nat, iq: array<int>, jz: nat, q0: int) returns (n: int, ih: int, ghost k: int)
    requires 0 < jz == iq.Length && 0 < q0 < 3 && Digits(iq[..])
    modifies iq
    ensures Digits(iq[..]) && iq[jz - 1] < Span(q0) && (ih == 0 || ih == 1)
    ensures Parts(Scaled(z, jz) + Value(old(iq[..])), q0, n, 0, iq[..], k)
    ensures ih > 0 <==> AtLeastHalf(q0, 0, iq[..])
  {
    var w := if q0 == 1 then 2 * z else 4 * z;
    n := w % 8;
    k := w / 8;
    ghost var ds := iq[..];
    var i := if q0 == 1 then iq[jz - 1] / 0x80_0000 else iq[jz - 1] / 0x40_0000;
    n := n + i;
    iq[jz - 1] := iq[jz - 1] - (if q0 == 1 then i * 0x80_0000 else i * 0x40_0000);
    assert iq[..] == ds[jz - 1 := ds[jz - 1] - i * Span(q0)];
    TopTrim(z, ds, iq[..], q0, w, i);
    assert w + i == 8 * k + n;
    ih := if q0 == 1 then iq[jz - 1] / 0x40_0000 else iq[jz - 1] / 0x20_0000;
    TopHalf(iq[..], if q0 == 1 then 0x40_0000 else 0x20_0000);
    ScaledMonotone(0, 0, jz);
  }

  lemma LowTrim(z: nat, ds: seq<int>, s: nat, q: nat, zr: nat)
    requires z == s * q + zr
    ensures Scaled(z, |ds|) + Value(ds) == Scaled(s * q, |ds|) + Fraction(zr, ds)
  {
    ScaledAdd(s * q, zr, |ds|);
  }

  lemma LowParts(z: nat, ds: seq<int>, q0: int, s: nat, q: nat, zr: nat)
    requires q0 <= 0 && ds != [] && s == Unit(q0) && z == s * q + zr
    ensures Parts(Scaled(z, |ds|) + Value(ds), q0, q % 8, zr, ds, q / 8)
  {
    LowTrim(z, ds, s, q, zr);
    assert 8 * (q / 8) + q % 8 == q;
  }

  lemma LowHalf(ds: seq<int>, q0: int, zr: nat)
    requires Digits(ds) && ds != [] && q0 < 0
    ensures AtLeastHalf(q0, zr, ds) <==> 2 * zr >= Unit(q0)
  {
    ValueBound(ds);
    HalfTop(Value(ds), zr, Bits.Pow2(-q0 - 1), |ds|);
  }

  lemma UnitHalf(ds: seq<int>)
    requires Digits(ds) && ds != []
    ensures AtLeastHalf(0, 0, ds) <==> ds[|ds| - 1] >= 0x80_0000
  {
    TopHalf(ds, 0x80_0000);
    ScaledBase(1, |ds| - 1);
    ScaledMonotone(0, 0, |ds|);
  }

  /** scalbn by a negative power, and its whole part. */
  method WholePart(z: nat, s: nat) returns (q: nat, r: nat)
    requires s > 0
    ensures z == s * q + r && r < s
  {
    q, r := z / s, z % s;
  }

  /** The step for q0 <= 0: the digits are all fraction. */
  method TrimLow(z: nat, iq: array<int>, jz: nat, q0: int) returns (n: int, zr: nat, ih: int, ghost k: int)
    requires 0 < jz == iq.Length && q0 <= 0 && Digits(iq[..])
    ensures zr < Unit(q0) && 0 <= ih <= 2 && (q0 < 0 ==> ih == 0 || ih == 2) && (q0 == 0 ==> ih < 2)
    ensures Parts(Scaled(z, jz) + Value(iq[..]), q0, n, zr, iq[..], k)
    ensures ih > 0 <==> AtLeastHalf(q0, zr, iq[..])
  {
    var s := Bits.Pow2(-q0);
    var q;
    q, zr := WholePart(z, s);
    n := q % 8;
    k := q / 8;
    LowParts(z, iq[..], q0, s, q, zr);
    if q0 == 0 {
      ih := iq[jz - 1] / 0x80_0000;
      UnitHalf(iq[..]);
    } else {
      ih := if 2 * zr >= s then 2 else 0;
      LowHalf(iq[..], q0, zr);
    }
  }

  /** Lines 308 to 347 together: n is the whole number nearest to the total, up to
      multiples of 8, and what is left is the distance to it, at most a half. */
  ghost predicate Nearest(total: int, q0: int, n: int, up: bool, zr: int, ds: seq<int>)
    requires q0 < 3 && ds != []
  {
    var one, rest := Scaled(Unit(q0), Places(q0, |ds|)), Fraction(zr, ds);
    && 0 <= rest && (if up then 2 * rest <= one else 2 * rest < one)
    && exists k: int :: total == Eights(q0, |ds|, n, k) + (if up then -rest else rest)
  }

  function Eights(q0: int, jz: nat, n: int, k: int): int
    requires q0 < 3 && jz > 0
  {
    Scaled(Unit(q0) * (8 * k + n), Places(q0, jz))
  }

  /** Rounding up: the complement of the fraction is taken off one more whole. */
  lemma RoundUp(total: int, q0: int, n: int, zr: int, ds: seq<int>, k: int, zr': int, es: seq<int>)
    requires q0 < 3 && ds != [] && |es| == |ds| && Parts(total, q0, n, zr, ds, k) && AtLeastHalf(q0, zr, ds)
    requires Fraction(zr', es) == Scaled(Unit(q0), Places(q0, |ds|)) - Fraction(zr, ds) && Fraction(zr', es) >= 0
    ensures Nearest(total, q0, n + 1, true, zr', es)
  {
    var u, p := Unit(q0), Places(q0, |ds|);
    ScaledAdd(u * (8 * k + n), u, p);
    assert u * (8 * k + n) + u == u * (8 * k + (n + 1));
    assert total == Eights(q0, |ds|, n + 1, k) - Fraction(zr', es);
  }

  /** The complement of the whole fraction, leading term included. */
  lemma Complemented(q0: int, zr: nat, ds: seq<int>, carry: bool, zr': int, es: seq<int>)
    requires q0 < 3 && ds != [] && |es| == |ds| && Digits(ds) && (carry <==> Value(ds) != 0)
    requires Value(es) == if carry then Scaled(Span(q0), |ds| - 1) - Value(ds) else 0
    requires q0 >= 0 ==> carry && zr == 0 && zr' == 0
    requires q0 < 0 ==> zr' == Unit(q0) - zr - (if carry then 1 else 0)
    ensures Fraction(zr', es) == Scaled(Unit(q0), Places(q0, |ds|)) - Fraction(zr, ds)
  {
    ScaledMonotone(0, 0, |ds|);
    ScaledBase(1, |ds| - 1);
    if q0 < 0 {
      ScaledAdd(zr', zr, |ds|);
      ScaledAdd(zr' + zr, if carry then 1 else 0, |ds|);
    }
  }

  /** The whole step: trim, compare with a half, and complement if that is nearer. */
  method RoundToNearest(z: nat, iq: array<int>, jz: nat, q0: int) returns (n: int, ih: int, zr: int)
    requires 0 < jz == iq.Length && q0 < 3 && Digits(iq[..])
    modifies iq
    ensures Digits(iq[..]) && Nearest(Scaled(z, jz) + Value(old(iq[..])), q0, n, ih > 0, zr, iq[..])
  {
    ghost var total, k := Scaled(z, jz) + Value(iq[..]), 0;
    if q0 > 0 {
      n, ih, k := TrimTop(z, iq, jz, q0);
      zr := 0;
    } else {
      n, zr, ih, k := TrimLow(z, iq, jz, q0);
    }
    assert iq[..jz] == iq[..];
    ghost var ds, zr0 := iq[..], zr;
    ValueBound(ds);
    ScaledMonotone(0, zr0, jz);
    ScaledMonotone(0, Unit(q0), Places(q0, jz));
    if ih > 0 {
      n := n + 1;
      var carry := Flip(iq, jz, q0);
      if ih == 2 {
        zr := Bits.Pow2(-q0) - zr - (if carry then 1 else 0);
      }
      assert iq[..jz] == iq[..];
      ValueBound(iq[..]);
      Complemented(q0, zr0, ds, carry, zr, iq[..]);
      ScaledMonotone(0, zr, jz);
      RoundUp(total, q0, n - 1, zr0, ds, k, zr, iq[..]);
    } else {
      assert total == Eights(q0, jz, n, k) + Fraction(zr, ds);
    }
  }

  /** The product terms, most significant first. */
  function TermList(x: seq<nat>, f: seq<nat>, jk: nat): seq<int>
    requires 1 <= |x| && |f| == |x| + jk
  {
    seq(jk + 1, i requires 0 <= i <= jk => Term(x, f, i, |x|))
  }

  /** The integer kernel from end to end: the exact sum of the product terms is n
      wholes, up to multiples of 8, and a distance of at most a half. */
  method Reduce(x: seq<nat>, f: seq<nat>, jk: nat, q0: int) returns (n: int, ih: int, zr: int, iq: array<int>)
    requires 1 <= |x| <= 3 && jk > 0 && |f| == |x| + jk && q0 < 3 && Digits(x) && Digits(f)
    ensures iq.Length == jk && Digits(iq[..]) && Nearest(Weighted(TermList(x, f, jk)), q0, n, ih > 0, zr, iq[..])
  {
    var q := Terms(x, f, jk);
    var z;
    iq, z := Distill(q, jk);
    assert q[..jk + 1] == TermList(x, f, jk);
    n, ih, zr := RoundToNearest(z, iq, jk, q0);
  }
}

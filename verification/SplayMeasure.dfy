/**
 The measures behind the cost of splaying, and that they obey the laws the
 analysis uses.
 */
module SplayMeasure {
  import opened Bits
  import opened RbShape
  import opened SplayTrees
  import opened SplayCost

  /** floor(log2 n), and 0 for 0. */
  function Log(n: nat): nat { if n == 0 then 0 else Fls(n) }

  lemma LogMonotone(a: nat, b: nat)
    requires a <= b
    ensures Log(a) <= Log(b)
  {
    if a != 0 { Pow2Strict(Log(a), Log(b) + 1); }
  }

  lemma LogParted(a: nat, b: nat, c: nat)
    requires 0 < a && 0 < b && a + b <= c
    ensures Log(a) + Log(b) + 1 <= 2 * Log(c)
  {
    LogMonotone(a, c);
    LogMonotone(b, c);
    assert Log(a) == Log(c) ==> Pow2(Log(c)) <= a;
    assert Log(b) == Log(c) ==> Pow2(Log(c)) <= b;
  }

  /** The sum of the logarithms of the sizes of all subtrees. */
  function Potential(t: Tr): nat { if t.Nil? then 0 else Log(Size(t)) + Potential(t.l) + Potential(t.r) }

  /** The nodes that will be linked on side s when k is sought. */
  function Count(t: Tr, key: Keys, k: int, s: Side): nat {
    if t.Nil? then 0 else Count(t.l, key, k, s) + (if Past(key, k, s, t.x) then 1 else 0) + Count(t.r, key, k, s)
  }

  lemma {:induction false} CountAll(t: Tr, key: Keys, k: int, s: Side)
    requires AllPast(t, key, k, s)
    ensures Count(t, key, k, s) == Size(t) && Count(t, key, k, s.Other()) == 0
    decreases t
  {
    if t.Node? {
      assert t.x in Nodes(t);
      CountAll(t.l, key, k, s);
      CountAll(t.r, key, k, s);
    }
  }

  lemma {:induction false} CountBoth(t: Tr, key: Keys, k: int, s: Side)
    ensures Count(t, key, k, s) + Count(t, key, k, s.Other()) <= Size(t)
    decreases t
  {
    if t.Node? {
      CountBoth(t.l, key, k, s);
      CountBoth(t.r, key, k, s);
    }
  }

  /** Size, potential and logarithm, kept as values so that proofs about programs do
      not unfold them. */
  datatype Scale = Scale(size: Tr -> nat, pot: Tr -> nat, lg: nat -> nat)

  ghost predicate Reads(sc: Scale, t: Tr) { sc.size(t) == Size(t) && sc.pot(t) == Potential(t) }

  ghost predicate ReadsLog(sc: Scale, n: nat) { sc.lg(n) == Log(n) }

  /** The scale is what it says. */
  ghost predicate True(sc: Scale) {
    && (forall t {:trigger Reads(sc, t)} :: Reads(sc, t))
    && (forall n {:trigger ReadsLog(sc, n)} :: ReadsLog(sc, n))
  }

  lemma SomeScale() returns (sc: Scale)
    ensures True(sc)
  {
    sc := Scale(Size, Potential, Log);
  }

  lemma LgMonotone(sc: Scale, a: nat, b: nat)
    requires True(sc) && a <= b
    ensures sc.lg(a) <= sc.lg(b)
  {
    LogMonotone(a, b);
    assert ReadsLog(sc, a) && ReadsLog(sc, b);
  }

  /** The gauge of a scale while k is sought. */
  function Measure(sc: Scale, key: Keys, k: int): Gauge {
    Gauge(sc.size, (t, s) => Count(t, key, k, s), sc.pot, sc.lg)
  }

  lemma MakePotential(s: Side, x: int, a: Tr, b: Tr)
    ensures Size(Make(s, x, a, b)) == Size(a) + 1 + Size(b)
    ensures Potential(Make(s, x, a, b)) == Log(Size(Make(s, x, a, b))) + Potential(a) + Potential(b)
  {}

  lemma ScaleMake(sc: Scale, s: Side, x: int, a: Tr, b: Tr)
    requires True(sc)
    ensures sc.size(Make(s, x, a, b)) == sc.size(a) + 1 + sc.size(b)
    ensures sc.pot(Make(s, x, a, b)) == sc.lg(sc.size(Make(s, x, a, b))) + sc.pot(a) + sc.pot(b)
  {
    MakePotential(s, x, a, b);
    assert Reads(sc, Make(s, x, a, b)) && Reads(sc, a) && Reads(sc, b) && ReadsLog(sc, Size(Make(s, x, a, b)));
  }

  lemma MeasureCounted(sc: Scale, key: Keys, k: int, q: Side, x: int, a: Tr, b: Tr, s: Side)
    ensures Counted(Measure(sc, key, k), key, k, q, x, a, b, s)
  {}

  lemma MeasureSided(sc: Scale, key: Keys, k: int, t: Tr, s: Side)
    requires True(sc)
    ensures Sided(Measure(sc, key, k), key, k, t, s)
  {
    assert Reads(sc, t);
    CountBoth(t, key, k, s);
    if AllPast(t, key, k, s) { CountAll(t, key, k, s); }
  }

  lemma MeasureRanks(sc: Scale, key: Keys, k: int, a: nat, b: nat, c: nat)
    requires True(sc)
    ensures Monotone(Measure(sc, key, k), a, b) && Parted(Measure(sc, key, k), a, b, c)
  {
    assert ReadsLog(sc, a) && ReadsLog(sc, b) && ReadsLog(sc, c);
    if a <= b { LogMonotone(a, b); }
    if 0 < a && 0 < b && a + b <= c { LogParted(a, b, c); }
  }

  lemma MeasureLawful(sc: Scale, key: Keys, k: int)
    requires True(sc)
    ensures Lawful(Measure(sc, key, k), key, k)
  {
    var g := Measure(sc, key, k);
    forall s, x, a, b ensures Sized(g, s, x, a, b) { ScaleMake(sc, s, x, a, b); }
    forall q, x, a, b, s ensures Counted(g, key, k, q, x, a, b, s) { MeasureCounted(sc, key, k, q, x, a, b, s); }
    forall t, s ensures Sided(g, key, k, t, s) { MeasureSided(sc, key, k, t, s); }
    forall a: nat, b: nat ensures Monotone(g, a, b) { MeasureRanks(sc, key, k, a, b, 0); }
    forall a: nat, b: nat, c: nat ensures Parted(g, a, b, c) { MeasureRanks(sc, key, k, a, b, c); }
  }

  /** A gauge for k on this scale. */
  lemma GaugeFor(sc: Scale, key: Keys, k: int) returns (g: Gauge)
    requires True(sc)
    ensures Lawful(g, key, k) && g.size == sc.size && g.pot == sc.pot && g.rank == sc.lg
  {
    g := Measure(sc, key, k);
    MeasureLawful(sc, key, k);
  }

  lemma {:induction false} SizeIn(t: Tr)
    ensures Size(t) == |In(t)|
    decreases t
  {
    if t.Node? {
      SizeIn(t.l);
      SizeIn(t.r);
    }
  }

  /** The size on a scale is the length of the in-order sequence. */
  lemma ScaleIn(sc: Scale, t: Tr)
    requires True(sc)
    ensures sc.size(t) == |In(t)|
  {
    SizeIn(t);
    assert Reads(sc, t);
  }

  /** Putting a node on top of a split tree. */
  lemma PutPotential(sc: Scale, t: Tr, s: Side, x: int)
    requires True(sc) && t.Node?
    ensures var t' := Make(s, x, Child(t, s), Make(s, t.x, Nil, Child(t, s.Other())));
            sc.size(t') == sc.size(t) + 1 && sc.pot(t') <= sc.pot(t) + sc.lg(sc.size(t'))
  {
    var a, b := Child(t, s), Child(t, s.Other());
    var c := Make(s, t.x, Nil, b);
    MakeChildren(t, s);
    ScaleMake(sc, s, t.x, a, b);
    ScaleMake(sc, s, t.x, Nil, b);
    ScaleMake(sc, s, x, a, c);
    ScaleNil(sc);
    LgMonotone(sc, sc.size(c), sc.size(t));
  }

  lemma ScaleNil(sc: Scale)
    requires True(sc)
    ensures sc.size(Nil) == 0 && sc.pot(Nil) == 0 && sc.lg(1) == 0
  {
    assert Reads(sc, Nil) && ReadsLog(sc, 1);
    assert Log(1) == 0;
  }

  /** Hanging r on the right of a tree that has nothing there. */
  lemma GraftPotential(sc: Scale, t: Tr, r: Tr)
    requires True(sc) && t.Node? && t.r.Nil?
    ensures var t' := Node(t.l, t.x, r);
            sc.size(t') == sc.size(t) + sc.size(r) && sc.pot(t') <= sc.pot(t) + sc.pot(r) + sc.lg(sc.size(t'))
  {
    ScaleMake(sc, L, t.x, t.l, t.r);
    ScaleMake(sc, L, t.x, t.l, r);
    ScaleNil(sc);
    assert t == Make(L, t.x, t.l, t.r) && Node(t.l, t.x, r) == Make(L, t.x, t.l, r);
  }
}

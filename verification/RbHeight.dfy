/**
 How deep a red-black tree is: at most 2 lg(n + 1) for n nodes.
 */
module RbHeight {
  import opened Bits
  import opened RbShape
  import opened RbColors
  import opened RbReach

  function Max(a: nat, b: nat): nat { if a < b then b else a }

  /** Nodes on the longest path down from x. */
  ghost function Depth(t: Tree, n: set<int>, sp: Spans, x: int): nat
    requires Shape(t, n, sp) && (x == 0 || x in n)
    decreases Room(t, n, sp, x)
  {
    if x == 0 then 0
    else
      KidRoom(t, n, sp, x, L);
      KidRoom(t, n, sp, x, R);
      1 + Max(Depth(t, n, sp, t.kid(x, L)), Depth(t, n, sp, t.kid(x, R)))
  }

  /** The two subtrees of a node share nothing. */
  lemma Disjoint(t: Tree, n: set<int>, sp: Spans, x: int)
    requires Shape(t, n, sp) && x in n
    ensures (t.kid(x, L) == 0 || t.kid(x, L) in n) && (t.kid(x, R) == 0 || t.kid(x, R) in n)
    ensures |Sub(t, n, sp, x)| == 1 + |Sub(t, n, sp, t.kid(x, L))| + |Sub(t, n, sp, t.kid(x, R))|
  {
    assert NodeOk(t, n, sp, x);
    var a, b := Sub(t, n, sp, t.kid(x, L)), Sub(t, n, sp, t.kid(x, R));
    forall z | z in a ensures t.key(z) < t.key(x) {
      SubSpan(t, n, sp, t.kid(x, L), z);
      PartWithin(sp(x), t.key(x), L, t.key(z));
    }
    forall z | z in b ensures t.key(x) < t.key(z) {
      SubSpan(t, n, sp, t.kid(x, R), z);
      PartWithin(sp(x), t.key(x), R, t.key(z));
    }
    CountApart(x, a, b);
  }

  lemma CountApart(x: int, a: set<int>, b: set<int>)
    requires a !! b && x !in a && x !in b
    ensures |{x} + a + b| == 1 + |a| + |b|
  {
    assert |({x} + a) + b| == |{x} + a| + |b|;
  }

  /** At least half of any path is black. */
  lemma {:induction false} DepthBlack(t: Tree, n: set<int>, sp: Spans, bh: Heights, x: int)
    requires Shape(t, n, sp) && Balanced(t, n, bh) && (x == 0 || x in n)
    ensures Depth(t, n, sp, x) <= 2 * Black(t, bh, x) + (if t.IsRed(x) then 1 else 0)
    decreases Room(t, n, sp, x)
  {
    if x != 0 {
      assert HeightOk(t, bh, x) && RedOk(t, 0, x) && NodeOk(t, n, sp, x);
      KidRoom(t, n, sp, x, L);
      KidRoom(t, n, sp, x, R);
      DepthBlack(t, n, sp, bh, t.kid(x, L));
      DepthBlack(t, n, sp, bh, t.kid(x, R));
    }
  }

  /** Equal black heights need exponentially many nodes. */
  lemma {:induction false} BlackNodes(t: Tree, n: set<int>, sp: Spans, bh: Heights, x: int)
    requires Shape(t, n, sp) && Balanced(t, n, bh) && (x == 0 || x in n)
    ensures Pow2(Black(t, bh, x)) <= |Sub(t, n, sp, x)| + 1
    decreases Room(t, n, sp, x)
  {
    if x != 0 {
      assert HeightOk(t, bh, x) && NodeOk(t, n, sp, x);
      KidRoom(t, n, sp, x, L);
      KidRoom(t, n, sp, x, R);
      BlackNodes(t, n, sp, bh, t.kid(x, L));
      BlackNodes(t, n, sp, bh, t.kid(x, R));
      Disjoint(t, n, sp, x);
      assert Pow2(bh(x) + 1) == 2 * Pow2(bh(x));
    }
  }

  /** 2^depth <= (n + 1)^2, that is depth <= 2 lg(n + 1). */
  lemma Logarithmic(t: Tree, n: set<int>, sp: Spans, bh: Heights)
    requires Shape(t, n, sp) && Balanced(t, n, bh)
    ensures t.root == 0 || t.root in n
    ensures Pow2(Depth(t, n, sp, t.root)) <= (|n| + 1) * (|n| + 1)
  {
    AllReached(t, n, sp);
    DepthBlack(t, n, sp, bh, t.root);
    BlackNodes(t, n, sp, bh, t.root);
    Squares(Depth(t, n, sp, t.root), Black(t, bh, t.root), |n| + 1);
  }

  lemma Squares(d: nat, b: nat, m: nat)
    requires d <= 2 * b && Pow2(b) <= m
    ensures Pow2(d) <= m * m
  {
    Pow2Monotone(d, 2 * b);
    Pow2Add(b, b);
    SquareMonotone(Pow2(b), m);
  }

  lemma SquareMonotone(p: nat, m: nat)
    requires p <= m
    ensures p * p <= m * m
  {
    var e := m - p;
    assert m * m == p * p + 2 * (p * e) + e * e;
  }
}

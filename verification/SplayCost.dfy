/**
 What splaying costs.  The potential of a tree is the sum over its subtrees of
 floor(log2) of their sizes; midway through a splay, a node on a spine counts
 with the size its subtree will have in the end.  A round that does not pay for
 itself by lowering the potential is followed by one that pays for both.
 */
module SplayCost {
  import opened RbShape
  import opened SplayTrees

  /** How trees are measured while key k is sought: their sizes, the nodes on either
      side of k, their potentials, and the logarithm that makes them. */
  datatype Gauge = Gauge(size: Tr -> nat, count: (Tr, Side) -> nat, pot: Tr -> nat, rank: nat -> nat)

  /** z lies where the nodes go that are linked on side s. */
  predicate Past(key: Keys, k: int, s: Side, z: int) { if s == L then k < key(z) else key(z) < k }

  ghost predicate AllPast(t: Tr, key: Keys, k: int, s: Side) { forall z :: z in Nodes(t) ==> Past(key, k, s, z) }

  // ---- the laws of a gauge, each to be called on when needed

  ghost predicate Sized(g: Gauge, s: Side, x: int, a: Tr, b: Tr) {
    && g.size(Make(s, x, a, b)) == g.size(a) + 1 + g.size(b)
    && g.pot(Make(s, x, a, b)) == g.rank(g.size(Make(s, x, a, b))) + g.pot(a) + g.pot(b)
  }

  ghost predicate Counted(g: Gauge, key: Keys, k: int, q: Side, x: int, a: Tr, b: Tr, s: Side) {
    g.count(Make(q, x, a, b), s) == g.count(a, s) + (if Past(key, k, s, x) then 1 else 0) + g.count(b, s)
  }

  ghost predicate Sided(g: Gauge, key: Keys, k: int, t: Tr, s: Side) {
    && g.count(t, s) + g.count(t, s.Other()) <= g.size(t)
    && (AllPast(t, key, k, s) ==> g.count(t, s) == g.size(t) && g.count(t, s.Other()) == 0)
  }

  predicate Monotone(g: Gauge, a: nat, b: nat) { a <= b ==> g.rank(a) <= g.rank(b) }

  /** Two parts of a whole do not both have its rank. */
  predicate Parted(g: Gauge, a: nat, b: nat, c: nat) {
    0 < a && 0 < b && a + b <= c ==> g.rank(a) + g.rank(b) + 1 <= 2 * g.rank(c)
  }

  ghost predicate Lawful(g: Gauge, key: Keys, k: int) {
    && (forall s, x, a, b {:trigger Sized(g, s, x, a, b)} :: Sized(g, s, x, a, b))
    && (forall q, x, a, b, s {:trigger Counted(g, key, k, q, x, a, b, s)} :: Counted(g, key, k, q, x, a, b, s))
    && (forall t, s {:trigger Sided(g, key, k, t, s)} :: Sided(g, key, k, t, s))
    && (forall a, b {:trigger Monotone(g, a, b)} :: Monotone(g, a, b))
    && (forall a, b, c {:trigger Parted(g, a, b, c)} :: Parted(g, a, b, c))
  }

  lemma MakeChildren(t: Tr, s: Side)
    requires t.Node?
    ensures t == Make(s, t.x, Child(t, s), Child(t, s.Other()))
  {}

  lemma MakeChild(x: int, a: Tr, b: Tr, s: Side)
    ensures Make(s, x, a, b).Node? && Child(Make(s, x, a, b), s) == a && Child(Make(s, x, a, b), s.Other()) == b
  {}

  lemma NodeSize(g: Gauge, key: Keys, k: int, t: Tr, s: Side)
    requires Lawful(g, key, k) && t.Node?
    ensures g.size(t) == g.size(Child(t, s)) + 1 + g.size(Child(t, s.Other()))
    ensures g.pot(t) == g.rank(g.size(t)) + g.pot(Child(t, s)) + g.pot(Child(t, s.Other()))
  {
    MakeChildren(t, s);
    assert Sized(g, s, t.x, Child(t, s), Child(t, s.Other()));
  }

  lemma NodeCount(g: Gauge, key: Keys, k: int, t: Tr, q: Side, s: Side)
    requires Lawful(g, key, k) && t.Node?
    ensures g.count(t, s)
         == g.count(Child(t, q), s) + (if Past(key, k, s, t.x) then 1 else 0) + g.count(Child(t, q.Other()), s)
  {
    MakeChildren(t, q);
    assert Counted(g, key, k, q, t.x, Child(t, q), Child(t, q.Other()), s);
  }

  // ---- spines

  /** Every item counts with what lies inside it; c nodes are to come at the end. */
  function SpinePot(g: Gauge, sp: Spine, c: nat): nat {
    if sp == [] then 0
    else
      var sub := sp[|sp| - 1].sub;
      var n := 1 + g.size(sub) + c;
      SpinePot(g, sp[..|sp| - 1], n) + g.rank(n) + g.pot(sub)
  }

  /** An item more takes its size out of what is to come. */
  lemma SpineGrows(g: Gauge, sp: Spine, it: Item, c: nat, n: nat)
    requires n == 1 + g.size(it.sub) + c
    ensures SpinePot(g, sp + [it], c) == SpinePot(g, sp, n) + g.rank(n) + g.pot(it.sub)
  {
    assert (sp + [it])[..|sp|] == sp;
  }

  lemma {:induction false} SpineMonotone(g: Gauge, key: Keys, k: int, sp: Spine, c: nat, d: nat)
    requires Lawful(g, key, k) && c <= d
    ensures SpinePot(g, sp, c) <= SpinePot(g, sp, d)
    decreases |sp|
  {
    if sp != [] {
      var n := 1 + g.size(sp[|sp| - 1].sub);
      SpineMonotone(g, key, k, sp[..|sp| - 1], n + c, n + d);
      assert Monotone(g, n + c, n + d);
    }
  }

  /** A spine with a tree at its end is a tree of these potentials. */
  lemma {:induction false} BuildPot(g: Gauge, key: Keys, k: int, sp: Spine, c: Side, u: Tr)
    requires Lawful(g, key, k)
    ensures g.pot(Build(sp, c, u)) == SpinePot(g, sp, g.size(u)) + g.pot(u)
    decreases |sp|
  {
    if sp != [] {
      var it := sp[|sp| - 1];
      var w := Make(c, it.x, u, it.sub);
      assert Sized(g, c, it.x, u, it.sub);
      assert g.size(w) == 1 + g.size(it.sub) + g.size(u);
      BuildPot(g, key, k, sp[..|sp| - 1], c, w);
    }
  }

  // ---- a splay under way

  /** The potential midway: the spines are already counted as they will be. */
  function Tension(g: Gauge, m: Tr, spL: Spine, spR: Spine): nat {
    g.pot(m) + SpinePot(g, spL, g.count(m, L)) + SpinePot(g, spR, g.count(m, R))
  }

  /** The spines after linking the root on side s. */
  function LinkedL(m: Tr, spL: Spine, s: Side): Spine
    requires m.Node?
  {
    if s == L then spL + [Item(m.x, m.r)] else spL
  }

  function LinkedR(m: Tr, spR: Spine, s: Side): Spine
    requires m.Node?
  {
    if s == R then spR + [Item(m.x, m.l)] else spR
  }

  /** The root and what is on its far side all go to the spine of side s. */
  ghost predicate Outer(m: Tr, key: Keys, k: int, s: Side) {
    m.Node? && Past(key, k, s, m.x) && AllPast(Child(m, s.Other()), key, k, s)
  }

  lemma OuterCounts(g: Gauge, key: Keys, k: int, m: Tr, s: Side)
    requires Lawful(g, key, k) && Outer(m, key, k, s)
    ensures g.count(m, s) == 1 + g.size(Child(m, s.Other())) + g.count(Child(m, s), s)
    ensures g.count(m, s.Other()) == g.count(Child(m, s), s.Other())
  {
    NodeCount(g, key, k, m, s, s);
    NodeCount(g, key, k, m, s, s.Other());
    assert Sided(g, key, k, Child(m, s.Other()), s);
  }

  /** Linking replaces the root's rank by that of the nodes on its side of k. */
  lemma LinkTension(g: Gauge, key: Keys, k: int, m: Tr, spL: Spine, spR: Spine, s: Side)
    requires Lawful(g, key, k) && Outer(m, key, k, s)
    ensures Tension(g, Child(m, s), LinkedL(m, spL, s), LinkedR(m, spR, s)) + g.rank(g.size(m))
         == Tension(g, m, spL, spR) + g.rank(g.count(m, s))
  {
    OuterCounts(g, key, k, m, s);
    NodeSize(g, key, k, m, s);
    SpineGrows(g, if s == L then spL else spR, Item(m.x, Child(m, s.Other())), g.count(Child(m, s), s), g.count(m, s));
  }

  /** A rotation of m to t: y is the old child, w what t has on the other side. */
  ghost predicate Rotation(m: Tr, s: Side, y: Tr, t: Tr, x: Tr, w: Tr) {
    && m.Node? && y == Child(m, s) && y.Node? && t == Turned(m, s)
    && x == Child(y, s) && w == Make(s, m.x, Child(y, s.Other()), Child(m, s.Other()))
  }

  lemma RotationSizes(g: Gauge, key: Keys, k: int, m: Tr, s: Side, y: Tr, t: Tr, x: Tr, w: Tr)
    requires Lawful(g, key, k) && Rotation(m, s, y, t, x, w)
    ensures g.size(m) == g.size(t) == g.size(x) + 1 + g.size(w) && g.size(x) < g.size(y) && 0 < g.size(w)
    ensures g.pot(t) + g.rank(g.size(y)) == g.pot(m) + g.rank(g.size(w))
  {
    var b, c := Child(y, s.Other()), Child(m, s.Other());
    NodeSize(g, key, k, m, s);
    NodeSize(g, key, k, y, s);
    assert Sized(g, s, m.x, b, c) && Sized(g, s, y.x, x, w);
  }

  lemma RotationCounts(g: Gauge, key: Keys, k: int, m: Tr, s: Side, y: Tr, t: Tr, x: Tr, w: Tr, q: Side)
    requires Lawful(g, key, k) && Rotation(m, s, y, t, x, w)
    ensures g.count(t, q) == g.count(m, q)
  {
    var b, c := Child(y, s.Other()), Child(m, s.Other());
    NodeCount(g, key, k, m, s, q);
    NodeCount(g, key, k, y, s, q);
    assert Counted(g, key, k, s, m.x, b, c, q) && Counted(g, key, k, s, y.x, x, w, q);
  }

  /** A rotation changes two ranks. */
  lemma TurnTension(g: Gauge, key: Keys, k: int, m: Tr, spL: Spine, spR: Spine, s: Side, y: Tr, t: Tr, x: Tr, w: Tr)
    requires Lawful(g, key, k) && Rotation(m, s, y, t, x, w)
    ensures Tension(g, t, spL, spR) + g.rank(g.size(y)) == Tension(g, m, spL, spR) + g.rank(g.size(w))
  {
    RotationSizes(g, key, k, m, s, y, t, x, w);
    RotationCounts(g, key, k, m, s, y, t, x, w, L);
    RotationCounts(g, key, k, m, s, y, t, x, w, R);
  }

  // ---- what a round pays

  /** A round was left unpaid; then the next one finds few nodes on its side. */
  ghost predicate Owed(g: Gauge, d: bool, m: Tr, key: Keys, k: int) {
    d && m.Node? && key(m.x) != k ==> g.rank(g.count(m, if k < key(m.x) then L else R)) < g.rank(g.size(m))
  }

  function Debt(d: bool): nat { if d then 1 else 0 }

  /** What is left to spend. */
  function Budget(g: Gauge, m: Tr, spL: Spine, spR: Spine): nat { 2 * Tension(g, m, spL, spR) + 4 * g.rank(g.size(m)) }

  lemma CountRank(g: Gauge, key: Keys, k: int, m: Tr, s: Side)
    requires Lawful(g, key, k)
    ensures g.rank(g.count(m, s)) <= g.rank(g.size(m))
  {
    assert Sided(g, key, k, m, s);
    assert Monotone(g, g.count(m, s), g.size(m));
  }

  /** A single link on side s: the search goes on at the child, on the other side. */
  lemma LinkPays(g: Gauge, key: Keys, k: int, m: Tr, spL: Spine, spR: Spine, s: Side, d: bool) returns (d': bool)
    requires Lawful(g, key, k) && Outer(m, key, k, s) && Child(m, s).Node? && Owed(g, d, m, key, k)
    requires !Past(key, k, s, Child(m, s).x)
    ensures Owed(g, d', Child(m, s), key, k)
    ensures 1 + Budget(g, Child(m, s), LinkedL(m, spL, s), LinkedR(m, spR, s)) + Debt(d)
         <= Budget(g, m, spL, spR) + Debt(d')
  {
    var y := Child(m, s);
    LinkTension(g, key, k, m, spL, spR, s);
    CountRank(g, key, k, m, s);
    NodeSize(g, key, k, m, s);
    assert Monotone(g, g.size(y), g.size(m));
    d' := g.rank(g.count(m, s)) == g.rank(g.size(m)) && g.rank(g.size(y)) == g.rank(g.size(m));
    if d' { OtherFew(g, key, k, m, y, s); }
  }

  lemma OtherFew(g: Gauge, key: Keys, k: int, m: Tr, y: Tr, s: Side)
    requires Lawful(g, key, k) && Outer(m, key, k, s) && y == Child(m, s) && y.Node?
    requires g.rank(g.count(m, s)) == g.rank(g.size(m)) == g.rank(g.size(y))
    ensures g.rank(g.count(y, s.Other())) < g.rank(g.size(y))
  {
    OuterCounts(g, key, k, m, s);
    NodeSize(g, key, k, m, s);
    NodeSize(g, key, k, y, s);
    assert Sided(g, key, k, m, s);
    assert Parted(g, g.count(m, s), g.count(m, s.Other()), g.size(m));
    assert Monotone(g, 0, 1) && Parted(g, 1, 1, 2) && Monotone(g, 2, g.size(m));
  }

  /** A rotation and a link on side s. */
  lemma DoublePays(g: Gauge, key: Keys, k: int, m: Tr, spL: Spine, spR: Spine, s: Side, d: bool, y: Tr, t: Tr, x: Tr,
                   w: Tr)
    requires Lawful(g, key, k) && Rotation(m, s, y, t, x, w) && x.Node? && Outer(t, key, k, s) && Child(t, s) == x
    requires d ==> g.rank(g.count(m, s)) < g.rank(g.size(m))
    ensures 1 + Budget(g, x, LinkedL(t, spL, s), LinkedR(t, spR, s)) + Debt(d) <= Budget(g, m, spL, spR)
  {
    TurnTension(g, key, k, m, spL, spR, s, y, t, x, w);
    LinkTension(g, key, k, t, spL, spR, s);
    RotationSizes(g, key, k, m, s, y, t, x, w);
    RotationCounts(g, key, k, m, s, y, t, x, w, s);
    CountRank(g, key, k, m, s);
    NodeSize(g, key, k, x, s);
    assert Monotone(g, g.size(x), g.size(y)) && Parted(g, g.size(w), g.size(x), g.size(m));
  }

  /** The last round may rotate. */
  lemma LastTurnPays(g: Gauge, key: Keys, k: int, m: Tr, spL: Spine, spR: Spine, s: Side, y: Tr, t: Tr, x: Tr, w: Tr)
    requires Lawful(g, key, k) && Rotation(m, s, y, t, x, w)
    ensures 2 * Tension(g, t, spL, spR) <= Budget(g, m, spL, spR)
  {
    TurnTension(g, key, k, m, spL, spR, s, y, t, x, w);
    RotationSizes(g, key, k, m, s, y, t, x, w);
    assert Monotone(g, g.size(w), g.size(m));
  }

  // ---- the end of a splay

  lemma AssembledPot(g: Gauge, key: Keys, k: int, m: Tr, spL: Spine, spR: Spine)
    requires Lawful(g, key, k) && m.Node? && g.size(m.r) <= g.count(m, L) && g.size(m.l) <= g.count(m, R)
    ensures var t := Assembled(m, spL, spR); g.pot(t) <= Tension(g, m, spL, spR) + g.rank(g.size(t))
  {
    var l, r := Build(spR, R, m.l), Build(spL, L, m.r);
    BuildPot(g, key, k, spR, R, m.l);
    BuildPot(g, key, k, spL, L, m.r);
    SpineMonotone(g, key, k, spL, g.size(m.r), g.count(m, L));
    SpineMonotone(g, key, k, spR, g.size(m.l), g.count(m, R));
    NodeSize(g, key, k, m, L);
    assert Sized(g, L, m.x, l, r);
  }
}

/**
 Red-black trees of sys/tree.h: nodes by address, their link fields as stores,
 and the search-tree shape kept by local conditions on each node.
 */
module RbShape {

  datatype Side = L | R {
    function Other(): Side { if this == L then R else L }
  }

  /** The head and the RB_ENTRY fields of every node, by address; 0 is NULL.
      `kid` holds rbe_left and rbe_right, `key` is what cmp compares. */
  datatype Tree = Tree(root: int, kid: (int, Side) -> int, parent: int -> int, red: int -> bool, key: int -> int) {
    function WithKid(x: int, s: Side, v: int): Tree {
      this.(kid := (y, q) => if y == x && q == s then v else kid(y, q))
    }
    function WithParent(x: int, v: int): Tree { this.(parent := y => if y == x then v else parent(y)) }
    function WithRed(x: int, c: bool): Tree { this.(red := y => if y == x then c else red(y)) }

    predicate IsRed(x: int) { x != 0 && red(x) }

    /** The side of its parent x hangs on: `x == RB_LEFT(parent)` or not. */
    function SideOf(x: int): Side { if kid(parent(x), L) == x then L else R }
  }

  /** Exclusive bounds on the keys of a subtree. */
  datatype Bound = Low | At(key: int) | High
  datatype Span = Span(lo: Bound, hi: Bound) {
    predicate Has(k: int) {
      && (lo == Low || (lo.At? && lo.key < k))
      && (hi == High || (hi.At? && k < hi.key))
    }
    /** What is left of the span on one side of key k. */
    function Part(k: int, s: Side): Span { if s == L then Span(lo, At(k)) else Span(At(k), hi) }
  }

  type Spans = int -> Span

  function PutSpan(sp: Spans, x: int, v: Span): Spans { y => if y == x then v else sp(y) }

  /** A child is a node, points back, and has its part of the span. */
  predicate KidOk(t: Tree, n: set<int>, sp: Spans, x: int, s: Side) {
    t.kid(x, s) != 0 ==>
      t.kid(x, s) in n && t.parent(t.kid(x, s)) == x && sp(t.kid(x, s)) == sp(x).Part(t.key(x), s)
  }

  predicate ParentOk(t: Tree, n: set<int>, sp: Spans, x: int) {
    if t.parent(x) == 0 then x == t.root && sp(x) == Span(Low, High)
    else t.parent(x) in n && t.kid(t.parent(x), t.SideOf(x)) == x
  }

  predicate NodeOk(t: Tree, n: set<int>, sp: Spans, x: int) {
    && sp(x).Has(t.key(x)) && ParentOk(t, n, sp, x)
    && KidOk(t, n, sp, x, L) && KidOk(t, n, sp, x, R)
  }

  /** A search tree with sound parent links on exactly the nodes n. */
  ghost predicate Shape(t: Tree, n: set<int>, sp: Spans) {
    && 0 !in n && (if t.root == 0 then n == {} else t.root in n && t.parent(t.root) == 0)
    && forall x {:trigger NodeOk(t, n, sp, x)} :: x in n ==> NodeOk(t, n, sp, x)
  }

  /** A child differs from its parent and from its sibling. */
  lemma KidApart(t: Tree, n: set<int>, sp: Spans, x: int, s: Side)
    requires Shape(t, n, sp) && x in n && t.kid(x, s) != 0
    ensures t.kid(x, s) in n && t.parent(t.kid(x, s)) == x && t.kid(x, s) != x
    ensures sp(x).Part(t.key(x), s).Has(t.key(t.kid(x, s)))
    ensures t.kid(x, s) != t.kid(x, s.Other()) && t.SideOf(t.kid(x, s)) == s
  {
    assert NodeOk(t, n, sp, x);
    assert NodeOk(t, n, sp, t.kid(x, s));
  }

  // ---- rotation

  /** RB_ROTATE_LEFT for side L, RB_ROTATE_RIGHT for side R: x goes down on side s,
      its child y on the other side comes up. */
  function Rotate(t: Tree, x: int, s: Side): Tree {
    var y := t.kid(x, s.Other());
    var b, p := t.kid(y, s), t.parent(x);
    var t1 := t.WithKid(x, s.Other(), b);
    var t2 := if b != 0 then t1.WithParent(b, x) else t1;
    var t3 := t2.WithParent(y, p);
    var t4 := if p != 0 then t3.WithKid(p, if x == t3.kid(p, L) then L else R, y) else t3.(root := y);
    t4.WithKid(y, s, x).WithParent(x, y)
  }

  /** The spans after a rotation: y takes over x's, x keeps its part. */
  function RotateSpans(t: Tree, sp: Spans, x: int, s: Side): Spans {
    var y := t.kid(x, s.Other());
    PutSpan(PutSpan(sp, y, sp(x)), x, sp(x).Part(t.key(y), s))
  }

  /** The links after a rotation, field by field. */
  ghost predicate Rotated(t: Tree, r: Tree, x: int, s: Side) {
    var y := t.kid(x, s.Other());
    var b, p := t.kid(y, s), t.parent(x);
    && r.root == (if p == 0 then y else t.root)
    && (forall z, q :: r.kid(z, q) ==
          if z == y && q == s then x else if z == x && q == s.Other() then b
          else if p != 0 && z == p && q == t.SideOf(x) then y else t.kid(z, q))
    && (forall z :: r.parent(z) ==
          if z == x then y else if z == y then p else if b != 0 && z == b then x else t.parent(z))
    && r.red == t.red && r.key == t.key
  }

  /** The four nodes a rotation touches are distinct. */
  ghost predicate RotateNodes(t: Tree, n: set<int>, x: int, s: Side) {
    var y := t.kid(x, s.Other());
    var b, p := t.kid(y, s), t.parent(x);
    && x in n && y in n && y != x && t.parent(y) == x
    && (b != 0 ==> b in n && b != x && b != y && t.parent(b) == y)
    && (p != 0 ==> p in n && p != x && p != y && p != b && t.kid(p, t.SideOf(x)) == x)
  }

  lemma RotateApart(t: Tree, n: set<int>, sp: Spans, x: int, s: Side)
    requires Shape(t, n, sp) && x in n && t.kid(x, s.Other()) != 0
    ensures RotateNodes(t, n, x, s)
  {
    var y := t.kid(x, s.Other());
    KidApart(t, n, sp, x, s.Other());
    if t.kid(y, s) != 0 { KidApart(t, n, sp, y, s); }
    assert NodeOk(t, n, sp, x);
    if t.parent(x) != 0 { KidApart(t, n, sp, t.parent(x), t.SideOf(x)); assert NodeOk(t, n, sp, t.parent(x)); }
  }

  lemma RotateLinks(t: Tree, n: set<int>, x: int, s: Side)
    requires RotateNodes(t, n, x, s) && 0 !in n
    ensures Rotated(t, Rotate(t, x, s), x, s)
  {
  }

  /** Seen from any other node, a rotation puts y where x was. */
  lemma RotatedElsewhere(t: Tree, r: Tree, n: set<int>, sp: Spans, x: int, s: Side, z: int, q: Side)
    requires Shape(t, n, sp) && RotateNodes(t, n, x, s) && Rotated(t, r, x, s)
    requires z in n && z != x && z != t.kid(x, s.Other())
    ensures var y := t.kid(x, s.Other());
            if t.kid(z, q) == x then r.kid(z, q) == y && z == t.parent(x) else r.kid(z, q) == t.kid(z, q) != y
  {
    if t.kid(z, q) != 0 { KidApart(t, n, sp, z, q); }
    assert NodeOk(t, n, sp, x);
  }

  lemma RotatedKid(t: Tree, r: Tree, n: set<int>, sp: Spans, x: int, s: Side, z: int, q: Side)
    requires Shape(t, n, sp) && RotateNodes(t, n, x, s) && Rotated(t, r, x, s) && z in n
    ensures KidOk(r, n, RotateSpans(t, sp, x, s), z, q)
  {
    var y := t.kid(x, s.Other());
    if z == x {
      RotatedKidX(t, r, n, sp, x, s, q);
    } else if z == y {
      RotatedKidY(t, r, n, sp, x, s, q);
    } else {
      assert NodeOk(t, n, sp, x) && NodeOk(t, n, sp, z);
      RotatedElsewhere(t, r, n, sp, x, s, z, q);
      if t.kid(z, q) != 0 { KidApart(t, n, sp, z, q); }
    }
  }

  lemma RotatedKidX(t: Tree, r: Tree, n: set<int>, sp: Spans, x: int, s: Side, q: Side)
    requires Shape(t, n, sp) && RotateNodes(t, n, x, s) && Rotated(t, r, x, s)
    ensures KidOk(r, n, RotateSpans(t, sp, x, s), x, q)
  {
    assert NodeOk(t, n, sp, x) && NodeOk(t, n, sp, t.kid(x, s.Other()));
    if t.kid(x, q) != 0 { KidApart(t, n, sp, x, q); }
  }

  lemma RotatedKidY(t: Tree, r: Tree, n: set<int>, sp: Spans, x: int, s: Side, q: Side)
    requires Shape(t, n, sp) && RotateNodes(t, n, x, s) && Rotated(t, r, x, s)
    ensures KidOk(r, n, RotateSpans(t, sp, x, s), t.kid(x, s.Other()), q)
  {
    var y := t.kid(x, s.Other());
    assert NodeOk(t, n, sp, x) && NodeOk(t, n, sp, y);
    if t.kid(y, q) != 0 { KidApart(t, n, sp, y, q); }
  }

  lemma RotatedParent(t: Tree, r: Tree, n: set<int>, sp: Spans, x: int, s: Side, z: int)
    requires Shape(t, n, sp) && RotateNodes(t, n, x, s) && Rotated(t, r, x, s) && z in n
    ensures RotateSpans(t, sp, x, s)(z).Has(r.key(z)) && ParentOk(r, n, RotateSpans(t, sp, x, s), z)
  {
    var y := t.kid(x, s.Other());
    assert NodeOk(t, n, sp, x) && NodeOk(t, n, sp, y) && NodeOk(t, n, sp, z);
  }

  /** Rotation keeps the search tree and its parent links. */
  lemma RotateShape(t: Tree, n: set<int>, sp: Spans, x: int, s: Side)
    requires Shape(t, n, sp) && x in n && t.kid(x, s.Other()) != 0
    ensures RotateNodes(t, n, x, s) && Rotated(t, Rotate(t, x, s), x, s)
    ensures Shape(Rotate(t, x, s), n, RotateSpans(t, sp, x, s))
  {
    RotateApart(t, n, sp, x, s);
    RotateLinks(t, n, x, s);
    RotatedShape(t, Rotate(t, x, s), n, sp, x, s);
  }

  lemma RotatedShape(t: Tree, r: Tree, n: set<int>, sp: Spans, x: int, s: Side)
    requires Shape(t, n, sp) && RotateNodes(t, n, x, s) && Rotated(t, r, x, s)
    ensures Shape(r, n, RotateSpans(t, sp, x, s))
  {
    var sp' := RotateSpans(t, sp, x, s);
    assert NodeOk(t, n, sp, x);
    forall z | z in n ensures NodeOk(r, n, sp', z) {
      RotatedKid(t, r, n, sp, x, s, z, L);
      RotatedKid(t, r, n, sp, x, s, z, R);
      RotatedParent(t, r, n, sp, x, s, z);
    }
  }
}

/**
 RB_INSERT_COLOR: what each round of the loop keeps, as value lemmas.  The two
 mirrored halves of the C code are one here, by side.
 */
module RbInsert {
  import opened RbShape
  import opened RbColors

  /** Heights agree everywhere; the red node elm may have a red parent, nothing
      else is wrong; only elm may be a red root. */
  ghost predicate Pending(t: Tree, n: set<int>, sp: Spans, bh: Heights, elm: int) {
    && Shape(t, n, sp) && Heights_(t, n, bh, 0) && Reds(t, n, elm, 0)
    && elm in n && t.red(elm) && (t.IsRed(t.root) ==> t.root == elm)
  }

  /** A red parent of elm has a black parent of its own, and all three count the
      same black nodes below. */
  lemma Grandparent(t: Tree, n: set<int>, sp: Spans, bh: Heights, elm: int)
    requires Pending(t, n, sp, bh, elm) && t.parent(elm) != 0 && t.red(t.parent(elm))
    ensures var p := t.parent(elm);
            var g := t.parent(p);
            var s := t.SideOf(p);
            && p in n && g in n && p != elm && g != elm && g != p && !t.red(g) && t.root != elm
            && t.kid(p, t.SideOf(elm)) == elm && t.kid(g, s) == p
            && bh(elm) == bh(p) == bh(g) && Black(t, bh, t.kid(g, s.Other())) == bh(g)
            && Black(t, bh, t.kid(p, t.SideOf(elm).Other())) == bh(p)
            && !t.IsRed(t.kid(p, t.SideOf(elm).Other()))
  {
    var p := t.parent(elm);
    assert NodeOk(t, n, sp, elm);
    assert NodeOk(t, n, sp, p);
    KidApart(t, n, sp, p, t.SideOf(elm));
    var g := t.parent(p);
    assert NodeOk(t, n, sp, g);
    KidApart(t, n, sp, g, t.SideOf(p));
    assert HeightOk(t, bh, p) && HeightOk(t, bh, g) && RedOk(t, elm, g) && RedOk(t, elm, p);
  }

  /** Red uncle: recolour, and the trouble moves two levels up. */
  function Recolor(t: Tree, p: int, g: int, u: int): Tree {
    t.WithRed(u, false).WithRed(p, false).WithRed(g, true)
  }

  lemma RecolorKid(t: Tree, n: set<int>, sp: Spans, bh: Heights, elm: int, p: int, g: int, u: int, z: int, q: Side)
    requires Pending(t, n, sp, bh, elm) && z in n && elm != 0 && t.parent(elm) == p && t.parent(p) == g
             && t.parent(u) == g
    requires p in n && u in n && g in n && t.red(p) && t.red(u) && !t.red(g) && p != u && p != g && u != g
    ensures var t', bh' := Recolor(t, p, g, u), PutHeight(bh, g, bh(g) + 1);
            && Black(t', bh', t'.kid(z, q)) == bh'(z)
            && (t'.red(z) && t'.IsRed(t'.kid(z, q)) ==> t'.kid(z, q) == g)
  {
    assert HeightOk(t, bh, z) && RedOk(t, elm, z);
    if t.kid(z, q) != 0 { KidApart(t, n, sp, z, q); }
    assert NodeOk(t, n, sp, p) && NodeOk(t, n, sp, u);
  }

  lemma RecolorPending(t: Tree, n: set<int>, sp: Spans, bh: Heights, elm: int)
    requires Pending(t, n, sp, bh, elm) && t.parent(elm) != 0 && t.red(t.parent(elm))
    requires t.IsRed(t.kid(t.parent(t.parent(elm)), t.SideOf(t.parent(elm)).Other()))
    ensures var p := t.parent(elm);
            var g := t.parent(p);
            var u := t.kid(g, t.SideOf(p).Other());
            Pending(Recolor(t, p, g, u), n, sp, PutHeight(bh, g, bh(g) + 1), g)
  {
    Grandparent(t, n, sp, bh, elm);
    var p := t.parent(elm);
    var g := t.parent(p);
    var u := t.kid(g, t.SideOf(p).Other());
    KidApart(t, n, sp, g, t.SideOf(p).Other());
    KidApart(t, n, sp, g, t.SideOf(p));
    RecolorAll(t, n, sp, bh, elm, p, g, u);
  }

  lemma RecolorAll(t: Tree, n: set<int>, sp: Spans, bh: Heights, elm: int, p: int, g: int, u: int)
    requires Pending(t, n, sp, bh, elm) && elm != 0 && t.parent(elm) == p && t.parent(p) == g && t.parent(u) == g
    requires p in n && u in n && g in n && t.red(p) && t.red(u) && !t.red(g) && p != u && p != g && u != g
             && t.root != elm
    ensures Pending(Recolor(t, p, g, u), n, sp, PutHeight(bh, g, bh(g) + 1), g)
  {
    var t', bh' := Recolor(t, p, g, u), PutHeight(bh, g, bh(g) + 1);
    RecoloredShape(t, t', n, sp, {p, g, u});
    forall z | z in n ensures HeightOk(t', bh', z) && RedOk(t', g, z) {
      RecolorKid(t, n, sp, bh, elm, p, g, u, z, L);
      RecolorKid(t, n, sp, bh, elm, p, g, u, z, R);
    }
  }

  lemma BlackKid(t: Tree, n: set<int>, sp: Spans, elm: int, q: Side)
    requires Shape(t, n, sp) && Reds(t, n, elm, 0) && elm in n && t.red(elm)
    ensures !t.IsRed(t.kid(elm, q))
  {
    assert RedOk(t, elm, elm);
    if t.kid(elm, q) != 0 { KidApart(t, n, sp, elm, q); }
  }

  /** Inner grandchild: one rotation makes it an outer one. */
  lemma InnerPending(t: Tree, n: set<int>, sp: Spans, bh: Heights, elm: int)
    requires Pending(t, n, sp, bh, elm) && t.parent(elm) != 0 && t.red(t.parent(elm))
    requires t.SideOf(elm) == t.SideOf(t.parent(elm)).Other()
    ensures var p := t.parent(elm);
            var s := t.SideOf(p);
            var g := t.parent(p);
            var r := Rotate(t, p, s);
            && p in n && t.kid(p, s.Other()) != 0
            && Pending(r, n, RotateSpans(t, sp, p, s), bh, p)
            && r.parent(p) == elm && r.parent(elm) == g && r.SideOf(elm) == s && r.SideOf(p) == s
            && r.kid(g, s.Other()) == t.kid(g, s.Other()) && r.key == t.key && r.red == t.red
  {
    Grandparent(t, n, sp, bh, elm);
    var p := t.parent(elm);
    var s := t.SideOf(p);
    var g := t.parent(p);
    var r := Rotate(t, p, s);
    RotateShape(t, n, sp, p, s);
    assert HeightOk(t, bh, p) && HeightOk(t, bh, elm) && RedOk(t, elm, p);
    BlackKid(t, n, sp, elm, L);
    BlackKid(t, n, sp, elm, R);
    TurnedHeights(t, t, r, n, sp, bh, bh, p, s, 0, 0, 0);
    TurnedReds(t, t, r, n, sp, p, s, 0, elm, p);
    KidApart(r, n, RotateSpans(t, sp, p, s), g, s);
    KidApart(r, n, RotateSpans(t, sp, p, s), elm, s);
  }

  /** Outer grandchild: the last rotation, after which no red parent is left. */
  lemma OuterPending(t: Tree, n: set<int>, sp: Spans, bh: Heights, elm: int)
    requires Pending(t, n, sp, bh, elm) && t.parent(elm) != 0 && t.red(t.parent(elm))
    requires t.SideOf(elm) == t.SideOf(t.parent(elm))
    requires !t.IsRed(t.kid(t.parent(t.parent(elm)), t.SideOf(t.parent(elm)).Other()))
    ensures var p := t.parent(elm);
            var g, s := t.parent(p), t.SideOf(p);
            var t1 := t.WithRed(p, false).WithRed(g, true);
            var r := Rotate(t1, g, s.Other());
            && g in n && t1.kid(g, s) == p
            && Pending(r, n, RotateSpans(t, sp, g, s.Other()), bh, elm)
            && r.parent(elm) == p && !r.red(p) && r.key == t.key
  {
    Grandparent(t, n, sp, bh, elm);
    var p := t.parent(elm);
    var g, s := t.parent(p), t.SideOf(p);
    var t1 := t.WithRed(p, false).WithRed(g, true);
    var r := Rotate(t1, g, s.Other());
    RecoloredShape(t, t1, n, sp, {g, p, 0});
    RotateShape(t1, n, sp, g, s.Other());
    assert HeightOk(t, bh, p) && HeightOk(t, bh, g) && RedOk(t, elm, p);
    RotateApart(t, n, sp, g, s.Other());
    TurnedHeights(t, t1, r, n, sp, bh, bh, g, s.Other(), 0, 0, 0);
    TurnedReds(t, t1, r, n, sp, g, s.Other(), 0, elm, elm);
  }

  /** The loop has ended: blackening the root settles everything. */
  lemma InsertSettled(t: Tree, n: set<int>, sp: Spans, bh: Heights, elm: int)
    requires Pending(t, n, sp, bh, elm) && (t.parent(elm) == 0 || !t.red(t.parent(elm)))
    ensures Shape(t.WithRed(t.root, false), n, sp) && Balanced(t.WithRed(t.root, false), n, bh)
  {
    var r := t.WithRed(t.root, false);
    RecoloredShape(t, r, n, sp, {t.root});
    forall x | x in n ensures HeightOk(r, bh, x) && RedOk(r, 0, x) {
      assert HeightOk(t, bh, x) && RedOk(t, elm, x);
      if t.kid(x, L) != 0 { KidApart(t, n, sp, x, L); }
      if t.kid(x, R) != 0 { KidApart(t, n, sp, x, R); }
    }
  }

  // ---- the new leaf

  /** RB_SET and the link from the parent, or from the head. */
  function Link(t: Tree, elm: int, p: int, s: Side): Tree {
    var t1 := t.WithParent(elm, p).WithKid(elm, R, 0).WithKid(elm, L, 0).WithRed(elm, true);
    if p != 0 then t1.WithKid(p, s, elm) else t1.(root := elm)
  }

  function LeafSpan(t: Tree, sp: Spans, p: int, s: Side): Span {
    if p == 0 then Span(Low, High) else sp(p).Part(t.key(p), s)
  }

  /** Where the search ended: elm's key belongs to an empty place. */
  ghost predicate Vacancy(t: Tree, n: set<int>, sp: Spans, elm: int, p: int, s: Side) {
    && elm != 0 && elm !in n && LeafSpan(t, sp, p, s).Has(t.key(elm))
    && (if p == 0 then t.root == 0 else p in n && t.kid(p, s) == 0)
  }

  /** The links with the new leaf, field by field. */
  ghost predicate Linked(t: Tree, r: Tree, elm: int, p: int, s: Side) {
    && r.root == (if p == 0 then elm else t.root)
    && (forall z, q :: r.kid(z, q) == if p != 0 && z == p && q == s then elm else if z == elm then 0 else t.kid(z, q))
    && (forall z :: r.parent(z) == if z == elm then p else t.parent(z))
    && (forall z :: r.red(z) == (z == elm || t.red(z))) && r.key == t.key
  }

  lemma LinkLinks(t: Tree, elm: int, p: int, s: Side)
    requires elm != p
    ensures Linked(t, Link(t, elm, p, s), elm, p, s)
  {
  }

  lemma LinkNode(t: Tree, r: Tree, n: set<int>, sp: Spans, elm: int, p: int, s: Side, z: int)
    requires Shape(t, n, sp) && Vacancy(t, n, sp, elm, p, s) && Linked(t, r, elm, p, s) && z in n
    ensures NodeOk(r, n + {elm}, PutSpan(sp, elm, LeafSpan(t, sp, p, s)), z)
  {
    assert NodeOk(t, n, sp, z);
    if t.kid(z, L) != 0 { KidApart(t, n, sp, z, L); }
    if t.kid(z, R) != 0 { KidApart(t, n, sp, z, R); }
  }

  lemma LinkShape(t: Tree, r: Tree, n: set<int>, sp: Spans, elm: int, p: int, s: Side)
    requires Shape(t, n, sp) && Vacancy(t, n, sp, elm, p, s) && Linked(t, r, elm, p, s)
    ensures Shape(r, n + {elm}, PutSpan(sp, elm, LeafSpan(t, sp, p, s)))
  {
    var n', sp' := n + {elm}, PutSpan(sp, elm, LeafSpan(t, sp, p, s));
    forall z | z in n' ensures NodeOk(r, n', sp', z) {
      if z in n {
        LinkNode(t, r, n, sp, elm, p, s, z);
      } else if p != 0 {
        assert NodeOk(t, n, sp, p);
      }
    }
  }

  lemma LinkColors(t: Tree, r: Tree, n: set<int>, sp: Spans, bh: Heights, elm: int, p: int, s: Side, z: int)
    requires Shape(t, n, sp) && Balanced(t, n, bh) && Vacancy(t, n, sp, elm, p, s) && Linked(t, r, elm, p, s) && z in n
    ensures HeightOk(r, PutHeight(bh, elm, 0), z) && RedOk(r, elm, z)
  {
    assert HeightOk(t, bh, z) && RedOk(t, 0, z) && NodeOk(t, n, sp, z);
  }

  lemma LinkPending(t: Tree, n: set<int>, sp: Spans, bh: Heights, elm: int, p: int, s: Side)
    requires Shape(t, n, sp) && Balanced(t, n, bh) && Vacancy(t, n, sp, elm, p, s)
    ensures Pending(Link(t, elm, p, s), n + {elm}, PutSpan(sp, elm, LeafSpan(t, sp, p, s)), PutHeight(bh, elm, 0), elm)
    ensures Link(t, elm, p, s).key == t.key
  {
    LinkLinks(t, elm, p, s);
    LinkedPending(t, Link(t, elm, p, s), n, sp, bh, elm, p, s);
  }

  lemma LinkedPending(t: Tree, r: Tree, n: set<int>, sp: Spans, bh: Heights, elm: int, p: int, s: Side)
    requires Shape(t, n, sp) && Balanced(t, n, bh) && Vacancy(t, n, sp, elm, p, s) && Linked(t, r, elm, p, s)
    ensures Pending(r, n + {elm}, PutSpan(sp, elm, LeafSpan(t, sp, p, s)), PutHeight(bh, elm, 0), elm)
  {
    LinkShape(t, r, n, sp, elm, p, s);
    var n', bh' := n + {elm}, PutHeight(bh, elm, 0);
    forall z | z in n' ensures HeightOk(r, bh', z) && RedOk(r, elm, z) {
      if z in n { LinkColors(t, r, n, sp, bh, elm, p, s, z); }
    }
  }
}

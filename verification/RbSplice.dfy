/**
 The link surgery of RB_REMOVE: taking out a node with at most one child, and
 putting a node in another's place.
 */
module RbSplice {
  import opened RbShape
  import opened RbReach

  /** Make `to` what the tree knows x by: the child of x's parent, or the root. */
  function Relink(t: Tree, x: int, to: int): Tree {
    var p := t.parent(x);
    if p != 0 then t.WithKid(p, if t.kid(p, L) == x then L else R, to) else t.(root := to)
  }

  /** Take out y, whose only child is c. */
  function Splice(t: Tree, y: int, c: int): Tree {
    Relink(if c != 0 then t.WithParent(c, t.parent(y)) else t, y, c)
  }

  /** The links after y is taken out, field by field. */
  ghost predicate Spliced(t: Tree, r: Tree, y: int, c: int) {
    var p := t.parent(y);
    && r.root == (if p == 0 then c else t.root)
    && (forall z, q :: r.kid(z, q) == if p != 0 && z == p && q == t.SideOf(y) then c else t.kid(z, q))
    && (forall z :: r.parent(z) == if c != 0 && z == c then p else t.parent(z))
    && r.red == t.red && r.key == t.key
  }

  /** Bounds set by key k are set by others instead. */
  function Mend(b: Bound, k: int, to: Bound): Bound { if b == At(k) then to else b }

  function Respan(sp: Spans, below: set<int>, k: int, to: Span): Spans {
    z => if z in below then Span(Mend(sp(z).lo, k, to.lo), Mend(sp(z).hi, k, to.hi)) else sp(z)
  }

  /** y and the nodes under it. */
  ghost predicate Below(t: Tree, n: set<int>, sp: Spans, y: int, below: set<int>) {
    && y in below
    && (forall z {:trigger NodeOk(t, n, sp, z)} :: z in n && z != y ==> (z in below <==> t.parent(z) in below))
    && (forall z :: z in below ==> z in n && sp(y).Has(t.key(z)))
    && forall z :: z in below && z != y ==> t.key(z) != t.key(y)
  }

  /** y has no child but c. */
  ghost predicate OnlyChild(t: Tree, n: set<int>, y: int, c: int, s: Side) {
    y in n && t.kid(y, s) == c && t.kid(y, s.Other()) == 0 && (c != 0 ==> c in n && c != y && t.parent(c) == y)
  }

  lemma SubBelow(t: Tree, n: set<int>, sp: Spans, y: int)
    requires Shape(t, n, sp) && y in n
    ensures Below(t, n, sp, y, Sub(t, n, sp, y))
  {
    var below := Sub(t, n, sp, y);
    forall z | z in n && z != y ensures z in below <==> t.parent(z) in below {
      SubLinks(t, n, sp, y, z);
      assert NodeOk(t, n, sp, z);
      if t.parent(z) in below { SubSpan(t, n, sp, y, t.parent(z)); }
    }
    forall z | z in below ensures z in n && sp(y).Has(t.key(z)) && (z != y ==> t.key(z) != t.key(y)) {
      SubSpan(t, n, sp, y, z);
      if t.key(z) == t.key(y) { KeysDistinct(t, n, sp, y, z); }
    }
  }

  lemma SpliceLinks(t: Tree, n: set<int>, sp: Spans, y: int, c: int, s: Side)
    requires Shape(t, n, sp) && OnlyChild(t, n, y, c, s)
    ensures Spliced(t, Splice(t, y, c), y, c)
  {
    assert NodeOk(t, n, sp, y);
  }

  /** Seen from another node, c hangs where y did. */
  lemma SplicedKid(t: Tree, r: Tree, n: set<int>, sp: Spans, y: int, c: int, z: int, q: Side)
    requires Shape(t, n, sp) && y in n && Spliced(t, r, y, c) && z in n && z != y
    ensures r.kid(z, q) == if t.kid(z, q) == y then c else t.kid(z, q)
    ensures t.kid(z, q) == y ==> t.parent(y) == z
    ensures t.kid(z, q) != 0 ==> t.kid(z, q) in n && t.parent(t.kid(z, q)) == z && t.kid(z, q) != z
  {
    assert NodeOk(t, n, sp, y);
    if t.kid(z, q) != 0 { KidApart(t, n, sp, z, q); }
  }

  lemma SpliceKid(t: Tree, r: Tree, n: set<int>, sp: Spans, y: int, c: int, s: Side, below: set<int>, z: int, q: Side)
    requires Shape(t, n, sp) && OnlyChild(t, n, y, c, s) && Spliced(t, r, y, c) && Below(t, n, sp, y, below)
    requires z in n && z != y
    ensures KidOk(r, n - {y}, Respan(sp, below, t.key(y), sp(y)), z, q)
  {
    SplicedKid(t, r, n, sp, y, c, z, q);
    var w := t.kid(z, q);
    assert NodeOk(t, n, sp, z) && NodeOk(t, n, sp, y) && (w != 0 ==> NodeOk(t, n, sp, w))
           && (c != 0 ==> NodeOk(t, n, sp, c));
  }

  lemma SpliceParent(t: Tree, r: Tree, n: set<int>, sp: Spans, y: int, c: int, s: Side, below: set<int>, z: int)
    requires Shape(t, n, sp) && OnlyChild(t, n, y, c, s) && Spliced(t, r, y, c) && Below(t, n, sp, y, below)
    requires z in n && z != y
    ensures ParentOk(r, n - {y}, Respan(sp, below, t.key(y), sp(y)), z)
    ensures Respan(sp, below, t.key(y), sp(y))(z).Has(t.key(z))
  {
    assert NodeOk(t, n, sp, z) && NodeOk(t, n, sp, y);
    if t.parent(z) != 0 && t.parent(z) != y {
      KidApart(t, n, sp, t.parent(z), t.SideOf(z));
    }
    if t.parent(y) != 0 {
      KidApart(t, n, sp, t.parent(y), t.SideOf(y));
    }
  }

  /** Taking out a node keeps the search tree on the others. */
  lemma SpliceShape(t: Tree, r: Tree, n: set<int>, sp: Spans, y: int, c: int, s: Side, below: set<int>)
    requires Shape(t, n, sp) && OnlyChild(t, n, y, c, s) && Spliced(t, r, y, c) && Below(t, n, sp, y, below)
    ensures Shape(r, n - {y}, Respan(sp, below, t.key(y), sp(y)))
  {
    var n', sp' := n - {y}, Respan(sp, below, t.key(y), sp(y));
    assert NodeOk(t, n, sp, y);
    forall z | z in n' ensures NodeOk(r, n', sp', z) {
      SpliceKid(t, r, n, sp, y, c, s, below, z, L);
      SpliceKid(t, r, n, sp, y, c, s, below, z, R);
      SpliceParent(t, r, n, sp, y, c, s, below, z);
    }
    if r.root == 0 { LastNode(t, n, sp, y); }
  }

  /** A childless root is alone. */
  lemma LastNode(t: Tree, n: set<int>, sp: Spans, y: int)
    requires Shape(t, n, sp) && y in n && t.parent(y) == 0 && t.kid(y, L) == 0 && t.kid(y, R) == 0
    ensures n == {y}
  {
    assert NodeOk(t, n, sp, y);
    AllReached(t, n, sp);
  }

  // ---- one node in another's place

  /** y takes over old's links and colour. */
  function Replace(t: Tree, o: int, y: int): Tree {
    var l, r := t.kid(o, L), t.kid(o, R);
    var t1 := t.WithKid(y, L, l).WithKid(y, R, r).WithParent(y, t.parent(o)).WithRed(y, t.red(o));
    var t2 := Relink(t1, o, y).WithParent(l, y);
    if r != 0 then t2.WithParent(r, y) else t2
  }

  /** The links after y took over, field by field. */
  ghost predicate Replaced(t: Tree, r: Tree, o: int, y: int) {
    var p := t.parent(o);
    && r.root == (if p == 0 then y else t.root)
    && (forall z, q :: r.kid(z, q) ==
          if z == y then t.kid(o, q) else if p != 0 && z == p && q == t.SideOf(o) then y else t.kid(z, q))
    && (forall z :: r.parent(z) ==
          if z == y then t.parent(o) else if z != 0 && (z == t.kid(o, L) || z == t.kid(o, R)) then y else t.parent(z))
    && (forall z :: r.red(z) == if z == y then t.red(o) else t.red(z))
    && r.key == t.key
  }

  /** y is no node of the tree, and its key is where o's is. */
  ghost predicate Fits(t: Tree, n: set<int>, sp: Spans, o: int, y: int, below: set<int>) {
    && o in n && y != 0 && y !in n && sp(o).Has(t.key(y))
    && forall z :: z in below && z != o ==> (t.key(z) < t.key(o) <==> t.key(z) < t.key(y)) && t.key(z) != t.key(y)
  }

  function ReplaceSpans(t: Tree, sp: Spans, o: int, y: int, below: set<int>): Spans {
    PutSpan(Respan(sp, below, t.key(o), Span(At(t.key(y)), At(t.key(y)))), y, sp(o))
  }

  lemma ReplaceLinks(t: Tree, n: set<int>, sp: Spans, o: int, y: int)
    requires Shape(t, n, sp) && o in n && y != 0 && y !in n && t.kid(o, L) != 0
    ensures Replaced(t, Replace(t, o, y), o, y)
  {
    assert NodeOk(t, n, sp, o);
  }

  /** Seen from another node, y hangs where o did. */
  lemma ReplacedKid(t: Tree, r: Tree, n: set<int>, sp: Spans, o: int, y: int, z: int, q: Side)
    requires Shape(t, n, sp) && o in n && y !in n && Replaced(t, r, o, y) && z in n && z != o
    ensures r.kid(z, q) == if t.kid(z, q) == o then y else t.kid(z, q)
    ensures t.kid(z, q) == o ==> t.parent(o) == z
    ensures t.kid(z, q) != 0 ==> t.kid(z, q) in n && t.parent(t.kid(z, q)) == z && t.kid(z, q) != z
  {
    assert NodeOk(t, n, sp, o);
    if t.kid(z, q) != 0 { KidApart(t, n, sp, z, q); }
  }

  lemma ReplaceKid(t: Tree, r: Tree, n: set<int>, sp: Spans, o: int, y: int, below: set<int>, z: int, q: Side)
    requires Shape(t, n, sp) && Replaced(t, r, o, y) && Below(t, n, sp, o, below) && Fits(t, n, sp, o, y, below)
    requires z in n && z != o
    ensures KidOk(r, n - {o} + {y}, ReplaceSpans(t, sp, o, y, below), z, q)
  {
    ReplacedKid(t, r, n, sp, o, y, z, q);
    var w := t.kid(z, q);
    assert NodeOk(t, n, sp, z) && NodeOk(t, n, sp, o) && (w != 0 ==> NodeOk(t, n, sp, w));
  }

  lemma ReplaceOwnKid(t: Tree, r: Tree, n: set<int>, sp: Spans, o: int, y: int, below: set<int>, q: Side)
    requires Shape(t, n, sp) && Replaced(t, r, o, y) && Below(t, n, sp, o, below) && Fits(t, n, sp, o, y, below)
    ensures KidOk(r, n - {o} + {y}, ReplaceSpans(t, sp, o, y, below), y, q)
  {
    var w := t.kid(o, q);
    assert NodeOk(t, n, sp, o) && (w != 0 ==> NodeOk(t, n, sp, w));
    if w != 0 { KidApart(t, n, sp, o, q); }
  }

  lemma ReplaceHas(t: Tree, n: set<int>, sp: Spans, o: int, y: int, below: set<int>, z: int)
    requires Shape(t, n, sp) && Below(t, n, sp, o, below) && Fits(t, n, sp, o, y, below) && z in n && z != o
    ensures ReplaceSpans(t, sp, o, y, below)(z).Has(t.key(z))
  {
    assert NodeOk(t, n, sp, z) && NodeOk(t, n, sp, o);
  }

  /** The parent of another node is y where it was o. */
  lemma ReplacedParent(t: Tree, r: Tree, n: set<int>, sp: Spans, o: int, y: int, z: int)
    requires Shape(t, n, sp) && o in n && y !in n && Replaced(t, r, o, y) && z in n && z != o
    ensures r.parent(z) == if t.parent(z) == o then y else t.parent(z)
  {
    assert NodeOk(t, n, sp, z) && NodeOk(t, n, sp, o);
    if t.parent(z) != 0 { KidApart(t, n, sp, t.parent(z), t.SideOf(z)); }
  }

  lemma ReplaceParent(t: Tree, r: Tree, n: set<int>, sp: Spans, o: int, y: int, below: set<int>, z: int)
    requires Shape(t, n, sp) && Replaced(t, r, o, y) && Below(t, n, sp, o, below) && Fits(t, n, sp, o, y, below)
    requires z in n && z != o
    ensures ParentOk(r, n - {o} + {y}, ReplaceSpans(t, sp, o, y, below), z)
  {
    var p := t.parent(z);
    ReplacedParent(t, r, n, sp, o, y, z);
    assert NodeOk(t, n, sp, z) && NodeOk(t, n, sp, o);
    if p != 0 && p != o {
      ReplacedKid(t, r, n, sp, o, y, p, L);
      ReplacedKid(t, r, n, sp, o, y, p, R);
    }
  }

  /** The search tree with y in o's place. */
  lemma ReplaceShape(t: Tree, r: Tree, n: set<int>, sp: Spans, o: int, y: int, below: set<int>)
    requires Shape(t, n, sp) && Replaced(t, r, o, y) && Below(t, n, sp, o, below) && Fits(t, n, sp, o, y, below)
    ensures Shape(r, n - {o} + {y}, ReplaceSpans(t, sp, o, y, below))
  {
    var n', sp' := n - {o} + {y}, ReplaceSpans(t, sp, o, y, below);
    ReplaceRoot(t, r, n, sp, o, y);
    forall z | z in n' ensures NodeOk(r, n', sp', z) { ReplaceNode(t, r, n, sp, o, y, below, z); }
  }

  lemma ReplaceNode(t: Tree, r: Tree, n: set<int>, sp: Spans, o: int, y: int, below: set<int>, z: int)
    requires Shape(t, n, sp) && Replaced(t, r, o, y) && Below(t, n, sp, o, below) && Fits(t, n, sp, o, y, below)
    requires z in n - {o} + {y}
    ensures NodeOk(r, n - {o} + {y}, ReplaceSpans(t, sp, o, y, below), z)
  {
    if z == y { ReplaceSelf(t, r, n, sp, o, y, below); } else { ReplaceOther(t, r, n, sp, o, y, below, z); }
  }

  lemma ReplaceRoot(t: Tree, r: Tree, n: set<int>, sp: Spans, o: int, y: int)
    requires Shape(t, n, sp) && Replaced(t, r, o, y) && o in n && y != 0 && y !in n
    ensures r.root != 0 && r.root in n - {o} + {y} && r.parent(r.root) == 0
  {
    assert NodeOk(t, n, sp, o) && (t.root != 0 ==> NodeOk(t, n, sp, t.root));
    if t.parent(o) != 0 { ReplacedParent(t, r, n, sp, o, y, t.root); }
  }

  lemma ReplaceSelf(t: Tree, r: Tree, n: set<int>, sp: Spans, o: int, y: int, below: set<int>)
    requires Shape(t, n, sp) && Replaced(t, r, o, y) && Below(t, n, sp, o, below) && Fits(t, n, sp, o, y, below)
    ensures NodeOk(r, n - {o} + {y}, ReplaceSpans(t, sp, o, y, below), y)
  {
    assert NodeOk(t, n, sp, o);
    ReplaceOwnKid(t, r, n, sp, o, y, below, L);
    ReplaceOwnKid(t, r, n, sp, o, y, below, R);
    if t.parent(o) != 0 { KidApart(t, n, sp, t.parent(o), t.SideOf(o)); }
  }

  lemma ReplaceOther(t: Tree, r: Tree, n: set<int>, sp: Spans, o: int, y: int, below: set<int>, z: int)
    requires Shape(t, n, sp) && Replaced(t, r, o, y) && Below(t, n, sp, o, below) && Fits(t, n, sp, o, y, below)
    requires z in n && z != o
    ensures NodeOk(r, n - {o} + {y}, ReplaceSpans(t, sp, o, y, below), z)
  {
    ReplaceKid(t, r, n, sp, o, y, below, z, L);
    ReplaceKid(t, r, n, sp, o, y, below, z, R);
    ReplaceHas(t, n, sp, o, y, below, z);
    ReplaceParent(t, r, n, sp, o, y, below, z);
  }
}

/**
 RB_REMOVE and RB_REMOVE_COLOR: what the surgery leaves behind and what each
 round of the loop keeps, as value lemmas; the mirrored halves are one, by side.
 */
module RbRemove {
  import opened RbShape
  import opened RbColors
  import opened RbSplice

  /** Paths through elm, the child of p on side s, are one black node short; elm
      may be red under a red parent or over a red child; nothing else is wrong. */
  ghost predicate Deficit(t: Tree, n: set<int>, sp: Spans, bh: Heights, p: int, s: Side, elm: int) {
    && Shape(t, n, sp) && Heights_(t, n, bh, p) && Reds(t, n, elm, elm)
    && (t.IsRed(t.root) ==> t.root == elm)
    && if p == 0 then elm == t.root
       else p in n && t.kid(p, s) == elm && Black(t, bh, elm) + 1 == bh(p) == Black(t, bh, t.kid(p, s.Other()))
  }

  /** The loop goes on: elm is black and not the root. */
  ghost predicate Short(t: Tree, n: set<int>, sp: Spans, bh: Heights, p: int, s: Side, elm: int) {
    Deficit(t, n, sp, bh, p, s, elm) && !t.IsRed(elm) && elm != t.root
  }

  /** What the loop may rely on: a parent, a sibling, the side it tests for. */
  lemma Sibling(t: Tree, n: set<int>, sp: Spans, bh: Heights, p: int, s: Side, elm: int)
    requires Short(t, n, sp, bh, p, s, elm)
    ensures var w := t.kid(p, s.Other());
            && p in n && w in n && w != elm && t.parent(w) == p && w != p && p != elm
            && (elm != 0 ==> elm in n && t.parent(elm) == p)
            && (t.kid(p, L) == elm <==> s == L) && Reds(t, n, 0, 0) && !t.IsRed(t.root)
            && HeightOk(t, bh, w) && (t.red(w) ==> !t.red(p) && bh(w) == bh(p) && bh(p) > 0)
            && (!t.red(w) ==> bh(w) + 1 == bh(p))
            && (elm == 0 || t.parent(elm) == p)
  {
    var w := t.kid(p, s.Other());
    KidApart(t, n, sp, p, s.Other());
    if elm != 0 { KidApart(t, n, sp, p, s); }
    assert HeightOk(t, bh, w);
    forall x | x in n ensures RedOk(t, 0, x) {
      assert RedOk(t, elm, x) || x == elm;
    }
    assert RedOk(t, 0, p);
  }

  /** The near and the far child of the sibling w. */
  lemma Nephews(t: Tree, n: set<int>, sp: Spans, bh: Heights, p: int, s: Side, w: int, q: Side)
    requires Shape(t, n, sp) && p in n && w in n && t.parent(w) == p && w != p && t.kid(p, s.Other()) == w
    requires HeightOk(t, bh, w) && Reds(t, n, 0, 0)
    ensures var o := t.kid(w, q);
            && Black(t, bh, o) == bh(w) && (t.red(w) ==> !t.IsRed(o))
            && (o != 0 ==> o in n && o != w && o != p && t.parent(o) == w && HeightOk(t, bh, w))
  {
    var o := t.kid(w, q);
    assert RedOk(t, 0, w);
    KidApart(t, n, sp, p, s.Other());
    assert NodeOk(t, n, sp, p);
    if o != 0 { KidApart(t, n, sp, w, q); }
  }

  /** Red sibling: recolour and rotate, and the sibling is black. */
  lemma RedSibling(t: Tree, n: set<int>, sp: Spans, bh: Heights, p: int, s: Side, elm: int)
    requires Short(t, n, sp, bh, p, s, elm) && t.red(t.kid(p, s.Other()))
    ensures var w := t.kid(p, s.Other());
            var t1 := t.WithRed(w, false).WithRed(p, true);
            var r := Rotate(t1, p, s);
            && Short(r, n, RotateSpans(t, sp, p, s), bh, p, s, elm)
            && !r.red(r.kid(p, s.Other())) && r.red(p) && r.key == t.key
  {
    Sibling(t, n, sp, bh, p, s, elm);
    var w := t.kid(p, s.Other());
    var t1 := t.WithRed(w, false).WithRed(p, true);
    var r := Rotate(t1, p, s);
    Nephews(t, n, sp, bh, p, s, w, s);
    Nephews(t, n, sp, bh, p, s, w, s.Other());
    RecoloredShape(t, t1, n, sp, {p, w, 0});
    RotateShape(t1, n, sp, p, s);
    RotateApart(t, n, sp, p, s);
    TurnedHeights(t, t1, r, n, sp, bh, bh, p, s, 0, p, p);
    TurnedReds(t, t1, r, n, sp, p, s, 0, 0, 0);
    RedsFor(r, n, elm);
  }

  lemma RedsFor(t: Tree, n: set<int>, elm: int)
    requires Reds(t, n, 0, 0) && 0 !in n
    ensures Reds(t, n, elm, elm)
  {
    forall x | x in n && x != elm ensures RedOk(t, elm, x) { assert RedOk(t, 0, x); }
  }

  /** Black sibling without red children: it turns red, the parent is short. */
  lemma BlackNephews(t: Tree, n: set<int>, sp: Spans, bh: Heights, p: int, s: Side, elm: int)
    requires Short(t, n, sp, bh, p, s, elm)
    requires var w := t.kid(p, s.Other());
             !t.red(w) && !t.IsRed(t.kid(w, L)) && !t.IsRed(t.kid(w, R))
    ensures bh(p) > 0
    ensures Deficit(t.WithRed(t.kid(p, s.Other()), true), n, sp, PutHeight(bh, p, bh(p) - 1), t.parent(p), t.SideOf(p),
                    p)
  {
    Sibling(t, n, sp, bh, p, s, elm);
    var w := t.kid(p, s.Other());
    var t', bh' := t.WithRed(w, true), PutHeight(bh, p, bh(p) - 1);
    RecoloredShape(t, t', n, sp, {w});
    forall x | x in n ensures (x != t.parent(p) ==> HeightOk(t', bh', x)) && (x != p ==> RedOk(t', p, x)) {
      BlackNephewsAt(t, n, sp, bh, p, s, w, elm, x);
    }
    assert NodeOk(t, n, sp, p);
    var g := t.parent(p);
    if g != 0 {
      KidApart(t, n, sp, g, t.SideOf(p));
      assert HeightOk(t, bh, g);
      if t.kid(g, t.SideOf(p).Other()) != 0 { KidApart(t, n, sp, g, t.SideOf(p).Other()); }
    }
  }

  lemma BlackNephewsAt(t: Tree, n: set<int>, sp: Spans, bh: Heights, p: int, s: Side, w: int, elm: int, x: int)
    requires Shape(t, n, sp) && p in n && w in n && p != w && x in n && t.parent(w) == p && w != elm && p != elm
    requires t.kid(p, s) == elm && t.kid(p, s.Other()) == w && (elm != 0 ==> t.parent(elm) == p)
    requires Black(t, bh, elm) + 1 == bh(p) == bh(w) + 1 && (x != p ==> HeightOk(t, bh, x)) && RedOk(t, 0, x)
    requires !t.red(w) && !t.IsRed(t.kid(w, L)) && !t.IsRed(t.kid(w, R))
    ensures var t', bh' := t.WithRed(w, true), PutHeight(bh, p, bh(p) - 1);
            (x != t.parent(p) ==> HeightOk(t', bh', x)) && (x != p ==> RedOk(t', p, x))
  {
    if t.kid(x, L) != 0 { KidApart(t, n, sp, x, L); }
    if t.kid(x, R) != 0 { KidApart(t, n, sp, x, R); }
  }

  /** Only the near nephew is red: rotate it above the sibling, and the far one is. */
  lemma NearNephew(t: Tree, n: set<int>, sp: Spans, bh: Heights, p: int, s: Side, elm: int)
    requires Short(t, n, sp, bh, p, s, elm)
    requires var w := t.kid(p, s.Other());
             !t.red(w) && t.IsRed(t.kid(w, s)) && !t.IsRed(t.kid(w, s.Other()))
    ensures var w := t.kid(p, s.Other());
            var t1 := t.WithRed(t.kid(w, s), false).WithRed(w, true);
            var r := Rotate(t1, w, s.Other());
            && Short(r, n, RotateSpans(t, sp, w, s.Other()), bh, p, s, elm)
            && !r.red(r.kid(p, s.Other())) && r.IsRed(r.kid(r.kid(p, s.Other()), s.Other())) && r.key == t.key
  {
    Sibling(t, n, sp, bh, p, s, elm);
    var w := t.kid(p, s.Other());
    var o := t.kid(w, s);
    var t1 := t.WithRed(o, false).WithRed(w, true);
    var r := Rotate(t1, w, s.Other());
    Nephews(t, n, sp, bh, p, s, w, s);
    Nephews(t, n, sp, bh, p, s, w, s.Other());
    RecoloredShape(t, t1, n, sp, {w, o, 0});
    RotateShape(t1, n, sp, w, s.Other());
    RotateApart(t, n, sp, w, s.Other());
    NearColors(t, t1, r, n, sp, bh, p, s, w, o);
    RedsFor(r, n, elm);
    NearLinks(t, t1, r, n, sp, p, s, w, elm);
  }

  lemma NearColors(t: Tree, t1: Tree, r: Tree, n: set<int>, sp: Spans, bh: Heights, p: int, s: Side, w: int, o: int)
    requires Shape(t, n, sp) && p in n && w in n && o in n && o != w && w != p && o != p && t.kid(w, s) == o
             && t.parent(o) == w
    requires Heights_(t, n, bh, p) && Reds(t, n, 0, 0) && !t.red(w) && t.red(o) && !t.IsRed(t.kid(w, s.Other()))
    requires Turned(t, t1, r, n, w, s.Other(), 0) && r.red(w) && !r.red(o)
    ensures Heights_(r, n, bh, p) && Reds(r, n, 0, 0) && Black(r, bh, o) == Black(t, bh, w)
  {
    assert HeightOk(t, bh, o) && RedOk(t, 0, o) && HeightOk(t, bh, w);
    TurnedHeights(t, t1, r, n, sp, bh, bh, w, s.Other(), 0, p, p);
    TurnedReds(t, t1, r, n, sp, w, s.Other(), 0, 0, 0);
  }

  lemma NearLinks(t: Tree, t1: Tree, r: Tree, n: set<int>, sp: Spans, p: int, s: Side, w: int, elm: int)
    requires Shape(t, n, sp) && p in n && t.kid(p, s.Other()) == w && w != p && t.kid(p, s) == elm != w
    requires RotateNodes(t, n, w, s.Other()) && Recolored(t, t1, {w, t.kid(w, s), 0}) && Rotated(t1, r, w, s.Other())
    ensures r.kid(p, s) == elm && r.kid(p, s.Other()) == t.kid(w, s) && r.kid(t.kid(w, s), s.Other()) == w
    ensures (r.root == t.kid(w, s)) ==> t.root == w
    ensures r.root == t.root
  {
    KidApart(t, n, sp, p, s.Other());
    if t.kid(w, s) != 0 { KidApart(t, n, sp, w, s); }
    assert NodeOk(t, n, sp, p);
  }

  /** The far nephew is red: the last rotation makes up for the missing node. */
  lemma FarNephew(t: Tree, n: set<int>, sp: Spans, bh: Heights, p: int, s: Side, elm: int)
    requires Short(t, n, sp, bh, p, s, elm)
    requires var w := t.kid(p, s.Other());
             !t.red(w) && t.IsRed(t.kid(w, s.Other()))
    ensures bh(p) > 0
    ensures var w := t.kid(p, s.Other());
            var t1 := t.WithRed(w, t.red(p)).WithRed(p, false).WithRed(t.kid(w, s.Other()), false);
            var r := Rotate(t1, p, s);
            && Shape(r, n, RotateSpans(t, sp, p, s)) && r.key == t.key
            && Balanced(r, n, PutHeight(PutHeight(bh, w, bh(p)), p, bh(p) - 1))
  {
    Sibling(t, n, sp, bh, p, s, elm);
    var w := t.kid(p, s.Other());
    var d := t.kid(w, s.Other());
    var t1 := t.WithRed(w, t.red(p)).WithRed(p, false).WithRed(d, false);
    var r := Rotate(t1, p, s);
    Nephews(t, n, sp, bh, p, s, w, s);
    Nephews(t, n, sp, bh, p, s, w, s.Other());
    RecoloredShape(t, t1, n, sp, {p, w, d});
    RotateShape(t1, n, sp, p, s);
    RotateApart(t, n, sp, p, s);
    FarHeights(t, t1, r, n, sp, bh, p, s, elm, w, d);
    FarReds(t, t1, r, n, sp, p, s, w, d);
  }

  lemma FarHeights(t: Tree, t1: Tree, r: Tree, n: set<int>, sp: Spans, bh: Heights, p: int, s: Side, elm: int, w: int,
                   d: int)
    requires Shape(t, n, sp) && Heights_(t, n, bh, p) && p in n && w in n && d in n && p != w && d != w && d != p
    requires t.kid(p, s) == elm != w && t.kid(p, s.Other()) == w && t.kid(w, s.Other()) == d && !t.red(w) && t.red(d)
    requires Black(t, bh, elm) + 1 == bh(p) == bh(w) + 1 && HeightOk(t, bh, w)
    requires Turned(t, t1, r, n, p, s, d) && r.red(w) == t.red(p) && !r.red(p) && !r.red(d)
    ensures Heights_(r, n, PutHeight(PutHeight(bh, w, bh(p)), p, bh(p) - 1), 0)
  {
    var bh' := PutHeight(PutHeight(bh, w, bh(p)), p, bh(p) - 1);
    if t.kid(w, s) != 0 { KidApart(t, n, sp, w, s); }
    if elm != 0 { KidApart(t, n, sp, p, s); }
    TurnedHeights(t, t1, r, n, sp, bh, bh', p, s, d, p, 0);
  }

  lemma FarReds(t: Tree, t1: Tree, r: Tree, n: set<int>, sp: Spans, p: int, s: Side, w: int, d: int)
    requires Shape(t, n, sp) && p in n && w in n && d in n && p != w && d != w && d != p && Reds(t, n, 0, 0)
             && !t.IsRed(t.root)
    requires t.kid(p, s.Other()) == w && t.kid(w, s.Other()) == d && t.parent(w) == p
    requires Turned(t, t1, r, n, p, s, d) && r.red(w) == t.red(p) && !r.red(p) && !r.red(d)
    ensures Reds(r, n, 0, 0) && !r.IsRed(r.root)
  {
    assert NodeOk(t, n, sp, p);
    TurnedReds(t, t1, r, n, sp, p, s, d, 0, 0);
  }

  /** The loop has ended: blackening elm settles everything. */
  lemma Settled(t: Tree, n: set<int>, sp: Spans, bh: Heights, p: int, s: Side, elm: int)
    requires Deficit(t, n, sp, bh, p, s, elm) && (t.IsRed(elm) || elm == t.root)
    ensures var r := if elm != 0 then t.WithRed(elm, false) else t;
            Shape(r, n, sp) && Balanced(r, n, bh)
  {
    var r := if elm != 0 then t.WithRed(elm, false) else t;
    RecoloredShape(t, r, n, sp, {elm});
    if p != 0 && elm != 0 { KidApart(t, n, sp, p, s); }
    forall x | x in n ensures HeightOk(r, bh, x) && RedOk(r, 0, x) {
      assert x != p ==> HeightOk(t, bh, x);
      assert x != elm ==> RedOk(t, elm, x);
      if t.kid(x, L) != 0 { KidApart(t, n, sp, x, L); }
      if t.kid(x, R) != 0 { KidApart(t, n, sp, x, R); }
    }
  }

  // ---- after the surgery

  /** Taking out a red node harms nothing; a black one leaves its child short. */
  lemma SpliceBalance(t: Tree, r: Tree, n: set<int>, sp: Spans, bh: Heights, y: int, c: int, s: Side, below: set<int>)
    requires Shape(t, n, sp) && Balanced(t, n, bh) && OnlyChild(t, n, y, c, s) && Spliced(t, r, y, c)
             && Below(t, n, sp, y, below)
    ensures var n', sp' := n - {y}, Respan(sp, below, t.key(y), sp(y));
            && Shape(r, n', sp')
            && if t.red(y) then Balanced(r, n', bh) else Deficit(r, n', sp', bh, t.parent(y), t.SideOf(y), c)
  {
    SpliceShape(t, r, n, sp, y, c, s, below);
    assert HeightOk(t, bh, y) && RedOk(t, 0, y) && NodeOk(t, n, sp, y);
    var n', p := n - {y}, t.parent(y);
    forall x | x in n' ensures RedOk(r, if t.red(y) then 0 else c, x) && (x != p || t.red(y) ==> HeightOk(r, bh, x)) {
      assert RedOk(t, 0, x) && HeightOk(t, bh, x);
      SplicedKid(t, r, n, sp, y, c, x, L);
      SplicedKid(t, r, n, sp, y, c, x, R);
    }
    if p != 0 {
      assert HeightOk(t, bh, p);
      KidApart(t, n, sp, p, t.SideOf(y));
      SplicedKid(t, r, n, sp, y, c, p, t.SideOf(y));
      SplicedKid(t, r, n, sp, y, c, p, t.SideOf(y).Other());
    }
  }

  /** What a node sees when y takes o's place. */
  lemma ReplaceAt(t: Tree, r: Tree, n: set<int>, sp: Spans, bh: Heights, o: int, y: int, elm: int, x: int)
    requires Shape(t, n, sp) && o in n && y != 0 && y !in n && Replaced(t, r, o, y) && elm != o && elm != y && x in n
    ensures var x', bh' := if x == o then y else x, PutHeight(bh, y, bh(o));
            && (HeightOk(t, bh, x) ==> HeightOk(r, bh', x')) && (RedOk(t, elm, x) ==> RedOk(r, elm, x'))
            && Black(r, bh', r.kid(x', L)) == Black(t, bh, t.kid(x, L))
            && Black(r, bh', r.kid(x', R)) == Black(t, bh, t.kid(x, R))
            && bh'(x') == bh(x)
  {
    if x != o {
      ReplacedKid(t, r, n, sp, o, y, x, L);
      ReplacedKid(t, r, n, sp, o, y, x, R);
    } else {
      if t.kid(o, L) != 0 { KidApart(t, n, sp, o, L); }
      if t.kid(o, R) != 0 { KidApart(t, n, sp, o, R); }
    }
  }

  /** Heights and colours carry over when y takes o's place. */
  lemma ReplaceColors(t: Tree, r: Tree, n: set<int>, sp: Spans, bh: Heights, o: int, y: int, elm: int, ex: int, p: int)
    requires Shape(t, n, sp) && o in n && y != 0 && y !in n && Replaced(t, r, o, y) && elm != o && elm != y
             && ex != o && ex != y && p != y
    requires Heights_(t, n, bh, p) && Reds(t, n, elm, ex)
    ensures Heights_(r, n - {o} + {y}, PutHeight(bh, y, bh(o)), if p == o then y else p)
            && Reds(r, n - {o} + {y}, elm, ex)
    ensures r.root == (if t.root == o then y else t.root)
  {
    var n', bh' := n - {o} + {y}, PutHeight(bh, y, bh(o));
    assert NodeOk(t, n, sp, o);
    forall x' | x' in n'
      ensures (x' != (if p == o then y else p) ==> HeightOk(r, bh', x')) && (x' != ex ==> RedOk(r, elm, x'))
    {
      var x := if x' == y then o else x';
      assert x != p ==> HeightOk(t, bh, x);
      assert x != ex ==> RedOk(t, elm, x);
      ReplaceAt(t, r, n, sp, bh, o, y, elm, x);
    }
  }

  lemma ReplaceBalance(t: Tree, r: Tree, n: set<int>, sp: Spans, bh: Heights, o: int, y: int)
    requires Shape(t, n, sp) && o in n && y != 0 && y !in n && Replaced(t, r, o, y) && Balanced(t, n, bh)
    ensures Balanced(r, n - {o} + {y}, PutHeight(bh, y, bh(o)))
  {
    ReplaceColors(t, r, n, sp, bh, o, y, 0, 0, 0);
  }

  lemma ReplaceDeficit(t: Tree, r: Tree, n: set<int>, sp: Spans, sp': Spans, bh: Heights, o: int, y: int, p: int,
                       s: Side, elm: int)
    requires o in n && y != 0 && y !in n && Replaced(t, r, o, y) && Deficit(t, n, sp, bh, p, s, elm) && elm != o
             && p != 0
    requires Shape(r, n - {o} + {y}, sp')
    ensures Deficit(r, n - {o} + {y}, sp', PutHeight(bh, y, bh(o)), if p == o then y else p, s, elm)
  {
    if elm != 0 { KidApart(t, n, sp, p, s); }
    ReplaceColors(t, r, n, sp, bh, o, y, elm, elm, p);
    ReplaceAt(t, r, n, sp, bh, o, y, elm, p);
    ReplaceElm(t, r, n, sp, o, y, p, s, elm);
  }

  lemma ReplaceElm(t: Tree, r: Tree, n: set<int>, sp: Spans, o: int, y: int, p: int, s: Side, elm: int)
    requires Shape(t, n, sp) && o in n && y !in n && Replaced(t, r, o, y) && p in n && t.kid(p, s) == elm != o
    ensures r.kid(if p == o then y else p, s) == elm
  {
    if p != o { ReplacedKid(t, r, n, sp, o, y, p, s); }
  }

  /** The tree is red-black, or elm is short. */
  ghost predicate Owes(t: Tree, n: set<int>, sp: Spans, bh: Heights, p: int, s: Side, elm: int, short: bool) {
    if short then Deficit(t, n, sp, bh, p, s, elm) else Shape(t, n, sp) && Balanced(t, n, bh)
  }

  lemma ReplaceOwes(t: Tree, n: set<int>, sp: Spans, bh: Heights, o: int, y: int, below: set<int>, p: int, s: Side,
                    elm: int, short: bool)
    requires Owes(t, n, sp, bh, p, s, elm, short) && Below(t, n, sp, o, below) && Fits(t, n, sp, o, y, below)
             && t.kid(o, L) != 0
    requires elm != o && p != 0
    ensures Owes(Replace(t, o, y), n - {o} + {y}, ReplaceSpans(t, sp, o, y, below), PutHeight(bh, y, bh(o)),
                 if p == o then y else p, s, elm, short)
    ensures Replace(t, o, y).key == t.key
  {
    ReplaceLinks(t, n, sp, o, y);
    ReplacedOwes(t, Replace(t, o, y), n, sp, bh, o, y, below, p, s, elm, short);
  }

  lemma ReplacedOwes(t: Tree, r: Tree, n: set<int>, sp: Spans, bh: Heights, o: int, y: int, below: set<int>, p: int,
                     s: Side, elm: int, short: bool)
    requires Owes(t, n, sp, bh, p, s, elm, short) && Below(t, n, sp, o, below) && Fits(t, n, sp, o, y, below)
             && Replaced(t, r, o, y)
    requires elm != o && p != 0
    ensures Owes(r, n - {o} + {y}, ReplaceSpans(t, sp, o, y, below), PutHeight(bh, y, bh(o)),
                 if p == o then y else p, s, elm, short)
  {
    ReplaceShape(t, r, n, sp, o, y, below);
    if short {
      ReplaceDeficit(t, r, n, sp, ReplaceSpans(t, sp, o, y, below), bh, o, y, p, s, elm);
    } else {
      ReplaceBalance(t, r, n, sp, bh, o, y);
    }
  }

  /** y is the leftmost node right of o. */
  ghost predicate Heir(t: Tree, n: set<int>, sp: Spans, o: int, y: int) {
    && o in n && y in n && t.kid(o, L) != 0 && t.kid(y, L) == 0
    && sp(y).lo == At(t.key(o)) && t.key(o) < t.key(y) && sp(o).Has(t.key(y))
  }

  lemma HeirLinks(t: Tree, n: set<int>, sp: Spans, o: int, y: int)
    requires Shape(t, n, sp) && Heir(t, n, sp, o, y)
    ensures OnlyChild(t, n, y, t.kid(y, R), R) && y != o && t.parent(y) in n && t.kid(y, R) != o && !sp(y).Has(t.key(o))
    ensures t.parent(y) == o ==> t.SideOf(y) == R
  {
    assert NodeOk(t, n, sp, y);
    KidApart(t, n, sp, o, L);
    KidApart(t, n, sp, t.parent(y), t.SideOf(y));
    if t.kid(y, R) != 0 { KidApart(t, n, sp, y, R); }
  }
}

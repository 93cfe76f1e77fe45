/**
 Splay trees of sys/tree.h as values: what the link fields represent, and the
 two spines a top-down splay builds.
 */
module SplayTrees {
  import opened RbShape

  /** spe_left and spe_right of every node, by address; 0 is NULL. */
  type Kids = (int, Side) -> int
  type Keys = int -> int

  function SetKid(kid: Kids, x: int, s: Side, v: int): Kids { (y, q) => if y == x && q == s then v else kid(y, q) }

  datatype Tr = Nil | Node(l: Tr, x: int, r: Tr)

  function Child(t: Tr, s: Side): Tr
    requires t.Node?
  {
    if s == L then t.l else t.r
  }

  /** The node x with a on side s and b on the other. */
  function Make(s: Side, x: int, a: Tr, b: Tr): Tr { if s == L then Node(a, x, b) else Node(b, x, a) }

  function In(t: Tr): seq<int> { if t.Nil? then [] else In(t.l) + [t.x] + In(t.r) }

  function Nodes(t: Tr): set<int> { if t.Nil? then {} else Nodes(t.l) + {t.x} + Nodes(t.r) }

  lemma MakeNodes(s: Side, x: int, a: Tr, b: Tr)
    ensures Nodes(Make(s, x, a, b)) == Nodes(a) + {x} + Nodes(b)
  {}

  function Size(t: Tr): nat { if t.Nil? then 0 else Size(t.l) + 1 + Size(t.r) }

  /** The links from p hold t, a search tree of nodes of n with keys in a. */
  ghost predicate Rep(kid: Kids, key: Keys, n: set<int>, a: Span, p: int, t: Tr)
    decreases t
  {
    if t.Nil? then p == 0
    else
      && p == t.x && p != 0 && p in n && a.Has(key(p))
      && Rep(kid, key, n, a.Part(key(p), L), kid(p, L), t.l) && Rep(kid, key, n, a.Part(key(p), R), kid(p, R), t.r)
  }

  lemma {:induction false} RepNodes(kid: Kids, key: Keys, n: set<int>, a: Span, p: int, t: Tr, z: int)
    requires Rep(kid, key, n, a, p, t) && z in Nodes(t)
    ensures z in n && z != 0 && a.Has(key(z))
    decreases t
  {
    if z in Nodes(t.l) {
      RepNodes(kid, key, n, a.Part(key(p), L), kid(p, L), t.l, z);
    } else if z in Nodes(t.r) {
      RepNodes(kid, key, n, a.Part(key(p), R), kid(p, R), t.r, z);
    }
  }

  /** A node's link is null exactly when its subtree is empty. */
  lemma RepChild(kid: Kids, key: Keys, n: set<int>, a: Span, p: int, t: Tr, s: Side)
    requires Rep(kid, key, n, a, p, t) && t.Node?
    ensures p in n && t.x == p && (kid(p, s) == 0 <==> Child(t, s).Nil?)
    ensures kid(p, s) != 0 ==> kid(p, s) in n && Child(t, s).x == kid(p, s)
  {}

  ghost predicate Inside(a: Span, b: Span) { forall k {:trigger a.Has(k)} :: a.Has(k) ==> b.Has(k) }

  /** Only the links of nodes in its span matter to a tree. */
  lemma {:induction false} RepFrame(kid: Kids, kid': Kids, key: Keys, n: set<int>, a: Span, p: int, t: Tr)
    requires Rep(kid, key, n, a, p, t)
    requires forall z, q :: z in n && a.Has(key(z)) ==> kid'(z, q) == kid(z, q)
    ensures Rep(kid', key, n, a, p, t)
    decreases t
  {
    if t.Node? {
      PartInside(a, key(p), L);
      PartInside(a, key(p), R);
      RepFrame(kid, kid', key, n, a.Part(key(p), L), kid(p, L), t.l);
      RepFrame(kid, kid', key, n, a.Part(key(p), R), kid(p, R), t.r);
    }
  }

  lemma PartInside(a: Span, k: int, s: Side)
    requires a.Has(k)
    ensures Inside(a.Part(k, s), a)
  {}

  /** A tree holds as well in a wider span and within its own nodes. */
  lemma {:induction false} RepWiden(kid: Kids, key: Keys, n: set<int>, n': set<int>, a: Span, b: Span, p: int, t: Tr)
    requires Rep(kid, key, n, a, p, t) && Inside(a, b) && Nodes(t) <= n'
    ensures Rep(kid, key, n', b, p, t)
    decreases t
  {
    if t.Node? {
      PartsInside(a, b, key(p));
      RepWiden(kid, key, n, n', a.Part(key(p), L), b.Part(key(p), L), kid(p, L), t.l);
      RepWiden(kid, key, n, n', a.Part(key(p), R), b.Part(key(p), R), kid(p, R), t.r);
    }
  }

  lemma PartsInside(a: Span, b: Span, k: int)
    requires a.Has(k) && Inside(a, b)
    ensures Inside(a.Part(k, L), b.Part(k, L)) && Inside(a.Part(k, R), b.Part(k, R))
  {
    forall j | a.Part(k, L).Has(j) ensures b.Part(k, L).Has(j) { assert a.Has(j); }
    forall j | a.Part(k, R).Has(j) ensures b.Part(k, R).Has(j) { assert a.Has(j); }
  }

  // ---- spines

  /** A node set aside, with the subtree on its outer side. */
  datatype Item = Item(x: int, sub: Tr)
  type Spine = seq<Item>

  /** Bound set by the items before i; the chain goes along side c. */
  function Limit(key: Keys, sp: Spine, c: Side, i: nat): Bound
    requires i <= |sp|
  {
    if i == 0 then (if c == L then High else Low) else At(key(sp[i - 1].x))
  }

  /** The node whose link on side c leads to item i: the local node, or an item. */
  function Before(hd: int, sp: Spine, i: nat): int
    requires i <= |sp|
  {
    if i == 0 then hd else sp[i - 1].x
  }

  /** Keys between an inner bound and an outer one. */
  function Between(c: Side, inner: Bound, outer: Bound): Span {
    if c == L then Span(inner, outer) else Span(outer, inner)
  }

  /** Item i is linked from the one before, lies within its bound, and holds its subtree. */
  ghost predicate ItemOk(kid: Kids, key: Keys, n: set<int>, hd: int, sp: Spine, c: Side, i: nat)
    requires i < |sp|
  {
    var x := sp[i].x;
    && x in n && x != 0 && kid(Before(hd, sp, i), c) == x
    && Between(c, if c == L then Low else High, Limit(key, sp, c, i)).Has(key(x))
    && Rep(kid, key, n, Between(c, At(key(x)), Limit(key, sp, c, i)), kid(x, c.Other()), sp[i].sub)
  }

  ghost predicate SpineOk(kid: Kids, key: Keys, n: set<int>, hd: int, sp: Spine, c: Side) {
    forall i {:trigger ItemOk(kid, key, n, hd, sp, c, i)} :: 0 <= i < |sp| ==> ItemOk(kid, key, n, hd, sp, c, i)
  }

  /** The tree of a spine with m hung at its end. */
  function Build(sp: Spine, c: Side, m: Tr): Tr {
    if sp == [] then m
    else Build(sp[..|sp| - 1], c, Make(c, sp[|sp| - 1].x, m, sp[|sp| - 1].sub))
  }

  /** In-order nodes of a spine. */
  function SpineIn(sp: Spine, c: Side): seq<int> {
    if sp == [] then []
    else
      var it := sp[|sp| - 1];
      if c == R then SpineIn(sp[..|sp| - 1], c) + In(it.sub) + [it.x]
      else [it.x] + In(it.sub) + SpineIn(sp[..|sp| - 1], c)
  }

  lemma {:induction false} BuildIn(sp: Spine, c: Side, m: Tr)
    ensures In(Build(sp, c, m)) == if c == R then SpineIn(sp, c) + In(m) else In(m) + SpineIn(sp, c)
    decreases |sp|
  {
    if sp == [] {
    } else {
      var it := sp[|sp| - 1];
      BuildIn(sp[..|sp| - 1], c, Make(c, it.x, m, it.sub));
    }
  }

  /** Items go steadily inwards. */
  lemma {:induction false} SpineOrder(kid: Kids, key: Keys, n: set<int>, hd: int, sp: Spine, c: Side, i: nat, j: nat)
    requires SpineOk(kid, key, n, hd, sp, c) && i < j < |sp|
    ensures if c == L then key(sp[j].x) < key(sp[i].x) else key(sp[i].x) < key(sp[j].x)
    decreases j
  {
    assert ItemOk(kid, key, n, hd, sp, c, j);
    if i < j - 1 { SpineOrder(kid, key, n, hd, sp, c, i, j - 1); }
  }

  /** A key inside the end of a spine is inside all its items. */
  lemma SpinePast(kid: Kids, key: Keys, n: set<int>, hd: int, sp: Spine, c: Side, k: int)
    requires SpineOk(kid, key, n, hd, sp, c) && Between(c, if c == L then Low else High, Limit(key, sp, c, |sp|)).Has(k)
    ensures forall i :: 0 <= i < |sp| ==> Between(c, At(k), if c == L then High else Low).Has(key(sp[i].x))
  {
    forall i | 0 <= i < |sp| ensures Between(c, At(k), if c == L then High else Low).Has(key(sp[i].x)) {
      if i < |sp| - 1 { SpineOrder(kid, key, n, hd, sp, c, i, |sp| - 1); }
    }
  }

  /** Hanging a tree at the end of a spine gives a tree. */
  lemma {:induction false} RepBuild(kid: Kids, key: Keys, n: set<int>, hd: int, sp: Spine, c: Side, inner: Bound, m: Tr)
    requires SpineOk(kid, key, n, hd, sp, c)
    requires forall i :: 0 <= i < |sp| ==> Between(c, inner, if c == L then High else Low).Has(key(sp[i].x))
    requires Rep(kid, key, n, Between(c, inner, Limit(key, sp, c, |sp|)), kid(Before(hd, sp, |sp|), c), m)
    ensures Rep(kid, key, n, Between(c, inner, if c == L then High else Low), kid(hd, c), Build(sp, c, m))
    decreases |sp|
  {
    if sp != [] {
      var last := |sp| - 1;
      var it, pre := sp[last], sp[..last];
      assert ItemOk(kid, key, n, hd, sp, c, last);
      assert Rep(kid, key, n, Between(c, inner, Limit(key, sp, c, last)), it.x, Make(c, it.x, m, it.sub));
      forall i | 0 <= i < |pre| ensures ItemOk(kid, key, n, hd, pre, c, i) { assert ItemOk(kid, key, n, hd, sp, c, i); }
      RepBuild(kid, key, n, hd, pre, c, inner, Make(c, it.x, m, it.sub));
    }
  }

  /** What lies at or beyond the end of a spine. */
  predicate AtOrPast(key: Keys, sp: Spine, c: Side, z: int) {
    sp != [] && if c == L then key(sp[|sp| - 1].x) <= key(z) else key(z) <= key(sp[|sp| - 1].x)
  }

  /** A spine does not notice changes inside its end, nor the link at its end. */
  lemma SpineFrame(kid: Kids, kid': Kids, key: Keys, n: set<int>, hd: int, sp: Spine, c: Side)
    requires SpineOk(kid, key, n, hd, sp, c) && hd !in n
    requires sp != [] ==> kid'(hd, c) == kid(hd, c)
    requires forall z, q :: z in n && AtOrPast(key, sp, c, z) && !(z == Before(hd, sp, |sp|) && q == c) ==>
               kid'(z, q) == kid(z, q)
    ensures SpineOk(kid', key, n, hd, sp, c)
  {
    forall i | 0 <= i < |sp| ensures ItemOk(kid', key, n, hd, sp, c, i) {
      ItemFrame(kid, kid', key, n, hd, sp, c, i);
    }
  }

  lemma ItemFrame(kid: Kids, kid': Kids, key: Keys, n: set<int>, hd: int, sp: Spine, c: Side, i: nat)
    requires SpineOk(kid, key, n, hd, sp, c) && hd !in n && i < |sp|
    requires kid'(hd, c) == kid(hd, c)
    requires forall z, q :: z in n && AtOrPast(key, sp, c, z) && !(z == Before(hd, sp, |sp|) && q == c) ==>
               kid'(z, q) == kid(z, q)
    ensures ItemOk(kid', key, n, hd, sp, c, i)
  {
    assert ItemOk(kid, key, n, hd, sp, c, i);
    var last := |sp| - 1;
    if i < last { SpineOrder(kid, key, n, hd, sp, c, i, last); }
    if 0 < i { assert ItemOk(kid, key, n, hd, sp, c, i - 1); SpineOrder(kid, key, n, hd, sp, c, i - 1, last); }
    RepFrame(kid, kid', key, n, Between(c, At(key(sp[i].x)), Limit(key, sp, c, i)), kid(sp[i].x, c.Other()), sp[i].sub);
  }

  // ---- the state of a splay

  function Mid(key: Keys, spL: Spine, spR: Spine): Span { Span(Limit(key, spR, R, |spR|), Limit(key, spL, L, |spL|)) }

  /** Midway through a splay for key k: larger keys on the spine spL, whose chain
      goes left, smaller ones on spR, and the rest still a tree. */
  ghost predicate Midway(kid: Kids, key: Keys, n: set<int>, k: int, hd: int, root: int, m: Tr, spL: Spine, spR: Spine) {
    && m.Node? && hd !in n && Mid(key, spL, spR).Has(k)
    && SpineOk(kid, key, n, hd, spL, L) && SpineOk(kid, key, n, hd, spR, R)
    && Rep(kid, key, n, Mid(key, spL, spR), root, m)
  }

  lemma EndsIn(kid: Kids, key: Keys, n: set<int>, k: int, hd: int, root: int, m: Tr, spL: Spine, spR: Spine)
    requires Midway(kid, key, n, k, hd, root, m, spL, spR)
    ensures root in n && m.x == root && Before(hd, spL, |spL|) in n + {hd} && Before(hd, spR, |spR|) in n + {hd}
  {
    if spL != [] { assert ItemOk(kid, key, n, hd, spL, L, |spL| - 1); }
    if spR != [] { assert ItemOk(kid, key, n, hd, spR, R, |spR| - 1); }
  }

  /** The in-order nodes of all three parts. */
  function Whole(m: Tr, spL: Spine, spR: Spine): seq<int> { SpineIn(spR, R) + In(m) + SpineIn(spL, L) }

  /** SPLAY_ROTATE_RIGHT for L, SPLAY_ROTATE_LEFT for R. */
  function Turn(kid: Kids, root: int, tmp: int, s: Side): Kids {
    SetKid(SetKid(kid, root, s, kid(tmp, s.Other())), tmp, s.Other(), root)
  }

  function Turned(m: Tr, s: Side): Tr
    requires m.Node? && Child(m, s).Node?
  {
    var y := Child(m, s);
    Make(s, y.x, Child(y, s), Make(s, m.x, Child(y, s.Other()), Child(m, s.Other())))
  }

  lemma TurnedIn(m: Tr, s: Side)
    requires m.Node? && Child(m, s).Node?
    ensures In(Turned(m, s)) == In(m) && Size(Turned(m, s)) == Size(m)
  {}

  lemma TurnRep(kid: Kids, key: Keys, n: set<int>, a: Span, root: int, m: Tr, s: Side)
    requires Rep(kid, key, n, a, root, m) && m.Node? && Child(m, s).Node?
    ensures var y := Child(m, s).x;
            kid(root, s) == y && y in n && a.Has(key(y)) && a.Has(key(root))
            && Rep(Turn(kid, root, y, s), key, n, a, y, Turned(m, s))
  {
    var t := Child(m, s);
    var y := t.x;
    var kid' := Turn(kid, root, y, s);
    var o := s.Other();
    RepFrame(kid, kid', key, n, a.Part(key(root), o), kid(root, o), Child(m, o));
    RepFrame(kid, kid', key, n, a.Part(key(root), s).Part(key(y), s), kid(y, s), Child(t, s));
    RepFrame(kid, kid', key, n, a.Part(key(root), s).Part(key(y), o), kid(y, o), Child(t, o));
  }

  lemma TurnMidway(kid: Kids, key: Keys, n: set<int>, k: int, hd: int, root: int, m: Tr, spL: Spine, spR: Spine,
                   s: Side)
    requires Midway(kid, key, n, k, hd, root, m, spL, spR) && Child(m, s).Node?
    ensures var y := Child(m, s).x;
            kid(root, s) == y && Midway(Turn(kid, root, y, s), key, n, k, hd, y, Turned(m, s), spL, spR)
  {
    var kid' := Turn(kid, root, Child(m, s).x, s);
    TurnRep(kid, key, n, Mid(key, spL, spR), root, m, s);
    SpineFrame(kid, kid', key, n, hd, spL, L);
    SpineFrame(kid, kid', key, n, hd, spR, R);
  }

  /** SPLAY_LINKLEFT for L, SPLAY_LINKRIGHT for R: the root joins the spine. */
  lemma LinkMidway(kid: Kids, key: Keys, n: set<int>, k: int, hd: int, root: int, m: Tr, spL: Spine, spR: Spine,
                   s: Side)
    requires Midway(kid, key, n, k, hd, root, m, spL, spR) && Child(m, s).Node?
    requires if s == L then k < key(root) else key(root) < k
    ensures var sp := if s == L then spL else spR;
            var sp' := sp + [Item(root, Child(m, s.Other()))];
            var kid' := SetKid(kid, Before(hd, sp, |sp|), s, root);
            && kid'(root, s) == kid(root, s)
            && Midway(kid', key, n, k, hd, kid(root, s), Child(m, s),
                      if s == L then sp' else spL, if s == R then sp' else spR)
  {
    var sp, other := if s == L then spL else spR, if s == L then spR else spL;
    var kid' := SetKid(kid, Before(hd, sp, |sp|), s, root);
    var mid := Mid(key, spL, spR);
    if sp != [] { assert ItemOk(kid, key, n, hd, sp, s, |sp| - 1); }
    RepFrame(kid, kid', key, n, mid.Part(key(root), s), kid(root, s), Child(m, s));
    RepFrame(kid, kid', key, n, mid.Part(key(root), s.Other()), kid(root, s.Other()), Child(m, s.Other()));
    SpineFrame(kid, kid', key, n, hd, other, s.Other());
    LinkSpine(kid, kid', key, n, hd, sp, s, root, Child(m, s.Other()));
  }

  /** A spine with one more item at its end. */
  lemma LinkSpine(kid: Kids, kid': Kids, key: Keys, n: set<int>, hd: int, sp: Spine, c: Side, x: int, sub: Tr)
    requires SpineOk(kid, key, n, hd, sp, c) && hd !in n && kid' == SetKid(kid, Before(hd, sp, |sp|), c, x)
    requires x in n && x != 0 && Between(c, if c == L then Low else High, Limit(key, sp, c, |sp|)).Has(key(x))
    requires Rep(kid', key, n, Between(c, At(key(x)), Limit(key, sp, c, |sp|)), kid'(x, c.Other()), sub)
    ensures SpineOk(kid', key, n, hd, sp + [Item(x, sub)], c)
  {
    var sp' := sp + [Item(x, sub)];
    if sp != [] { assert ItemOk(kid, key, n, hd, sp, c, |sp| - 1); }
    SpineFrame(kid, kid', key, n, hd, sp, c);
    forall i | 0 <= i < |sp'| ensures ItemOk(kid', key, n, hd, sp', c, i) {
      if i < |sp| { assert ItemOk(kid', key, n, hd, sp, c, i); }
    }
  }

  lemma LinkWhole(m: Tr, spL: Spine, spR: Spine, s: Side)
    requires m.Node?
    ensures var it := Item(m.x, Child(m, s.Other()));
            Whole(Child(m, s), if s == L then spL + [it] else spL, if s == R then spR + [it] else spR) ==
              Whole(m, spL, spR)
  {
    var it := Item(m.x, Child(m, s.Other()));
    assert (spL + [it])[..|spL|] == spL && (spR + [it])[..|spR|] == spR;
  }

  /** SPLAY_ASSEMBLE */
  function Assemble(kid: Kids, root: int, hd: int, left: int, right: int): Kids {
    var k1 := SetKid(kid, left, R, kid(root, L));
    var k2 := SetKid(k1, right, L, k1(root, R));
    var k3 := SetKid(k2, root, L, k2(hd, R));
    SetKid(k3, root, R, k3(hd, L))
  }

  function Assembled(m: Tr, spL: Spine, spR: Spine): Tr
    requires m.Node?
  {
    Node(Build(spR, R, m.l), m.x, Build(spL, L, m.r))
  }

  lemma AssembledIn(m: Tr, spL: Spine, spR: Spine)
    requires m.Node?
    ensures In(Assembled(m, spL, spR)) == Whole(m, spL, spR)
  {
    BuildIn(spR, R, m.l);
    BuildIn(spL, L, m.r);
  }

  /** The ends get the subtrees of the root. */
  ghost predicate Hung(kid: Kids, kid': Kids, root: int, hd: int, left: int, right: int) {
    && kid'(left, R) == kid(root, L) && kid'(right, L) == kid(root, R)
    && forall z, q :: !(z == left && q == R) && !(z == right && q == L) ==> kid'(z, q) == kid(z, q)
  }

  /** One spine, with its subtree of the root hung at its end, is a tree. */
  lemma HungBuild(kid: Kids, kid': Kids, key: Keys, n: set<int>, k: int, hd: int, root: int, m: Tr, spL: Spine,
                  spR: Spine, c: Side)
    requires Midway(kid, key, n, k, hd, root, m, spL, spR)
    requires Hung(kid, kid', root, hd, Before(hd, spR, |spR|), Before(hd, spL, |spL|))
    ensures Rep(kid', key, n, Span(Low, High).Part(key(root), c.Other()), kid'(hd, c),
                Build(if c == L then spL else spR, c, Child(m, c.Other())))
  {
    var sp, other := if c == L then spL else spR, if c == L then spR else spL;
    var mid := Mid(key, spL, spR);
    if sp != [] { assert ItemOk(kid, key, n, hd, sp, c, |sp| - 1); }
    if other != [] { assert ItemOk(kid, key, n, hd, other, c.Other(), |other| - 1); }
    SpineFrame(kid, kid', key, n, hd, sp, c);
    RepFrame(kid, kid', key, n, mid.Part(key(root), c.Other()), kid(root, c.Other()), Child(m, c.Other()));
    SpinePast(kid, key, n, hd, sp, c, key(root));
    RepBuild(kid', key, n, hd, sp, c, At(key(root)), Child(m, c.Other()));
  }

  /** Assembling gives one tree again. */
  lemma AssembleRep(kid: Kids, key: Keys, n: set<int>, k: int, hd: int, root: int, m: Tr, spL: Spine, spR: Spine)
    requires Midway(kid, key, n, k, hd, root, m, spL, spR)
    ensures Rep(Assemble(kid, root, hd, Before(hd, spR, |spR|), Before(hd, spL, |spL|)), key, n, Span(Low, High), root,
                Assembled(m, spL, spR))
  {
    var left, right := Before(hd, spR, |spR|), Before(hd, spL, |spL|);
    var k2 := SetKid(SetKid(kid, left, R, kid(root, L)), right, L, kid(root, R));
    var kid' := Assemble(kid, root, hd, left, right);
    if spL != [] { assert ItemOk(kid, key, n, hd, spL, L, |spL| - 1); }
    if spR != [] { assert ItemOk(kid, key, n, hd, spR, R, |spR| - 1); }
    HungBuild(kid, k2, key, n, k, hd, root, m, spL, spR, L);
    HungBuild(kid, k2, key, n, k, hd, root, m, spL, spR, R);
    RepFrame(k2, kid', key, n, Span(Low, At(key(root))), k2(hd, R), Build(spR, R, m.l));
    RepFrame(k2, kid', key, n, Span(At(key(root)), High), k2(hd, L), Build(spL, L, m.r));
  }

  /** The search can go no further: nothing on k's side of the root. */
  ghost predicate Stuck(key: Keys, k: int, m: Tr, s: Side) {
    m.Node? && (if s == L then k < key(m.x) else key(m.x) < k) && Child(m, s).Nil?
  }

  /** Then no key lies between k and the root's. */
  lemma StuckNeighbour(kid: Kids, key: Keys, n: set<int>, k: int, hd: int, root: int, m: Tr, spL: Spine, spR: Spine,
                       s: Side)
    requires Midway(kid, key, n, k, hd, root, m, spL, spR) && Stuck(key, k, m, s)
    ensures var t := Assembled(m, spL, spR);
            forall z :: z in Nodes(Child(t, s)) ==> if s == L then key(z) < k else k < key(z)
  {
    var left, right := Before(hd, spR, |spR|), Before(hd, spL, |spL|);
    var k2 := SetKid(SetKid(kid, left, R, kid(root, L)), right, L, kid(root, R));
    var c := s.Other();
    var sp := if c == L then spL else spR;
    if spL != [] { assert ItemOk(kid, key, n, hd, spL, L, |spL| - 1); }
    if spR != [] { assert ItemOk(kid, key, n, hd, spR, R, |spR| - 1); }
    SpineFrame(kid, k2, key, n, hd, sp, c);
    RepChild(kid, key, n, Mid(key, spL, spR), root, m, s);
    SpinePast(kid, key, n, hd, sp, c, k);
    RepBuild(k2, key, n, hd, sp, c, At(k), Nil);
    forall z | z in Nodes(Child(Assembled(m, spL, spR), s)) ensures if s == L then key(z) < k else k < key(z) {
      RepNodes(k2, key, n, Between(c, At(k), if c == L then High else Low), k2(hd, c), Build(sp, c, Nil), z);
    }
  }

  lemma {:induction false} InNodes(t: Tr, z: int)
    ensures z in In(t) <==> z in Nodes(t)
    decreases t
  {
    if t.Node? {
      InNodes(t.l, z);
      InNodes(t.r, z);
    }
  }

  /** A tree's in-order sequence is sorted by key. */
  lemma {:induction false} InSorted(kid: Kids, key: Keys, n: set<int>, a: Span, p: int, t: Tr, i: nat, j: nat)
    requires Rep(kid, key, n, a, p, t) && i < j < |In(t)|
    ensures key(In(t)[i]) < key(In(t)[j])
    decreases t
  {
    var u, v := In(t.l), In(t.r);
    assert In(t) == u + [t.x] + v;
    if j < |u| {
      InSorted(kid, key, n, a.Part(key(p), L), kid(p, L), t.l, i, j);
    } else if i > |u| {
      InSorted(kid, key, n, a.Part(key(p), R), kid(p, R), t.r, i - |u| - 1, j - |u| - 1);
    } else {
      if i < |u| { InSide(kid, key, n, a, p, t, L, u[i]); }
      if j > |u| { InSide(kid, key, n, a, p, t, R, v[j - |u| - 1]); }
    }
  }

  lemma InSide(kid: Kids, key: Keys, n: set<int>, a: Span, p: int, t: Tr, s: Side, z: int)
    requires Rep(kid, key, n, a, p, t) && t.Node? && z in In(Child(t, s))
    ensures if s == L then key(z) < key(p) else key(p) < key(z)
  {
    InNodes(Child(t, s), z);
    RepNodes(kid, key, n, a.Part(key(p), s), kid(p, s), Child(t, s), z);
  }

  /** A tree whose keys all lie in b holds in b. */
  lemma {:induction false} RepOwn(kid: Kids, key: Keys, n: set<int>, a: Span, p: int, t: Tr, b: Span)
    requires Rep(kid, key, n, a, p, t) && forall z :: z in Nodes(t) ==> b.Has(key(z))
    ensures Rep(kid, key, Nodes(t), b, p, t)
    decreases t
  {
    if t.Node? {
      forall z | z in Nodes(t.l) ensures b.Part(key(p), L).Has(key(z)) {
        RepNodes(kid, key, n, a.Part(key(p), L), kid(p, L), t.l, z);
      }
      forall z | z in Nodes(t.r) ensures b.Part(key(p), R).Has(key(z)) {
        RepNodes(kid, key, n, a.Part(key(p), R), kid(p, R), t.r, z);
      }
      RepOwn(kid, key, n, a.Part(key(p), L), kid(p, L), t.l, b.Part(key(p), L));
      RepOwn(kid, key, n, a.Part(key(p), R), kid(p, R), t.r, b.Part(key(p), R));
      RepWiden(kid, key, Nodes(t.l), Nodes(t), b.Part(key(p), L), b.Part(key(p), L), kid(p, L), t.l);
      RepWiden(kid, key, Nodes(t.r), Nodes(t), b.Part(key(p), R), b.Part(key(p), R), kid(p, R), t.r);
    }
  }
}

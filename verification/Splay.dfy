/**
 The SPLAY_ operations of sys/tree.h: every one splays, and together they keep a
 finite set ordered by key.
 */
module Splay {
  import opened RbShape
  import opened SplayTrees
  import opened SplayCost
  import opened SplayMeasure

  class Head {
    var kid: Kids
    var root: int
    const key: Keys
    ghost var t: Tr
    ghost var rounds: nat
    ghost const sc: Scale

    /** What has been spent and what the tree's shape may still cost. */
    ghost function Account(): nat
      reads this`rounds, this`t
    {
      rounds + 2 * sc.pot(t)
    }

    ghost predicate Valid()
      reads this
    {
      True(sc) && Rep(kid, key, Nodes(t), Span(Low, High), root, t)
    }

    /** SPLAY_INIT; the node fields are whatever memory holds. */
    constructor (kid: Kids, key: Keys, ghost sc: Scale)
      requires True(sc)
      ensures Valid() && t == Nil && root == 0 && this.key == key && rounds == 0 && this.sc == sc
    {
      this.kid, this.key, root, t, rounds, this.sc := kid, key, 0, Nil, 0, sc;
    }

    /** The ends of the spines under construction. */
    ghost predicate Ends(hd: int, left: int, right: int, spL: Spine, spR: Spine) {
      left == Before(hd, spR, |spR|) && right == Before(hd, spL, |spL|)
    }

    /** Only links of the nodes n and of the local node differ. */
    static ghost predicate Framed(a: Kids, b: Kids, n: set<int>, hd: int) {
      forall z, q :: z !in n && z != hd ==> a(z, q) == b(z, q)
    }

    /** SPLAY_ROTATE_RIGHT or LEFT; tmp is the root's child on side s. */
    method Rotate(ghost k: int, ghost hd: int, s: Side, tmp: int, ghost n: set<int>, ghost m0: Tr, ghost spL: Spine,
                  ghost spR: Spine)
      returns (ghost m: Tr)
      requires Midway(kid, key, n, k, hd, root, m0, spL, spR) && tmp == kid(root, s) != 0
      modifies this`kid, this`root
      ensures Midway(kid, key, n, k, hd, root, m, spL, spR) && In(m) == In(m0) && Size(m) == Size(m0) && root == tmp
      ensures Framed(kid, old(kid), n, hd) && (kid(root, s) == 0 <==> Child(m, s).Nil?) && m.x == root
      ensures m0.Node? && Child(m0, s).Node? && m == Turned(m0, s)
    {
      EndsIn(kid, key, n, k, hd, root, m0, spL, spR);
      RepChild(kid, key, n, Mid(key, spL, spR), root, m0, s);
      TurnMidway(kid, key, n, k, hd, root, m0, spL, spR, s);
      TurnedIn(m0, s);
      kid := Turn(kid, root, tmp, s);
      root := tmp;
      m := Turned(m0, s);
      RepChild(kid, key, n, Mid(key, spL, spR), root, m, s);
    }

    /** SPLAY_LINKLEFT or RIGHT: the root joins the spine, its child is next. */
    method Link(ghost k: int, ghost hd: int, s: Side, left0: int, right0: int, ghost n: set<int>, ghost m0: Tr,
                ghost spL0: Spine, ghost spR0: Spine)
      returns (left: int, right: int, ghost m: Tr, ghost spL: Spine, ghost spR: Spine)
      requires Midway(kid, key, n, k, hd, root, m0, spL0, spR0) && Ends(hd, left0, right0, spL0, spR0)
               && Child(m0, s).Node?
      requires if s == L then k < key(root) else key(root) < k
      modifies this`kid, this`root
      ensures Midway(kid, key, n, k, hd, root, m, spL, spR) && Ends(hd, left, right, spL, spR)
      ensures Whole(m, spL, spR) == Whole(m0, spL0, spR0) && Framed(kid, old(kid), n, hd) && Size(m) < Size(m0)
      ensures m == Child(m0, s) && spL == LinkedL(m0, spL0, s) && spR == LinkedR(m0, spR0, s)
    {
      left, right, spL, spR := left0, right0, spL0, spR0;
      EndsIn(kid, key, n, k, hd, root, m0, spL, spR);
      LinkMidway(kid, key, n, k, hd, root, m0, spL, spR, s);
      LinkWhole(m0, spL, spR, s);
      if s == L {
        kid := SetKid(kid, right, L, root);
        right := root;
        spL := spL + [Item(root, m0.r)];
      } else {
        kid := SetKid(kid, left, R, root);
        left := root;
        spR := spR + [Item(root, m0.l)];
      }
      root := kid(root, s);
      m := Child(m0, s);
    }

    /** The root and everything beyond it lie on side s of k. */
    lemma MidOuter(k: int, hd: int, n: set<int>, m: Tr, spL: Spine, spR: Spine, s: Side)
      requires Midway(kid, key, n, k, hd, root, m, spL, spR) && Past(key, k, s, root)
      ensures Outer(m, key, k, s)
    {
      var o := s.Other();
      forall z | z in Nodes(Child(m, o)) ensures Past(key, k, s, z) {
        RepNodes(kid, key, n, Mid(key, spL, spR).Part(key(root), o), kid(root, o), Child(m, o), z);
      }
    }

    /** What a round spends: if the splay goes on, no more than it takes off the
        budget, up to a debt of one that the next round settles. */
    static ghost predicate Pays(g: Gauge, key: Keys, k: int, m0: Tr, spL0: Spine, spR0: Spine, d: bool,
                                stop: bool, m: Tr, spL: Spine, spR: Spine, d': bool) {
      if stop then 2 * Tension(g, m, spL, spR) <= Budget(g, m0, spL0, spR0)
      else Owed(g, d', m, key, k) && 1 + Budget(g, m, spL, spR) + Debt(d) <= Budget(g, m0, spL0, spR0) + Debt(d')
    }

    /** One round of SPLAY, on the side s of the root where k belongs. */
    method Round(k: int, hd: int, s: Side, left0: int, right0: int, ghost n: set<int>, ghost m0: Tr,
                 ghost spL0: Spine, ghost spR0: Spine, ghost g: Gauge, ghost d: bool)
      returns (left: int, right: int, stop: bool, ghost m: Tr, ghost spL: Spine, ghost spR: Spine, ghost d': bool)
      requires Midway(kid, key, n, k, hd, root, m0, spL0, spR0) && Ends(hd, left0, right0, spL0, spR0)
      requires Past(key, k, s, root) && Lawful(g, key, k) && Owed(g, d, m0, key, k)
      modifies this`kid, this`root
      ensures Midway(kid, key, n, k, hd, root, m, spL, spR) && Ends(hd, left, right, spL, spR)
      ensures Whole(m, spL, spR) == Whole(m0, spL0, spR0) && Framed(kid, old(kid), n, hd)
      ensures if stop then Stuck(key, k, m, s) else Size(m) < Size(m0)
      ensures Pays(g, key, k, m0, spL0, spR0, d, stop, m, spL, spR, d')
    {
      left, right, stop, m, spL, spR, d' := left0, right0, false, m0, spL0, spR0, false;
      RepChild(kid, key, n, Mid(key, spL, spR), root, m, s);
      var tmp := kid(root, s);
      if tmp == 0 {
        return left, right, true, m, spL, spR, d';
      }
      if (if s == L then k < key(tmp) else key(tmp) < k) {
        left, right, stop, m, spL, spR := TurnAndLink(k, hd, s, left, right, n, m, spL, spR, g, d);
      } else {
        MidOuter(k, hd, n, m, spL, spR, s);
        d' := LinkPays(g, key, k, m, spL, spR, s, d);
        left, right, m, spL, spR := Link(k, hd, s, left, right, n, m, spL, spR);
      }
    }

    /** The round whose child lies on the same side: rotate, then link if there is
        more on that side. */
    method TurnAndLink(ghost k: int, ghost hd: int, s: Side, left0: int, right0: int, ghost n: set<int>, ghost m0: Tr,
                       ghost spL0: Spine, ghost spR0: Spine, ghost g: Gauge, ghost d: bool)
      returns (left: int, right: int, stop: bool, ghost m: Tr, ghost spL: Spine, ghost spR: Spine)
      requires Midway(kid, key, n, k, hd, root, m0, spL0, spR0) && Ends(hd, left0, right0, spL0, spR0)
      requires Past(key, k, s, root) && kid(root, s) != 0 && Past(key, k, s, kid(root, s))
      requires Lawful(g, key, k) && Owed(g, d, m0, key, k)
      modifies this`kid, this`root
      ensures Midway(kid, key, n, k, hd, root, m, spL, spR) && Ends(hd, left, right, spL, spR)
      ensures Whole(m, spL, spR) == Whole(m0, spL0, spR0) && Framed(kid, old(kid), n, hd)
      ensures if stop then Stuck(key, k, m, s) else Size(m) < Size(m0)
      ensures Pays(g, key, k, m0, spL0, spR0, d, stop, m, spL, spR, false)
    {
      left, right, stop, m, spL, spR := left0, right0, false, m0, spL0, spR0;
      EndsIn(kid, key, n, k, hd, root, m0, spL, spR);
      RepChild(kid, key, n, Mid(key, spL, spR), root, m0, s);
      ghost var y := Child(m0, s);
      ghost var x, w := Child(y, s), Make(s, m0.x, Child(y, s.Other()), Child(m0, s.Other()));
      m := Rotate(k, hd, s, kid(root, s), n, m, spL, spR);
      MakeChild(y.x, x, w, s);
      if kid(root, s) == 0 {
        LastTurnPays(g, key, k, m0, spL, spR, s, y, m, x, w);
        return left, right, true, m, spL, spR;
      }
      MidOuter(k, hd, n, m, spL, spR, s);
      DoublePays(g, key, k, m0, spL, spR, s, d, y, m, x, w);
      left, right, m, spL, spR := Link(k, hd, s, left, right, n, m, spL, spR);
    }

    /** One round of SPLAY_MINMAX: the rotation is unconditional. */
    method Plunge(ghost k: int, ghost hd: int, s: Side, left0: int, right0: int, ghost n: set<int>, ghost m0: Tr,
                  ghost spL0: Spine, ghost spR0: Spine, ghost g: Gauge)
      returns (left: int, right: int, stop: bool, ghost m: Tr, ghost spL: Spine, ghost spR: Spine)
      requires Midway(kid, key, n, k, hd, root, m0, spL0, spR0) && Ends(hd, left0, right0, spL0, spR0)
      requires (forall z :: z in n ==> Past(key, k, s, z)) && Lawful(g, key, k)
      modifies this`kid, this`root
      ensures Midway(kid, key, n, k, hd, root, m, spL, spR) && Ends(hd, left, right, spL, spR)
      ensures Whole(m, spL, spR) == Whole(m0, spL0, spR0) && Framed(kid, old(kid), n, hd)
      ensures if stop then Stuck(key, k, m, s) else Size(m) < Size(m0)
      ensures Pays(g, key, k, m0, spL0, spR0, false, stop, m, spL, spR, false)
    {
      left, right, stop, m, spL, spR := left0, right0, false, m0, spL0, spR0;
      EndsIn(kid, key, n, k, hd, root, m, spL, spR);
      RepChild(kid, key, n, Mid(key, spL, spR), root, m, s);
      if kid(root, s) == 0 {
        return left, right, true, m, spL, spR;
      }
      left, right, stop, m, spL, spR := TurnAndLink(k, hd, s, left, right, n, m, spL, spR, g, false);
    }

    /** No node's key is between k and the root's, and k is at the root if anywhere. */
    ghost predicate Nearest(k: int)
      reads this
    {
      forall z :: z in Nodes(t) ==>
        && (key(z) < k ==> key(z) <= key(root)) && (key(z) > k ==> key(root) <= key(z))
        && (key(z) == k ==> z == root)
    }

    /** SPLAY_ASSEMBLE ends the splay: one tree again, in the same order. */
    method Assemble(ghost k: int, hd: int, left: int, right: int, ghost m: Tr, ghost spL: Spine, ghost spR: Spine)
      requires True(sc) && Midway(kid, key, Nodes(t), k, hd, root, m, spL, spR) && Ends(hd, left, right, spL, spR)
      requires Whole(m, spL, spR) == In(t) && (key(root) == k || Stuck(key, k, m, L) || Stuck(key, k, m, R))
      modifies this`kid, this`t
      ensures Valid() && In(t) == old(In(t)) && Nodes(t) == old(Nodes(t)) && root in Nodes(t) && Nearest(k)
      ensures Framed(kid, old(kid), Nodes(t), hd) && t == Assembled(m, spL, spR)
    {
      EndsIn(kid, key, Nodes(t), k, hd, root, m, spL, spR);
      AssembleRep(kid, key, Nodes(t), k, hd, root, m, spL, spR);
      AssembledIn(m, spL, spR);
      ghost var t' := Assembled(m, spL, spR);
      forall z ensures z in Nodes(t') <==> z in Nodes(t) { InNodes(t', z); InNodes(t, z); }
      assert Nodes(t') == Nodes(t);
      if Stuck(key, k, m, L) { StuckNeighbour(kid, key, Nodes(t), k, hd, root, m, spL, spR, L); }
      if Stuck(key, k, m, R) { StuckNeighbour(kid, key, Nodes(t), k, hd, root, m, spL, spR, R); }
      kid := SplayTrees.Assemble(kid, root, hd, left, right);
      t := t';
      RootNearest(k);
    }

    lemma RootNearest(k: int)
      requires Valid() && t.Node?
      requires forall z :: k < key(root) && z in Nodes(t.l) ==> key(z) < k
      requires forall z :: key(root) < k && z in Nodes(t.r) ==> k < key(z)
      ensures Nearest(k)
    {
      forall z | z in Nodes(t.l) ensures key(z) < key(root) {
        RepNodes(kid, key, Nodes(t), Span(Low, At(key(root))), kid(root, L), t.l, z);
      }
      forall z | z in Nodes(t.r) ensures key(root) < key(z) {
        RepNodes(kid, key, Nodes(t), Span(At(key(root)), High), kid(root, R), t.r, z);
      }
    }

    /** At the end no more nodes are hung on a spine than were counted for it. */
    lemma EndCounts(g: Gauge, k: int, hd: int, n: set<int>, m: Tr, spL: Spine, spR: Spine)
      requires Midway(kid, key, n, k, hd, root, m, spL, spR) && Lawful(g, key, k)
      requires key(root) == k || Stuck(key, k, m, L) || Stuck(key, k, m, R)
      ensures g.size(m.r) <= g.count(m, L) && g.size(m.l) <= g.count(m, R)
    {
      EndCount(g, k, hd, n, m, spL, spR, L);
      EndCount(g, k, hd, n, m, spL, spR, R);
    }

    lemma EndCount(g: Gauge, k: int, hd: int, n: set<int>, m: Tr, spL: Spine, spR: Spine, s: Side)
      requires Midway(kid, key, n, k, hd, root, m, spL, spR) && Lawful(g, key, k)
      requires key(root) == k || Stuck(key, k, m, L) || Stuck(key, k, m, R)
      ensures g.size(Child(m, s.Other())) <= g.count(m, s)
    {
      var o := s.Other();
      var u := Child(m, o);
      forall z | z in Nodes(u) ensures Past(key, k, s, z) {
        RepNodes(kid, key, n, Mid(key, spL, spR).Part(key(root), o), kid(root, o), u, z);
      }
      NodeCount(g, key, k, m, s, s);
      assert Sided(g, key, k, u, s);
    }

    /** The books at the end of a splay. */
    lemma Settle(g: Gauge, k: int, t0: Tr, m: Tr, spL: Spine, spR: Spine, spent: nat)
      requires True(sc) && Lawful(g, key, k) && g.size == sc.size && g.pot == sc.pot && g.rank == sc.lg && m.Node?
      requires g.size(m.r) <= g.count(m, L) && g.size(m.l) <= g.count(m, R)
      requires spent + 2 * Tension(g, m, spL, spR) <= Budget(g, t0, [], []) + 2
      requires In(Assembled(m, spL, spR)) == In(t0)
      ensures spent + 2 * sc.pot(Assembled(m, spL, spR)) <= 2 * sc.pot(t0) + 6 * sc.lg(sc.size(t0)) + 2
    {
      AssembledPot(g, key, k, m, spL, spR);
      ScaleIn(sc, Assembled(m, spL, spR));
      ScaleIn(sc, t0);
    }

    /** The books during a splay of t0. */
    static ghost predicate Books(g: Gauge, key: Keys, k: int, t0: Tr, m: Tr, spL: Spine, spR: Spine, d: bool,
                                 stop: bool, spent: int) {
      if stop then spent + 2 * Tension(g, m, spL, spR) <= Budget(g, t0, [], []) + 2
      else Owed(g, d, m, key, k) && spent + Budget(g, m, spL, spR) <= Budget(g, t0, [], []) + Debt(d)
    }

    static lemma BooksKept(g: Gauge, key: Keys, k: int, t0: Tr, m0: Tr, spL0: Spine, spR0: Spine, d: bool, spent: int,
                           stop: bool, m: Tr, spL: Spine, spR: Spine, d': bool)
      requires Books(g, key, k, t0, m0, spL0, spR0, d, false, spent)
      requires Pays(g, key, k, m0, spL0, spR0, d, stop, m, spL, spR, d')
      ensures Books(g, key, k, t0, m, spL, spR, d', stop, spent + 1)
    {}

    /** The loop of SPLAY. */
    method Search(k: int, hd: int, ghost g: Gauge)
      returns (left: int, right: int, ghost m: Tr, ghost spL: Spine, ghost spR: Spine)
      requires Midway(kid, key, Nodes(t), k, hd, root, t, [], []) && Lawful(g, key, k)
      modifies this`kid, this`root, this`rounds
      ensures Midway(kid, key, Nodes(t), k, hd, root, m, spL, spR) && Ends(hd, left, right, spL, spR)
      ensures Whole(m, spL, spR) == In(t) && Framed(kid, old(kid), Nodes(t), hd)
      ensures key(root) == k || Stuck(key, k, m, L) || Stuck(key, k, m, R)
      ensures rounds >= old(rounds) && rounds - old(rounds) + 2 * Tension(g, m, spL, spR) <= Budget(g, t, [], []) + 2
    {
      var stop := false;
      left, right := hd, hd;
      ghost var d := false;
      m, spL, spR := t, [], [];
      assert Whole(m, spL, spR) == In(t);
      while !stop && key(root) != k
        invariant Midway(kid, key, Nodes(t), k, hd, root, m, spL, spR) && Ends(hd, left, right, spL, spR)
        invariant Whole(m, spL, spR) == In(t) && Framed(kid, old(kid), Nodes(t), hd)
        invariant stop ==> Stuck(key, k, m, L) || Stuck(key, k, m, R)
        invariant rounds >= old(rounds) && Books(g, key, k, t, m, spL, spR, d, stop, rounds - old(rounds))
        decreases if stop then 0 else 1, Size(m)
      {
        var s := if k < key(root) then L else R;
        ghost var m0, spL0, spR0, d0 := m, spL, spR, d;
        left, right, stop, m, spL, spR, d := Round(k, hd, s, left, right, Nodes(t), m, spL, spR, g, d);
        BooksKept(g, key, k, t, m0, spL0, spR0, d0, rounds - old(rounds), stop, m, spL, spR, d);
        rounds := rounds + 1;
      }
    }

    /** The first step of a splay: the local node is cleared. */
    method Clear(ghost k: int, hd: int)
      requires Valid() && root != 0 && hd !in Nodes(t)
      modifies this`kid
      ensures Midway(kid, key, Nodes(t), k, hd, root, t, [], []) && Framed(kid, old(kid), Nodes(t), hd)
    {
      kid := SetKid(SetKid(kid, hd, L, 0), hd, R, 0);
      RepFrame(old(kid), kid, key, Nodes(t), Span(Low, High), root, t);
    }

    static lemma FramedBoth(a: Kids, b: Kids, c: Kids, n: set<int>, hd: int)
      requires Framed(a, b, n, hd) && Framed(b, c, n, hd)
      ensures Framed(a, c, n, hd)
    {}

    /** SPLAY: the order of the nodes is kept, and the key k or a neighbour of it
        is at the root; hd is the address of the local node.  The rounds beyond
        6 lg n + 2 are paid for by the potential. */
    method Splay(k: int, hd: int)
      requires Valid() && root != 0 && hd !in Nodes(t)
      modifies this
      ensures Valid() && In(t) == old(In(t)) && Nodes(t) == old(Nodes(t)) && root != 0 && Nearest(k)
      ensures Framed(kid, old(kid), Nodes(t), hd)
      ensures Account() <= old(Account()) + 6 * sc.lg(old(sc.size(t))) + 2
    {
      ghost var g := GaugeFor(sc, key, k);
      Clear(k, hd);
      ghost var kid1 := kid;
      var left, right;
      ghost var m, spL, spR;
      left, right, m, spL, spR := Search(k, hd, g);
      ghost var kid2 := kid;
      FramedBoth(kid2, kid1, old(kid), Nodes(t), hd);
      Finish(k, hd, left, right, m, spL, spR, g, rounds - old(rounds));
      FramedBoth(kid, kid2, old(kid), Nodes(t), hd);
    }

    /** The same, with the number of nodes spelled out. */
    method SplayTo(k: int, hd: int, ghost n: nat)
      requires Valid() && root != 0 && hd !in Nodes(t) && n == sc.size(t)
      modifies this
      ensures Valid() && In(t) == old(In(t)) && Nodes(t) == old(Nodes(t)) && root in Nodes(t) && Nearest(k)
              && sc.size(t) == n
      ensures Framed(kid, old(kid), Nodes(t), hd)
      ensures Account() <= old(Account()) + 6 * sc.lg(n) + 2
    {
      ScaleIn(sc, t);
      Splay(k, hd);
      ScaleIn(sc, t);
    }

    /** The end of a splay that has spent so many rounds. */
    method Finish(ghost k: int, hd: int, left: int, right: int, ghost m: Tr, ghost spL: Spine, ghost spR: Spine,
                  ghost g: Gauge, ghost spent: nat)
      requires Midway(kid, key, Nodes(t), k, hd, root, m, spL, spR) && Ends(hd, left, right, spL, spR)
      requires Whole(m, spL, spR) == In(t) && (key(root) == k || Stuck(key, k, m, L) || Stuck(key, k, m, R))
      requires True(sc) && Lawful(g, key, k) && g.size == sc.size && g.pot == sc.pot && g.rank == sc.lg
      requires spent + 2 * Tension(g, m, spL, spR) <= Budget(g, t, [], []) + 2
      modifies this`kid, this`t
      ensures Valid() && In(t) == old(In(t)) && Nodes(t) == old(Nodes(t)) && root in Nodes(t) && root != 0 && Nearest(k)
      ensures Framed(kid, old(kid), Nodes(t), hd)
      ensures spent + 2 * sc.pot(t) <= 2 * old(sc.pot(t)) + 6 * sc.lg(old(sc.size(t))) + 2
    {
      EndsIn(kid, key, Nodes(t), k, hd, root, m, spL, spR);
      EndCounts(g, k, hd, Nodes(t), m, spL, spR);
      Assemble(k, hd, left, right, m, spL, spR);
      Settle(g, k, old(t), m, spL, spR, spent);
    }

    /** A key beyond all of them on side s. */
    lemma {:induction false} Extreme(n: set<int>, s: Side) returns (k: int)
      ensures forall z :: z in n ==> Past(key, k, s, z)
      decreases n
    {
      if x :| x in n {
        var j := Extreme(n - {x}, s);
        k := if s == L then (if j < key(x) then j else key(x) - 1) else (if key(x) < j then j else key(x) + 1);
        forall z | z in n ensures Past(key, k, s, z) { assert z == x || z in n - {x}; }
      } else {
        k := 0;
      }
    }

    /** The loop of SPLAY_MINMAX; k is beyond all keys on side s. */
    method Dive(ghost k: int, s: Side, hd: int, ghost g: Gauge)
      returns (left: int, right: int, ghost m: Tr, ghost spL: Spine, ghost spR: Spine)
      requires Midway(kid, key, Nodes(t), k, hd, root, t, [], []) && Lawful(g, key, k)
      requires forall z :: z in Nodes(t) ==> Past(key, k, s, z)
      modifies this`kid, this`root, this`rounds
      ensures Midway(kid, key, Nodes(t), k, hd, root, m, spL, spR) && Ends(hd, left, right, spL, spR)
      ensures Whole(m, spL, spR) == In(t) && Stuck(key, k, m, s)
      ensures rounds >= old(rounds) && rounds - old(rounds) + 2 * Tension(g, m, spL, spR) <= Budget(g, t, [], []) + 2
    {
      var stop := false;
      left, right := hd, hd;
      m, spL, spR := t, [], [];
      assert Whole(m, spL, spR) == In(t);
      while !stop
        invariant Midway(kid, key, Nodes(t), k, hd, root, m, spL, spR) && Ends(hd, left, right, spL, spR)
        invariant Whole(m, spL, spR) == In(t) && (stop ==> Stuck(key, k, m, s))
        invariant rounds >= old(rounds) && Books(g, key, k, t, m, spL, spR, false, stop, rounds - old(rounds))
        decreases if stop then 0 else 1, Size(m)
      {
        ghost var m0, spL0, spR0 := m, spL, spR;
        left, right, stop, m, spL, spR := Plunge(k, hd, s, left, right, Nodes(t), m, spL, spR, g);
        BooksKept(g, key, k, t, m0, spL0, spR0, false, rounds - old(rounds), stop, m, spL, spR, false);
        rounds := rounds + 1;
      }
    }

    /** SPLAY_MINMAX: the least node for L, the greatest for R, comes to the root. */
    method MinMax(s: Side, hd: int)
      requires Valid() && root != 0 && hd !in Nodes(t)
      modifies this
      ensures Valid() && In(t) == old(In(t)) && Nodes(t) == old(Nodes(t)) && root in Nodes(t)
      ensures forall z :: z in Nodes(t) ==> if s == L then key(root) <= key(z) else key(z) <= key(root)
      ensures Account() <= old(Account()) + 6 * sc.lg(old(sc.size(t))) + 2
    {
      ghost var k := Extreme(Nodes(t), s);
      ghost var g := GaugeFor(sc, key, k);
      Clear(k, hd);
      var left, right;
      ghost var m, spL, spR;
      left, right, m, spL, spR := Dive(k, s, hd, g);
      Finish(k, hd, left, right, m, spL, spR, g, rounds - old(rounds));
    }

    // ---- the set operations

    /** SPLAY_FIND */
    method Find(k: int, hd: int) returns (r: int)
      requires Valid() && hd !in Nodes(t)
      modifies this
      ensures Valid() && In(t) == old(In(t)) && Nodes(t) == old(Nodes(t))
      ensures if r == 0 then forall z :: z in Nodes(t) ==> key(z) != k else r in Nodes(t) && key(r) == k
      ensures Account() <= old(Account()) + 6 * sc.lg(old(sc.size(t))) + 2
    {
      if root == 0 {
        return 0;
      }
      Splay(k, hd);
      if key(root) == k {
        return root;
      }
      return 0;
    }

    /** The links after elm is put above the root: elm takes over the subtree on side
        s, and the root keeps the other. */
    ghost predicate SplitLinks(kid': Kids, elm: int, s: Side)
      reads this
    {
      && kid'(elm, s) == kid(root, s) && kid'(elm, s.Other()) == root
      && kid'(root, s) == 0 && kid'(root, s.Other()) == kid(root, s.Other())
      && forall z, p :: z != elm && z != root ==> kid'(z, p) == kid(z, p)
    }

    /** elm becomes the root; the old root goes below it on side s.Other(), without
        its subtree on side s. */
    lemma SplitRep(kid': Kids, elm: int, s: Side)
      requires Valid() && t.Node? && elm != 0 && elm !in Nodes(t)
      requires forall z :: z in Nodes(Child(t, s)) ==> if s == L then key(z) < key(elm) else key(elm) < key(z)
      requires if s == L then key(elm) < key(root) else key(root) < key(elm)
      requires SplitLinks(kid', elm, s)
      ensures var t' := Make(s, elm, Child(t, s), Make(s, root, Nil, Child(t, s.Other())));
              Rep(kid', key, Nodes(t'), Span(Low, High), elm, t') && Nodes(t') == Nodes(t) + {elm}
    {
      var o := s.Other();
      var n, a := Nodes(t) + {elm}, Span(Low, High);
      var t' := Make(s, elm, Child(t, s), Make(s, root, Nil, Child(t, o)));
      RepChild(kid, key, Nodes(t), a, root, t, s);
      SplitNodes(t, elm, s);
      SubRep(kid', elm, a.Part(key(elm), s), s);
      ChildSpan(o);
      SubRep(kid', elm, a.Part(key(root), o), o);
      SplitJoin(kid', n, elm, s, Child(t, s), Child(t, o));
    }

    lemma ChildSpan(s: Side)
      requires Valid() && t.Node?
      ensures forall z :: z in Nodes(Child(t, s)) ==> Span(Low, High).Part(key(root), s).Has(key(z))
    {
      forall z | z in Nodes(Child(t, s)) ensures Span(Low, High).Part(key(root), s).Has(key(z)) {
        RepNodes(kid, key, Nodes(t), Span(Low, High).Part(key(root), s), kid(root, s), Child(t, s), z);
      }
    }

    lemma SplitNodes(t: Tr, elm: int, s: Side)
      requires t.Node?
      ensures Nodes(Make(s, elm, Child(t, s), Make(s, t.x, Nil, Child(t, s.Other())))) == Nodes(t) + {elm}
    {
      var v := Make(s, t.x, Nil, Child(t, s.Other()));
      MakeNodes(s, elm, Child(t, s), v);
      MakeNodes(s, t.x, Nil, Child(t, s.Other()));
      MakeNodes(s, t.x, Child(t, s), Child(t, s.Other()));
      assert Make(s, t.x, Child(t, s), Child(t, s.Other())) == t;
    }

    lemma SplitJoin(kid': Kids, n: set<int>, elm: int, s: Side, u: Tr, v: Tr)
      requires elm != 0 && root != 0 && elm in n && root in n
               && (if s == L then key(elm) < key(root) else key(root) < key(elm))
      requires kid'(elm, s.Other()) == root && kid'(root, s) == 0
      requires Rep(kid', key, n, Span(Low, High).Part(key(elm), s), kid'(elm, s), u)
      requires Rep(kid', key, n, Span(Low, High).Part(key(root), s.Other()), kid'(root, s.Other()), v)
      ensures Rep(kid', key, n, Span(Low, High), elm, Make(s, elm, u, Make(s, root, Nil, v)))
    {
      var a, o := Span(Low, High), s.Other();
      assert a.Part(key(elm), o).Part(key(root), o) == a.Part(key(root), o);
      assert Rep(kid', key, n, a.Part(key(elm), o), root, Make(s, root, Nil, v));
    }

    /** A subtree of the root keeps its links when elm is put above it. */
    lemma SubRep(kid': Kids, elm: int, b: Span, q: Side)
      requires Valid() && t.Node? && elm !in Nodes(t)
      requires forall z :: z in Nodes(Child(t, q)) ==> b.Has(key(z))
      requires forall z, p :: z != elm && z != root ==> kid'(z, p) == kid(z, p)
      ensures Rep(kid', key, Nodes(t) + {elm}, b, kid(root, q), Child(t, q))
    {
      var a, u := Span(Low, High).Part(key(root), q), Child(t, q);
      RepOwn(kid, key, Nodes(t), a, kid(root, q), u, b);
      forall z | z in Nodes(u) ensures z != root { RepNodes(kid, key, Nodes(t), a, kid(root, q), u, z); }
      RepFrame(kid, kid', key, Nodes(u), b, kid(root, q), u);
      RepWiden(kid', key, Nodes(u), Nodes(t) + {elm}, b, b, kid(root, q), u);
    }

    /** What SPLAY_INSERT does: it returns the node with elm's key if there is one, and
        then the set stays as it was; otherwise 0, and elm is in the set. */
    twostate predicate Inserted(elm: int, r: int)
      reads this
    {
      && Valid()
      && (r != 0 ==> r in Nodes(t) && key(r) == key(elm) && In(t) == old(In(t)))
      && (r != 0 ==> Nodes(t) == old(Nodes(t)) && sc.size(t) == old(sc.size(t)))
      && (r == 0 ==> Nodes(t) == old(Nodes(t)) + {elm} && sc.size(t) == old(sc.size(t)) + 1)
      && (r == 0 ==> forall z :: z in old(Nodes(t)) ==> key(z) != key(elm))
    }

    /** SPLAY_INSERT */
    method Insert(elm: int, hd: int) returns (r: int)
      requires Valid() && elm != 0 && hd !in Nodes(t) && hd != elm
      modifies this
      ensures Inserted(elm, r)
      ensures Account() <= old(Account()) + 8 * sc.lg(old(sc.size(t)) + 1) + 2
    {
      if root == 0 {
        PutFirst(elm);
        return 0;
      }
      r := PutSplayed(elm, hd);
    }

    /** The same in a tree with a root. */
    method PutSplayed(elm: int, hd: int) returns (r: int)
      requires Valid() && root != 0 && elm != 0 && hd !in Nodes(t) && hd != elm
      modifies this
      ensures Inserted(elm, r)
      ensures Account() <= old(Account()) + 8 * sc.lg(old(sc.size(t)) + 1) + 2
    {
      ghost var n := sc.size(t);
      LgMonotone(sc, n, n + 1);
      SplayTo(key(elm), hd, n);
      r := 0;
      if key(elm) < key(root) {
        Put(elm, L);
      } else if key(elm) > key(root) {
        Put(elm, R);
      } else {
        r := root;
      }
    }

    /** elm is the only node. */
    method PutFirst(elm: int)
      requires Valid() && root == 0 && elm != 0
      modifies this`kid, this`t, this`root
      ensures Valid() && old(Nodes(t)) == {} && Nodes(t) == {elm}
      ensures sc.size(t) == old(sc.size(t)) + 1 && Account() <= old(Account()) + 2 * sc.lg(old(sc.size(t)) + 1)
    {
      ScaleNil(sc);
      ScaleMake(sc, L, elm, Nil, Nil);
      kid := SetKid(SetKid(kid, elm, R, 0), elm, L, 0);
      t := Node(Nil, elm, Nil);
      root := elm;
    }

    /** The splayed tree is split at elm's key, and elm put on top. */
    method Put(elm: int, s: Side)
      requires Valid() && root in Nodes(t) && elm != 0 && Nearest(key(elm))
      requires if s == L then key(elm) < key(root) else key(root) < key(elm)
      modifies this`kid, this`t, this`root
      ensures Valid() && Nodes(t) == old(Nodes(t)) + {elm} && forall z :: z in old(Nodes(t)) ==> key(z) != key(elm)
      ensures sc.size(t) == old(sc.size(t)) + 1 && Account() <= old(Account()) + 2 * sc.lg(old(sc.size(t)) + 1)
    {
      PutPotential(sc, t, s, elm);
      var kid' := SetKid(SetKid(SetKid(kid, elm, s, kid(root, s)), elm, s.Other(), root), root, s, 0);
      forall z | z in Nodes(Child(t, s)) ensures if s == L then key(z) < key(elm) else key(elm) < key(z) {
        RepNodes(kid, key, Nodes(t), Span(Low, High).Part(key(root), s), kid(root, s), Child(t, s), z);
      }
      assert SplitLinks(kid', elm, s);
      SplitRep(kid', elm, s);
      t := Make(s, elm, Child(t, s), Make(s, root, Nil, Child(t, s.Other())));
      kid := kid';
      root := elm;
    }

    /** The nodes with other keys than k. */
    ghost function Without(n: set<int>, k: int): set<int> { set z | z in n && key(z) != k }

    lemma WithoutRoot(l: set<int>, x: int, r: set<int>)
      requires (forall z :: z in l ==> key(z) < key(x)) && (forall z :: z in r ==> key(x) < key(z))
      ensures Without(l + {x} + r, key(x)) == l + r
    {
      forall z ensures z in Without(l + {x} + r, key(x)) <==> z in l + r {}
    }

    /** SPLAY_REMOVE: the node with elm's key leaves the set; 0 if there is none. */
    method Remove(elm: int, hd: int) returns (r: int)
      requires Valid() && hd !in Nodes(t)
      modifies this
      ensures Valid()
      ensures (exists z :: z in old(Nodes(t)) && key(z) == key(elm)) ==> r == elm
      ensures !(exists z :: z in old(Nodes(t)) && key(z) == key(elm)) ==> r == 0 && In(t) == old(In(t))
      ensures Nodes(t) == Without(old(Nodes(t)), key(elm)) && sc.size(t) <= old(sc.size(t))
      ensures Account() <= old(Account()) + 12 * sc.lg(old(sc.size(t))) + 4
    {
      if root == 0 {
        return 0;
      }
      SplayTo(key(elm), hd, sc.size(t));
      if key(root) == key(elm) {
        Unroot(key(elm), hd);
        return elm;
      }
      forall z | z in Nodes(t) ensures key(z) != key(elm) { assert key(z) == key(elm) ==> z == root; }
      assert Nodes(t) == Without(Nodes(t), key(elm));
      return 0;
    }

    /** The root, with key k, is taken out; its subtrees become one tree. */
    method Unroot(k: int, hd: int)
      requires Valid() && root in Nodes(t) && key(root) == k && hd !in Nodes(t)
      modifies this
      ensures Valid() && Nodes(t) == Without(old(Nodes(t)), k) && sc.size(t) <= old(sc.size(t))
      ensures Account() <= old(Account()) + 6 * sc.lg(old(sc.size(t))) + 2
    {
      RepChild(kid, key, Nodes(t), Span(Low, High), root, t, L);
      RepChild(kid, key, Nodes(t), Span(Low, High), root, t, R);
      Halves();
      WithoutRoot(Nodes(t.l), root, Nodes(t.r));
      ScaleMake(sc, L, t.x, t.l, t.r);
      assert t == Make(L, t.x, t.l, t.r);
      if kid(root, L) == 0 {
        root := kid(root, R);
        t := t.r;
      } else {
        var tmp := kid(root, R);
        ghost var r := t.r;
        root := kid(root, L);
        t := t.l;
        JoinRight(k, hd, tmp, r);
        LgMonotone(sc, old(sc.size(t.l)), old(sc.size(t)));
        LgMonotone(sc, sc.size(t), old(sc.size(t)));
      }
    }

    /** Splaying the left part for k brings its last node to the root, which has room
        on the right for the right part. */
    method JoinRight(k: int, hd: int, tmp: int, ghost r: Tr)
      requires Valid() && root != 0 && hd !in Nodes(t) && hd !in Nodes(r)
      requires Rep(kid, key, Nodes(r), Span(At(k), High), tmp, r)
      requires (forall z :: z in Nodes(t) ==> key(z) < k) && forall z :: z in Nodes(r) ==> k < key(z)
      modifies this
      ensures Valid() && Nodes(t) == old(Nodes(t)) + Nodes(r) && sc.size(t) == old(sc.size(t)) + sc.size(r)
      ensures Account() <= old(Account()) + 2 * sc.pot(r) + 6 * sc.lg(old(sc.size(t))) + 2 + 2 * sc.lg(sc.size(t))
    {
      ghost var was := kid;
      SplayTo(k, hd, sc.size(t));
      RepFrame(was, kid, key, Nodes(r), Span(At(k), High), tmp, r);
      Graft(k, tmp, r);
    }

    /** Both subtrees of the root hold by themselves; their nodes are the others. */
    lemma Halves()
      requires Valid() && t.Node?
      ensures Rep(kid, key, Nodes(t.l), Span(Low, High), kid(root, L), t.l)
              && Rep(kid, key, Nodes(t.r), Span(Low, High), kid(root, R), t.r)
      ensures Rep(kid, key, Nodes(t.r), Span(At(key(root)), High), kid(root, R), t.r)
      ensures forall z :: z in Nodes(t.l) ==> key(z) < key(root)
      ensures forall z :: z in Nodes(t.r) ==> key(root) < key(z)
    {
      forall z | z in Nodes(t.l) ensures key(z) < key(root) {
        RepNodes(kid, key, Nodes(t), Span(Low, At(key(root))), kid(root, L), t.l, z);
      }
      forall z | z in Nodes(t.r) ensures key(root) < key(z) {
        RepNodes(kid, key, Nodes(t), Span(At(key(root)), High), kid(root, R), t.r, z);
      }
      RepOwn(kid, key, Nodes(t), Span(Low, At(key(root))), kid(root, L), t.l, Span(Low, High));
      RepOwn(kid, key, Nodes(t), Span(At(key(root)), High), kid(root, R), t.r, Span(Low, High));
      RepOwn(kid, key, Nodes(t), Span(At(key(root)), High), kid(root, R), t.r, Span(At(key(root)), High));
    }

    /** The greatest node is at the root; the larger tree r hangs on its right. */
    method Graft(ghost k: int, tmp: int, ghost r: Tr)
      requires Valid() && root in Nodes(t) && Nearest(k) && Rep(kid, key, Nodes(r), Span(At(k), High), tmp, r)
      requires forall z :: z in Nodes(t) ==> key(z) < k
      requires forall z :: z in Nodes(r) ==> k < key(z)
      modifies this`kid, this`t
      ensures Valid() && Nodes(t) == old(Nodes(t)) + Nodes(r) && sc.size(t) == old(sc.size(t)) + sc.size(r)
      ensures sc.pot(t) <= old(sc.pot(t)) + sc.pot(r) + sc.lg(sc.size(t))
    {
      RepChild(kid, key, Nodes(t), Span(Low, High), root, t, R);
      assert t.r.Node? ==> t.r.x in Nodes(t.r) && t.r.x in Nodes(t);
      Halves();
      ghost var kid' := SetKid(kid, root, R, tmp);
      GraftRep(kid', k, tmp, r);
      GraftPotential(sc, t, r);
      t := Node(t.l, root, r);
      kid := SetKid(kid, root, R, tmp);
    }

    lemma GraftRep(kid': Kids, k: int, tmp: int, r: Tr)
      requires Valid() && t.Node? && t.r.Nil? && Rep(kid, key, Nodes(r), Span(At(k), High), tmp, r) && key(root) < k
      requires kid' == SetKid(kid, root, R, tmp) && forall z :: z in Nodes(r) ==> k < key(z)
      ensures var t' := Node(t.l, root, r);
              Rep(kid', key, Nodes(t'), Span(Low, High), root, t') && Nodes(t') == Nodes(t) + Nodes(r)
    {
      var n := Nodes(Node(t.l, root, r));
      RepChild(kid, key, Nodes(t), Span(Low, High), root, t, L);
      Halves();
      RepOwn(kid, key, Nodes(t), Span(Low, At(key(root))), kid(root, L), t.l, Span(Low, At(key(root))));
      RepFrame(kid, kid', key, Nodes(t.l), Span(Low, At(key(root))), kid(root, L), t.l);
      RepFrame(kid, kid', key, Nodes(r), Span(At(k), High), tmp, r);
      RepWiden(kid', key, Nodes(t.l), n, Span(Low, At(key(root))), Span(Low, At(key(root))), kid(root, L), t.l);
      RepWiden(kid', key, Nodes(r), n, Span(At(k), High), Span(At(key(root)), High), tmp, r);
    }

    /** SPLAY_NEXT: the node with the next larger key, or 0. */
    method Next(elm0: int, hd: int) returns (elm: int)
      requires Valid() && elm0 in Nodes(t) && hd !in Nodes(t)
      modifies this
      ensures Valid() && In(t) == old(In(t)) && Nodes(t) == old(Nodes(t))
      ensures NextAfter(elm0, elm, Nodes(t))
      ensures Account() <= old(Account()) + 6 * sc.lg(old(sc.size(t))) + 2
    {
      Splay(key(elm0), hd);
      elm := NextOfRoot();
    }

    method NextOfRoot() returns (elm: int)
      requires Valid() && root in Nodes(t)
      ensures NextAfter(root, elm, Nodes(t))
    {
      elm := root;
      RepChild(kid, key, Nodes(t), Span(Low, High), root, t, R);
      Halves();
      if kid(elm, R) != 0 {
        elm := kid(elm, R);
        elm := Leftmost(elm, t.r);
        NextInRight(Nodes(t.l), root, Nodes(t.r), elm);
      } else {
        elm := 0;
        NextInRight(Nodes(t.l), root, Nodes(t.r), elm);
      }
    }

    /** r has the least key above x's, or 0 if none is above. */
    ghost predicate NextAfter(x: int, r: int, n: set<int>) {
      if r == 0 then forall z :: z in n ==> key(z) <= key(x)
      else r in n && key(x) < key(r) && forall z :: z in n && key(x) < key(z) ==> key(r) <= key(z)
    }

    lemma NextInRight(l: set<int>, x: int, r: set<int>, elm: int)
      requires (forall z :: z in l ==> key(z) < key(x)) && (forall z :: z in r ==> key(x) < key(z))
      requires if elm == 0 then r == {} else elm in r && forall z :: z in r ==> key(elm) <= key(z)
      ensures NextAfter(x, elm, l + {x} + r)
    {
      forall z | z in l + {x} + r ensures key(z) <= key(x) || z in r {}
    }

    method Leftmost(p: int, ghost u0: Tr) returns (elm: int)
      requires u0.Node? && Rep(kid, key, Nodes(u0), Span(Low, High), p, u0)
      ensures elm != 0 && elm in Nodes(u0) && forall z :: z in Nodes(u0) ==> key(elm) <= key(z)
    {
      elm := p;
      ghost var u, a := u0, Span(Low, High);
      RepChild(kid, key, Nodes(u0), a, elm, u, L);
      while kid(elm, L) != 0
        invariant u.Node? && Rep(kid, key, Nodes(u0), a, elm, u) && elm == u.x && (kid(elm, L) != 0 ==> u.l.Node?)
        invariant forall z :: z in Nodes(u0) ==> z in Nodes(u) || key(elm) < key(z)
        decreases u
      {
        forall z | z in Nodes(u) && z !in Nodes(u.l) ensures key(u.l.x) < key(z) {
          RepNodes(kid, key, Nodes(u0), a.Part(key(elm), L), kid(elm, L), u.l, u.l.x);
          if z in Nodes(u.r) { RepNodes(kid, key, Nodes(u0), a.Part(key(elm), R), kid(elm, R), u.r, z); }
        }
        a := a.Part(key(elm), L);
        u := u.l;
        elm := kid(elm, L);
        RepChild(kid, key, Nodes(u0), a, elm, u, L);
      }
      RepNodes(kid, key, Nodes(u0), a, elm, u, elm);
      forall z | z in Nodes(u) ensures key(elm) <= key(z) {
        if z in Nodes(u.r) { RepNodes(kid, key, Nodes(u0), a.Part(key(elm), R), kid(elm, R), u.r, z); }
      }
    }
  }
}

/**
 From the local conditions to the whole tree: every node hangs under the root,
 searches find what is there, keys are distinct.
 */
module RbReach {
  import opened RbShape

  /** The nodes whose keys a span allows, and the others. */
  function Inside(t: Tree, n: set<int>, a: Span): set<int> { set y | y in n && a.Has(t.key(y)) }
  function Outside(t: Tree, n: set<int>, a: Span): set<int> { set y | y in n && !a.Has(t.key(y)) }

  lemma SubsetSize(a: set<int>, b: set<int>, x: int)
    requires a <= b && x in b && x !in a
    ensures |a| < |b|
  {
    var c := b - a;
    assert a + c == b && x in c;
    assert |a + c| == |a| + |c|;
  }

  lemma PartWithin(a: Span, k: int, s: Side, j: int)
    requires a.Has(k)
    ensures a.Part(k, s).Has(j) <==> a.Has(j) && (if s == L then j < k else k < j)
  {}

  /** Going down, fewer nodes are inside; going up, fewer are outside. */
  lemma Narrows(t: Tree, n: set<int>, sp: Spans, x: int, s: Side)
    requires Shape(t, n, sp) && x in n && t.kid(x, s) != 0
    ensures |Inside(t, n, sp(t.kid(x, s)))| < |Inside(t, n, sp(x))|
    ensures |Outside(t, n, sp(x))| < |Outside(t, n, sp(t.kid(x, s)))|
  {
    assert NodeOk(t, n, sp, x);
    var k := t.kid(x, s);
    forall y { PartWithin(sp(x), t.key(x), s, t.key(y)); }
    SubsetSize(Inside(t, n, sp(k)), Inside(t, n, sp(x)), x);
    SubsetSize(Outside(t, n, sp(x)), Outside(t, n, sp(k)), x);
  }

  lemma Widens(t: Tree, n: set<int>, sp: Spans, x: int)
    requires Shape(t, n, sp) && x in n && t.parent(x) != 0
    ensures t.parent(x) in n && t.kid(t.parent(x), t.SideOf(x)) == x
    ensures |Outside(t, n, sp(t.parent(x)))| < |Outside(t, n, sp(x))|
  {
    assert NodeOk(t, n, sp, x);
    Narrows(t, n, sp, t.parent(x), t.SideOf(x));
  }

  ghost function Room(t: Tree, n: set<int>, sp: Spans, x: int): nat {
    if x == 0 then 0 else |Inside(t, n, sp(x))|
  }

  lemma KidRoom(t: Tree, n: set<int>, sp: Spans, x: int, s: Side)
    requires Shape(t, n, sp) && x in n
    ensures t.kid(x, s) == 0 || t.kid(x, s) in n
    ensures Room(t, n, sp, t.kid(x, s)) < Room(t, n, sp, x)
  {
    assert NodeOk(t, n, sp, x);
    if t.kid(x, s) != 0 {
      Narrows(t, n, sp, x, s);
    } else {
      SubsetSize({}, Inside(t, n, sp(x)), x);
    }
  }

  /** The nodes of the subtree at x. */
  ghost function Sub(t: Tree, n: set<int>, sp: Spans, x: int): set<int>
    requires Shape(t, n, sp) && (x == 0 || x in n)
    decreases Room(t, n, sp, x)
  {
    if x == 0 then {}
    else
      KidRoom(t, n, sp, x, L);
      KidRoom(t, n, sp, x, R);
      {x} + Sub(t, n, sp, t.kid(x, L)) + Sub(t, n, sp, t.kid(x, R))
  }

  /** A subtree holds nodes, with keys in its span. */
  lemma {:induction false} SubSpan(t: Tree, n: set<int>, sp: Spans, x: int, z: int)
    requires Shape(t, n, sp) && x in n && z in Sub(t, n, sp, x)
    ensures z in n && sp(x).Has(t.key(z))
    decreases Room(t, n, sp, x)
  {
    assert NodeOk(t, n, sp, x);
    if z != x {
      var s := SubSplit(t, n, sp, x, z);
      SubSpan(t, n, sp, t.kid(x, s), z);
      PartWithin(sp(x), t.key(x), s, t.key(z));
    }
  }

  /** A node of a subtree is its top or under one of its children. */
  lemma SubSplit(t: Tree, n: set<int>, sp: Spans, x: int, z: int) returns (s: Side)
    requires Shape(t, n, sp) && x in n && z in Sub(t, n, sp, x) && z != x
    ensures t.kid(x, s) in n && t.parent(t.kid(x, s)) == x && z in Sub(t, n, sp, t.kid(x, s))
            && Sub(t, n, sp, t.kid(x, s)) <= Sub(t, n, sp, x)
    ensures Room(t, n, sp, t.kid(x, s)) < Room(t, n, sp, x)
  {
    assert NodeOk(t, n, sp, x);
    KidRoom(t, n, sp, x, L);
    KidRoom(t, n, sp, x, R);
    s := if z in Sub(t, n, sp, t.kid(x, L)) then L else R;
  }

  lemma {:induction false} SubUp(t: Tree, n: set<int>, sp: Spans, x: int, z: int)
    requires Shape(t, n, sp) && x in n && z in Sub(t, n, sp, x) && z != x
    ensures t.parent(z) in n && t.parent(z) in Sub(t, n, sp, x)
    decreases Room(t, n, sp, x)
  {
    var s := SubSplit(t, n, sp, x, z);
    if z != t.kid(x, s) { SubUp(t, n, sp, t.kid(x, s), z); }
  }

  lemma {:induction false} SubDown(t: Tree, n: set<int>, sp: Spans, x: int, z: int)
    requires Shape(t, n, sp) && x in n && z in n && t.parent(z) in n && t.parent(z) in Sub(t, n, sp, x)
    ensures z in Sub(t, n, sp, x)
    decreases Room(t, n, sp, x)
  {
    if t.parent(z) == x {
      assert NodeOk(t, n, sp, z) && NodeOk(t, n, sp, x);
      assert t.kid(x, t.SideOf(z)) == z && z in Sub(t, n, sp, z);
    } else {
      var s := SubSplit(t, n, sp, x, t.parent(z));
      SubDown(t, n, sp, t.kid(x, s), z);
    }
  }

  /** A subtree is closed under children, and under parents up to its top. */
  lemma SubLinks(t: Tree, n: set<int>, sp: Spans, x: int, z: int)
    requires Shape(t, n, sp) && x in n && z in n
    ensures z in Sub(t, n, sp, x) <==> z == x || (t.parent(z) in n && t.parent(z) in Sub(t, n, sp, x))
  {
    if z == x {
    } else if z in Sub(t, n, sp, x) {
      SubUp(t, n, sp, x, z);
    } else if t.parent(z) in n && t.parent(z) in Sub(t, n, sp, x) {
      SubDown(t, n, sp, x, z);
    }
  }

  /** Whatever hangs under z hangs under the root. */
  lemma {:induction false} SubRoot(t: Tree, n: set<int>, sp: Spans, z: int, w: int)
    requires Shape(t, n, sp) && z in n && w in Sub(t, n, sp, z)
    ensures t.root in n && w in Sub(t, n, sp, t.root)
    decreases |Outside(t, n, sp(z))|
  {
    assert NodeOk(t, n, sp, z);
    if t.parent(z) != 0 {
      Widens(t, n, sp, z);
      SubRoot(t, n, sp, t.parent(z), w);
    }
  }

  /** A node with its key in the span of x is in the subtree at x. */
  lemma {:induction false} Reach(t: Tree, n: set<int>, sp: Spans, x: int, z: int)
    requires Shape(t, n, sp) && x in n && z in n && sp(x).Has(t.key(z))
    ensures z in Sub(t, n, sp, x)
    decreases |Outside(t, n, sp(x))|
  {
    assert NodeOk(t, n, sp, x);
    var p := t.parent(x);
    if p == 0 {
      SubRoot(t, n, sp, z, z);
    } else {
      Widens(t, n, sp, x);
      assert NodeOk(t, n, sp, p);
      var s := t.SideOf(x);
      PartWithin(sp(p), t.key(p), s, t.key(z));
      Reach(t, n, sp, p, z);
      if z in Sub(t, n, sp, t.kid(p, s.Other())) {
        SubSpan(t, n, sp, t.kid(p, s.Other()), z);
        PartWithin(sp(p), t.key(p), s.Other(), t.key(z));
      }
    }
  }

  /** The tree holds all nodes. */
  lemma AllReached(t: Tree, n: set<int>, sp: Spans)
    requires Shape(t, n, sp)
    ensures t.root == 0 || t.root in n
    ensures Sub(t, n, sp, t.root) == n
  {
    if t.root != 0 {
      forall z | z in n ensures z in Sub(t, n, sp, t.root) { SubRoot(t, n, sp, z, z); }
      forall z | z in Sub(t, n, sp, t.root) ensures z in n { SubSpan(t, n, sp, t.root, z); }
    }
  }

  /** No node lies on the side of x where it has no child. */
  lemma NoneAside(t: Tree, n: set<int>, sp: Spans, x: int, s: Side, z: int)
    requires Shape(t, n, sp) && x in n && z in n && t.kid(x, s) == 0 && sp(x).Has(t.key(z))
    ensures z == x || (if s == L then t.key(x) < t.key(z) else t.key(z) < t.key(x))
  {
    assert NodeOk(t, n, sp, x);
    Reach(t, n, sp, x, z);
    if z != x {
      assert z in Sub(t, n, sp, t.kid(x, s.Other()));
      SubSpan(t, n, sp, t.kid(x, s.Other()), z);
      PartWithin(sp(x), t.key(x), s.Other(), t.key(z));
    }
  }

  /** Keys are distinct. */
  lemma KeysDistinct(t: Tree, n: set<int>, sp: Spans, x: int, z: int)
    requires Shape(t, n, sp) && x in n && z in n && t.key(x) == t.key(z)
    ensures x == z
  {
    assert NodeOk(t, n, sp, x);
    Reach(t, n, sp, x, z);
    if z != x {
      var s := SubSplit(t, n, sp, x, z);
      SubSpan(t, n, sp, t.kid(x, s), z);
      PartWithin(sp(x), t.key(x), s, t.key(z));
    }
  }

  lemma SameOutside(t: Tree, t': Tree, n: set<int>, a: Span)
    requires t'.key == t.key
    ensures Outside(t', n, a) == Outside(t, n, a)
  {}
}

/**
 Colours and black heights of red-black trees, and how recolouring and rotation
 act on them.
 */
module RbColors {
  import opened RbShape

  /** For each node, the number of black nodes on every path below it. */
  type Heights = int -> nat

  function PutHeight(bh: Heights, x: int, v: nat): Heights { y => if y == x then v else bh(y) }

  /** Black nodes on every path from x down, x included. */
  function Black(t: Tree, bh: Heights, x: int): nat {
    if x == 0 then 0 else if t.red(x) then bh(x) else bh(x) + 1
  }

  predicate HeightOk(t: Tree, bh: Heights, x: int) {
    Black(t, bh, t.kid(x, L)) == bh(x) && Black(t, bh, t.kid(x, R)) == bh(x)
  }

  /** A red node has no red child, except perhaps elm. */
  predicate RedOk(t: Tree, elm: int, x: int) {
    t.red(x) ==> (t.IsRed(t.kid(x, L)) ==> t.kid(x, L) == elm) && (t.IsRed(t.kid(x, R)) ==> t.kid(x, R) == elm)
  }

  /** Every node but `ex` has equally many black nodes on both sides. */
  ghost predicate Heights_(t: Tree, n: set<int>, bh: Heights, ex: int) {
    forall x {:trigger HeightOk(t, bh, x)} :: x in n && x != ex ==> HeightOk(t, bh, x)
  }

  /** No red node but `ex` has a red child other than `elm`. */
  ghost predicate Reds(t: Tree, n: set<int>, elm: int, ex: int) {
    forall x {:trigger RedOk(t, elm, x)} :: x in n && x != ex ==> RedOk(t, elm, x)
  }

  /** The conditions of a red-black tree. */
  ghost predicate Balanced(t: Tree, n: set<int>, bh: Heights) {
    Heights_(t, n, bh, 0) && Reds(t, n, 0, 0) && !t.IsRed(t.root)
  }

  /** t1 is t with other colours on some nodes. */
  ghost predicate Recolored(t: Tree, t1: Tree, c: set<int>) {
    && t1.root == t.root && t1.kid == t.kid && t1.parent == t.parent && t1.key == t.key
    && forall z :: z !in c ==> t1.red(z) == t.red(z)
  }

  lemma RecoloredShape(t: Tree, t1: Tree, n: set<int>, sp: Spans, c: set<int>)
    requires Shape(t, n, sp) && Recolored(t, t1, c)
    ensures Shape(t1, n, sp)
  {
    forall z | z in n ensures NodeOk(t1, n, sp, z) { assert NodeOk(t, n, sp, z); }
  }

  /** x and its child y, with y's child d, may be recoloured and x and y rotated. */
  ghost predicate Turned(t: Tree, t1: Tree, r: Tree, n: set<int>, x: int, s: Side, d: int) {
    var y := t.kid(x, s.Other());
    RotateNodes(t, n, x, s) && Recolored(t, t1, {x, y, d}) && Rotated(t1, r, x, s) && (d == 0 || t.parent(d) == y)
  }

  /** Such a turn keeps the heights elsewhere when the pair looks the same from
      above. */
  lemma TurnedHeights(t: Tree, t1: Tree, r: Tree, n: set<int>, sp: Spans, bh: Heights, bh': Heights, x: int, s: Side,
                      d: int, ex: int, ex': int)
    requires Shape(t, n, sp) && Turned(t, t1, r, n, x, s, d) && Heights_(t, n, bh, ex) && (ex == ex' || ex == x)
    requires var y := t.kid(x, s.Other());
             && (forall z :: z != x && z != y ==> bh'(z) == bh(z))
             && (x == ex' || HeightOk(r, bh', x)) && HeightOk(r, bh', y)
             && Black(r, bh', y) == Black(t, bh, x)
    ensures Heights_(r, n, bh', ex')
  {
    var y := t.kid(x, s.Other());
    RecoloredShape(t, t1, n, sp, {x, y, d});
    forall z | z in n && z != ex' ensures HeightOk(r, bh', z) {
      if z != x && z != y {
        assert HeightOk(t, bh, z);
        TurnedKid(t, t1, r, n, sp, x, s, d, z, L);
        TurnedKid(t, t1, r, n, sp, x, s, d, z, R);
      }
    }
  }

  /** What another node sees of a turn. */
  lemma TurnedKid(t: Tree, t1: Tree, r: Tree, n: set<int>, sp: Spans, x: int, s: Side, d: int, z: int, q: Side)
    requires Shape(t, n, sp) && Turned(t, t1, r, n, x, s, d) && z in n && z != x && z != t.kid(x, s.Other())
    ensures var y := t.kid(x, s.Other());
            if t.kid(z, q) == x then r.kid(z, q) == y
            else r.kid(z, q) == t.kid(z, q) && t.kid(z, q) != y && (t.kid(z, q) != 0 ==> t.kid(z, q) != d)
    ensures t.kid(z, q) != 0 ==> t.parent(t.kid(z, q)) == z
  {
    var y := t.kid(x, s.Other());
    RecoloredShape(t, t1, n, sp, {x, y, d});
    RotatedElsewhere(t1, r, n, sp, x, s, z, q);
    if t.kid(z, q) != 0 { KidApart(t, n, sp, z, q); }
  }

  lemma TurnedReds(t: Tree, t1: Tree, r: Tree, n: set<int>, sp: Spans, x: int, s: Side, d: int, elm: int, elm': int)
    requires Shape(t, n, sp) && Turned(t, t1, r, n, x, s, d) && Reds(t, n, elm, 0)
    requires var y := t.kid(x, s.Other());
             && RedOk(r, elm', x) && RedOk(r, elm', y) && (r.red(y) ==> t.red(x) && x != elm)
             && (elm == 0 || elm == x || elm == y || t.parent(elm) == x || t.parent(elm) == y)
             && (d == 0 || !r.red(d))
    ensures Reds(r, n, elm', 0)
  {
    var y := t.kid(x, s.Other());
    forall z | z in n ensures RedOk(r, elm', z) {
      if z != x && z != y {
        assert RedOk(t, elm, z);
        TurnedKid(t, t1, r, n, sp, x, s, d, z, L);
        TurnedKid(t, t1, r, n, sp, x, s, d, z, R);
      }
    }
  }
}

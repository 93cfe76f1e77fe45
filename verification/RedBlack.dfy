/**
 The RB_ operations of sys/tree.h on a tree head: insertion and removal with
 their recolouring loops, searches, and in-order stepping.
 */
module RedBlack {
  import opened RbShape
  import opened RbColors
  import opened RbReach
  import opened RbInsert
  import opened RbSplice
  import opened RbRemove

  class Head {
    var t: Tree
    ghost var n: set<int>
    ghost var sp: Spans
    ghost var bh: Heights

    ghost predicate Valid()
      reads this
    {
      Shape(t, n, sp) && Balanced(t, n, bh)
    }

    ghost function Keys(): set<int>
      reads this
    {
      set x | x in n :: t.key(x)
    }

    /** RB_INIT; the node fields are whatever memory holds. */
    constructor (fields: Tree)
      ensures Valid() && n == {} && t.root == 0 && t.key == fields.key
    {
      t := fields.(root := 0);
      n := {};
      sp := x => Span(Low, High);
      bh := x => 0;
    }

    // ---- insertion

    /** Rounds left in RB_INSERT_COLOR. */
    ghost function Climb(elm: int): nat
      reads this
    {
      if t.parent(elm) != 0 && t.red(t.parent(elm)) then 1 + |Outside(t, n, sp(elm))| else 0
    }

    /** Red uncle: recolour and go on two levels up. */
    method ColorFlip(elm: int, parent: int, gparent: int, tmp: int)
      requires Pending(t, n, sp, bh, elm) && parent == t.parent(elm) != 0 && t.red(parent)
               && gparent == t.parent(parent)
      requires tmp == t.kid(gparent, t.SideOf(parent).Other()) && t.IsRed(tmp)
      modifies this
      ensures Pending(t, n, sp, bh, gparent) && n == old(n) && t.key == old(t.key) && Climb(gparent) < old(Climb(elm))
    {
      RecolorPending(t, n, sp, bh, elm);
      Grandparent(t, n, sp, bh, elm);
      Widens(t, n, sp, elm);
      Widens(t, n, sp, parent);
      bh := PutHeight(bh, gparent, bh(gparent) + 1);
      t := Recolor(t, parent, gparent, tmp);
      SameOutside(old(t), t, n, sp(gparent));
    }

    /** RB_INSERT_COLOR: from one red node under a red parent to a red-black tree. */
    method InsertColor(elm0: int)
      requires Pending(t, n, sp, bh, elm0)
      modifies this
      ensures Valid() && n == old(n) && t.key == old(t.key)
    {
      var elm := elm0;
      while t.parent(elm) != 0 && t.red(t.parent(elm))
        invariant Pending(t, n, sp, bh, elm) && n == old(n) && t.key == old(t.key)
        decreases Climb(elm)
      {
        Grandparent(t, n, sp, bh, elm);
        var parent := t.parent(elm);
        var gparent := t.parent(parent);
        var s := if parent == t.kid(gparent, L) then L else R;
        var tmp := t.kid(gparent, s.Other());
        if tmp != 0 && t.red(tmp) {
          ColorFlip(elm, parent, gparent, tmp);
          elm := gparent;
        } else {
          elm := Straighten(elm, s);
        }
      }
      InsertSettled(t, n, sp, bh, elm);
      t := t.WithRed(t.root, false);
    }

    /** Black uncle: at most two rotations, then no red parent is left. */
    method Straighten(elm0: int, s: Side) returns (elm: int)
      requires Pending(t, n, sp, bh, elm0) && t.parent(elm0) != 0 && t.red(t.parent(elm0))
               && s == t.SideOf(t.parent(elm0))
      requires !t.IsRed(t.kid(t.parent(t.parent(elm0)), s.Other()))
      modifies this
      ensures Pending(t, n, sp, bh, elm) && n == old(n) && t.key == old(t.key) && Climb(elm) == 0
    {
      elm := elm0;
      var parent := t.parent(elm);
      var gparent := t.parent(parent);
      Grandparent(t, n, sp, bh, elm);
      if t.kid(parent, s.Other()) == elm {
        KidApart(t, n, sp, parent, s.Other());
        InnerPending(t, n, sp, bh, elm);
        sp := RotateSpans(t, sp, parent, s);
        t := Rotate(t, parent, s);
        elm, parent := parent, elm;
      }
      OuterPending(t, n, sp, bh, elm);
      sp := RotateSpans(t, sp, gparent, s.Other());
      t := t.WithRed(parent, false).WithRed(gparent, true);
      t := Rotate(t, gparent, s.Other());
    }

    /** The search of RB_INSERT: a node with elm's key, or where elm belongs. */
    method Descend(elm: int) returns (tmp: int, parent: int, comp: int)
      requires Valid() && elm != 0
      ensures tmp != 0 ==> tmp in n && t.key(tmp) == t.key(elm)
      ensures tmp == 0 ==> Vacancy(t, n, sp, elm, parent, if comp < 0 then L else R)
    {
      parent, comp := 0, 0;
      tmp := t.root;
      assert tmp != 0 ==> NodeOk(t, n, sp, tmp);
      while tmp != 0
        invariant parent == 0 ==> tmp == t.root
        invariant parent != 0 ==> parent in n && comp != 0 && tmp == t.kid(parent, if comp < 0 then L else R)
        invariant LeafSpan(t, sp, parent, if comp < 0 then L else R).Has(t.key(elm))
        invariant tmp != 0 ==> tmp in n && sp(tmp).Has(t.key(elm))
        decreases Room(t, n, sp, tmp)
      {
        assert NodeOk(t, n, sp, tmp);
        parent := tmp;
        comp := t.key(elm) - t.key(parent);
        KidRoom(t, n, sp, tmp, L);
        KidRoom(t, n, sp, tmp, R);
        if comp < 0 {
          tmp := t.kid(tmp, L);
        } else if comp > 0 {
          tmp := t.kid(tmp, R);
        } else {
          return;
        }
      }
      Absent(elm, parent, if comp < 0 then L else R);
    }

    /** RB_INSERT: the node with the same key if there is one, and then nothing
        changes; otherwise 0, and elm is a node. */
    method Insert(elm: int) returns (r: int)
      requires Valid() && elm != 0
      modifies this
      ensures Valid() && t.key == old(t.key)
      ensures t.key(elm) in old(Keys()) ==> r in n && t.key(r) == t.key(elm) && t == old(t) && n == old(n)
      ensures t.key(elm) !in old(Keys()) ==> r == 0 && n == old(n) + {elm} && Keys() == old(Keys()) + {t.key(elm)}
    {
      var tmp, parent, comp := Descend(elm);
      if tmp != 0 {
        return tmp;
      }
      ghost var s := if comp < 0 then L else R;
      Absent(elm, parent, s);
      LinkPending(t, n, sp, bh, elm, parent, s);
      n, sp, bh := n + {elm}, PutSpan(sp, elm, LeafSpan(t, sp, parent, s)), PutHeight(bh, elm, 0);
      t := Link(t, elm, parent, if comp < 0 then L else R);
      InsertColor(elm);
      return 0;
    }

    /** A place for a key means no node has it. */
    lemma Absent(elm: int, p: int, s: Side)
      requires Shape(t, n, sp) && LeafSpan(t, sp, p, s).Has(t.key(elm))
      requires if p == 0 then t.root == 0 else p in n && t.kid(p, s) == 0
      ensures t.key(elm) !in Keys() && elm !in n
    {
      if z :| z in n && t.key(z) == t.key(elm) && p != 0 {
        assert NodeOk(t, n, sp, p);
        PartWithin(sp(p), t.key(p), s, t.key(z));
        NoneAside(t, n, sp, p, s, z);
      }
    }

    // ---- removal

    /** Rounds left in RB_REMOVE_COLOR. */
    ghost function Rise(parent: int, elm: int): nat
      reads this
    {
      if t.IsRed(elm) || elm == t.root then 0 else 1 + |Outside(t, n, sp(parent))|
    }

    /** RB_REMOVE_COLOR: from a child one black node short to a red-black tree. */
    method RemoveColor(parent0: int, elm0: int, ghost s0: Side)
      requires Deficit(t, n, sp, bh, parent0, s0, elm0)
      modifies this
      ensures Valid() && n == old(n) && t.key == old(t.key)
    {
      var parent, elm := parent0, elm0;
      ghost var side := s0;
      while (elm == 0 || !t.red(elm)) && elm != t.root
        invariant Deficit(t, n, sp, bh, parent, side, elm) && n == old(n) && t.key == old(t.key)
        decreases Rise(parent, elm)
      {
        parent, elm, side := Round(parent, elm, side);
      }
      Settled(t, n, sp, bh, parent, side, elm);
      if elm != 0 {
        t := t.WithRed(elm, false);
      }
    }

    /** One round: a level up, or done with the root. */
    method Round(parent0: int, elm0: int, ghost s0: Side) returns (parent: int, elm: int, ghost side: Side)
      requires Short(t, n, sp, bh, parent0, s0, elm0)
      modifies this
      ensures Deficit(t, n, sp, bh, parent, side, elm) && n == old(n) && t.key == old(t.key)
      ensures Rise(parent, elm) < old(Rise(parent0, elm0))
    {
      parent, elm, side := parent0, elm0, L;
      Sibling(t, n, sp, bh, parent, s0, elm);
      var s := if t.kid(parent, L) == elm then L else R;
      var tmp := t.kid(parent, s.Other());
      ghost var rotated := t.red(tmp);
      if t.red(tmp) {
        tmp := RaiseSibling(parent, elm, s, tmp);
      }
      if (t.kid(tmp, L) == 0 || !t.red(t.kid(tmp, L))) && (t.kid(tmp, R) == 0 || !t.red(t.kid(tmp, R))) {
        side := t.SideOf(parent);
        PassUp(parent, elm, s, tmp, rotated);
        elm := parent;
        parent := t.parent(elm);
      } else {
        Repay(parent, elm, s, tmp);
        elm := t.root;
        parent := 0;
        RedsFor(t, n, elm);
      }
    }

    /** A red sibling becomes the grandparent; the new sibling is black. */
    method RaiseSibling(parent: int, elm: int, s: Side, sibling: int) returns (tmp: int)
      requires Short(t, n, sp, bh, parent, s, elm) && sibling == t.kid(parent, s.Other()) && t.red(sibling)
      modifies this
      ensures Short(t, n, sp, bh, parent, s, elm) && tmp == t.kid(parent, s.Other()) && !t.red(tmp) && t.red(parent)
      ensures n == old(n) && t.key == old(t.key)
    {
      RedSibling(t, n, sp, bh, parent, s, elm);
      sp := RotateSpans(t, sp, parent, s);
      t := t.WithRed(sibling, false).WithRed(parent, true);
      t := Rotate(t, parent, s);
      tmp := t.kid(parent, s.Other());
    }

    /** Black nephews: the sibling turns red and the parent is short instead. */
    method PassUp(parent: int, elm: int, s: Side, tmp: int, ghost rotated: bool)
      requires Short(t, n, sp, bh, parent, s, elm) && tmp == t.kid(parent, s.Other()) && !t.red(tmp)
      requires !t.IsRed(t.kid(tmp, L)) && !t.IsRed(t.kid(tmp, R)) && (rotated ==> t.red(parent))
      modifies this
      ensures Deficit(t, n, sp, bh, t.parent(parent), old(t.SideOf(parent)), parent) && n == old(n)
              && t.key == old(t.key)
      ensures Rise(t.parent(parent), parent) < old(Rise(parent, elm))
              && (rotated ==> Rise(t.parent(parent), parent) == 0)
    {
      BlackNephews(t, n, sp, bh, parent, s, elm);
      Sibling(t, n, sp, bh, parent, s, elm);
      assert NodeOk(t, n, sp, parent);
      if t.parent(parent) != 0 {
        Widens(t, n, sp, parent);
      }
      bh := PutHeight(bh, parent, bh(parent) - 1);
      t := t.WithRed(tmp, true);
      SameOutside(old(t), t, n, sp(t.parent(parent)));
    }

    /** A red nephew: at most two rotations make up for the missing black node. */
    method Repay(parent: int, elm: int, s: Side, tmp0: int)
      requires Short(t, n, sp, bh, parent, s, elm) && tmp0 == t.kid(parent, s.Other()) && !t.red(tmp0)
      requires t.IsRed(t.kid(tmp0, L)) || t.IsRed(t.kid(tmp0, R))
      modifies this
      ensures Valid() && n == old(n) && t.key == old(t.key)
    {
      var tmp := tmp0;
      if t.kid(tmp, s.Other()) == 0 || !t.red(t.kid(tmp, s.Other())) {
        tmp := TurnNephew(parent, elm, s, tmp);
      }
      LastTurn(parent, elm, s, tmp);
    }

    /** The far nephew is red: one rotation settles it. */
    method LastTurn(parent: int, elm: int, s: Side, tmp: int)
      requires Short(t, n, sp, bh, parent, s, elm) && tmp == t.kid(parent, s.Other()) && !t.red(tmp)
      requires t.IsRed(t.kid(tmp, s.Other()))
      modifies this
      ensures Valid() && n == old(n) && t.key == old(t.key)
    {
      FarNephew(t, n, sp, bh, parent, s, elm);
      bh := PutHeight(PutHeight(bh, tmp, bh(parent)), parent, bh(parent) - 1);
      sp := RotateSpans(t, sp, parent, s);
      var t1 := t.WithRed(tmp, t.red(parent)).WithRed(parent, false);
      if t1.kid(tmp, s.Other()) != 0 {
        t1 := t1.WithRed(t1.kid(tmp, s.Other()), false);
      }
      t := Rotate(t1, parent, s);
    }

    /** Only the near nephew is red: it becomes the sibling. */
    method TurnNephew(parent: int, elm: int, s: Side, tmp0: int) returns (tmp: int)
      requires Short(t, n, sp, bh, parent, s, elm) && tmp0 == t.kid(parent, s.Other()) && !t.red(tmp0)
      requires t.IsRed(t.kid(tmp0, s)) && !t.IsRed(t.kid(tmp0, s.Other()))
      modifies this
      ensures Short(t, n, sp, bh, parent, s, elm) && tmp == t.kid(parent, s.Other()) && !t.red(tmp)
      ensures t.IsRed(t.kid(tmp, s.Other())) && n == old(n) && t.key == old(t.key)
    {
      tmp := tmp0;
      NearNephew(t, n, sp, bh, parent, s, elm);
      var o := t.kid(tmp, s);
      sp := RotateSpans(t, sp, tmp, s.Other());
      if o != 0 {
        t := t.WithRed(o, false);
      }
      t := t.WithRed(tmp, true);
      t := Rotate(t, tmp, s.Other());
      tmp := t.kid(parent, s.Other());
    }

    /** y, with no child but c on side s, leaves the tree. */
    method TakeOut(y: int, c: int, ghost s: Side)
      requires Valid() && OnlyChild(t, n, y, c, s)
      modifies this
      ensures n == old(n) - {y} && t.key == old(t.key) && Spliced(old(t), t, y, c)
      ensures Shape(t, n, sp) && (forall z :: z in n && !old(sp)(y).Has(t.key(z)) ==> sp(z) == old(sp)(z))
      ensures Owes(t, n, sp, bh, old(t).parent(y), old(t.SideOf(y)), c, !old(t).red(y))
    {
      ghost var below := Sub(t, n, sp, y);
      SubBelow(t, n, sp, y);
      SpliceLinks(t, n, sp, y, c, s);
      SpliceBalance(t, Splice(t, y, c), n, sp, bh, y, c, s, below);
      n, sp := n - {y}, Respan(sp, below, t.key(y), sp(y));
      t := Splice(t, y, c);
    }

    /** Every key but o's is on the same side of y's as of o's. */
    ghost predicate KeyFits(o: int, y: int)
      reads this
    {
      forall z :: z in n && z != o && z != y ==> (t.key(z) < t.key(o) <==> t.key(z) < t.key(y)) && t.key(z) != t.key(y)
    }

    lemma PlaceBelow(o: int, y: int) returns (below: set<int>)
      requires Shape(t, n, sp) && KeyFits(o, y) && o in n && y != 0 && y !in n && sp(o).Has(t.key(y))
      ensures Below(t, n, sp, o, below) && Fits(t, n, sp, o, y, below)
    {
      below := Sub(t, n, sp, o);
      SubBelow(t, n, sp, o);
    }

    /** y, already out of the tree, takes the place of o. */
    method TakePlace(o: int, y: int, ghost p: int, ghost s: Side, ghost elm: int, ghost short: bool)
      requires Owes(t, n, sp, bh, p, s, elm, short) && o in n && y != 0 && y !in n && t.kid(o, L) != 0
               && sp(o).Has(t.key(y))
      requires KeyFits(o, y) && p != 0 && elm != o
      modifies this
      ensures n == old(n) - {o} + {y} && t.key == old(t.key)
      ensures Owes(t, n, sp, bh, if p == o then y else p, s, elm, short)
    {
      ghost var below := PlaceBelow(o, y);
      ReplaceOwes(t, n, sp, bh, o, y, below, p, s, elm, short);
      n, sp, bh := n - {o} + {y}, ReplaceSpans(t, sp, o, y, below), PutHeight(bh, y, bh(o));
      t := Replace(t, o, y);
    }

    /** The in-order successor of a node with a right child. */
    method Leftmost(o: int) returns (elm: int)
      requires Valid() && o in n && t.kid(o, L) != 0 && t.kid(o, R) != 0
      ensures Heir(t, n, sp, o, elm)
    {
      elm := t.kid(o, R);
      assert NodeOk(t, n, sp, o) && NodeOk(t, n, sp, elm);
      var left := t.kid(elm, L);
      while left != 0
        invariant elm in n && left == t.kid(elm, L) && sp(elm).lo == At(t.key(o)) && sp(elm).Has(t.key(elm))
        invariant forall k :: sp(elm).Has(k) ==> sp(o).Has(k)
        decreases Room(t, n, sp, elm)
      {
        assert NodeOk(t, n, sp, elm) && NodeOk(t, n, sp, left);
        KidRoom(t, n, sp, elm, L);
        elm := left;
        left := t.kid(elm, L);
      }
    }

    /** No key lies between a node and the leftmost of its right subtree. */
    lemma NoneBetween(o: int, y: int)
      requires Shape(t, n, sp) && Heir(t, n, sp, o, y)
      ensures KeyFits(o, y)
    {
      assert NodeOk(t, n, sp, y);
      forall z | z in n && z != o && z != y
        ensures (t.key(z) < t.key(o) <==> t.key(z) < t.key(y)) && t.key(z) != t.key(y)
      {
        if t.key(z) == t.key(o) { KeysDistinct(t, n, sp, z, o); }
        if t.key(z) == t.key(y) { KeysDistinct(t, n, sp, z, y); }
        if t.key(o) < t.key(z) < t.key(y) { NoneAside(t, n, sp, y, L, z); }
      }
    }

    /** RB_REMOVE of a node with two children: its successor takes its place. */
    method RemoveInner(o: int)
      requires Valid() && o in n && t.kid(o, L) != 0 && t.kid(o, R) != 0
      modifies this
      ensures Valid() && n == old(n) - {o} && t.key == old(t.key)
    {
      var elm := Leftmost(o);
      NoneBetween(o, elm);
      HeirLinks(t, n, sp, o, elm);
      var child := t.kid(elm, R);
      var parent := t.parent(elm);
      var color := t.red(elm);
      ghost var s := t.SideOf(elm);
      TakeOut(elm, child, R);
      TakePlace(o, elm, parent, s, child, !color);
      if parent == o {
        parent := elm;
      }
      if !color {
        RemoveColor(parent, child, s);
      }
    }

    /** RB_REMOVE: exactly elm leaves the tree. */
    method Remove(elm: int) returns (r: int)
      requires Valid() && elm in n
      modifies this
      ensures Valid() && r == elm && n == old(n) - {elm} && t.key == old(t.key)
      ensures Keys() == old(Keys()) - {t.key(elm)}
    {
      OthersKeys(elm);
      var child;
      if t.kid(elm, L) == 0 {
        child := t.kid(elm, R);
      } else if t.kid(elm, R) == 0 {
        child := t.kid(elm, L);
      } else {
        RemoveInner(elm);
        return elm;
      }
      ghost var s := if t.kid(elm, L) == 0 then R else L;
      var parent := t.parent(elm);
      var color := t.red(elm);
      if child != 0 { KidApart(t, n, sp, elm, s); }
      ghost var side := t.SideOf(elm);
      TakeOut(elm, child, s);
      if !color {
        RemoveColor(parent, child, side);
      }
      return elm;
    }

    lemma OthersKeys(elm: int)
      requires Shape(t, n, sp) && elm in n
      ensures forall z :: z in n && z != elm ==> t.key(z) != t.key(elm)
    {
      forall z | z in n && z != elm ensures t.key(z) != t.key(elm) {
        if t.key(z) == t.key(elm) { KeysDistinct(t, n, sp, z, elm); }
      }
    }

    // ---- searches

    /** RB_FIND: the node with elm's key, or 0 when there is none. */
    method Find(k: int) returns (r: int)
      requires Valid()
      ensures if k in Keys() then r in n && t.key(r) == k else r == 0
    {
      r := t.root;
      AllReached(t, n, sp);
      while r != 0
        invariant r == 0 || r in n
        invariant forall z :: z in n && t.key(z) == k ==> z in Sub(t, n, sp, r)
        decreases Room(t, n, sp, r)
      {
        KidRoom(t, n, sp, r, L);
        KidRoom(t, n, sp, r, R);
        Branches(r);
        if k < t.key(r) {
          r := t.kid(r, L);
        } else if k > t.key(r) {
          r := t.kid(r, R);
        } else {
          return;
        }
      }
    }

    /** The two sides of a subtree hold the smaller and the larger keys. */
    lemma Branches(x: int)
      requires Shape(t, n, sp) && x in n
      ensures forall z :: z in Sub(t, n, sp, x) ==> z in n
      ensures forall z :: z in Sub(t, n, sp, x) ==>
        if t.key(z) < t.key(x) then t.kid(x, L) in n && z in Sub(t, n, sp, t.kid(x, L))
        else if t.key(z) > t.key(x) then t.kid(x, R) in n && z in Sub(t, n, sp, t.kid(x, R))
        else z == x
    {
      assert NodeOk(t, n, sp, x);
      forall z | z in Sub(t, n, sp, x)
        ensures z in n
        ensures if t.key(z) < t.key(x) then t.kid(x, L) in n && z in Sub(t, n, sp, t.kid(x, L))
                else if t.key(z) > t.key(x) then t.kid(x, R) in n && z in Sub(t, n, sp, t.kid(x, R))
                else z == x
      {
        SubSpan(t, n, sp, x, z);
        if z != x {
          var s := if t.kid(x, L) != 0 && z in Sub(t, n, sp, t.kid(x, L)) then L else R;
          SubSpan(t, n, sp, t.kid(x, s), z);
          PartWithin(sp(x), t.key(x), s, t.key(z));
        }
      }
    }

    /** No key from k on is missed by the candidate and the subtree at tmp. */
    ghost predicate Covers(k: int, res: int, tmp: int)
      requires Shape(t, n, sp) && (tmp == 0 || tmp in n)
      reads this
    {
      forall z :: z in n && t.key(z) >= k ==> (res != 0 && t.key(res) <= t.key(z)) || z in Sub(t, n, sp, tmp)
    }

    lemma CoversBranch(k: int, res: int, tmp: int)
      requires Shape(t, n, sp) && tmp in n && Covers(k, res, tmp) && (res != 0 ==> t.key(tmp) < t.key(res))
      ensures k < t.key(tmp) ==> (t.kid(tmp, L) == 0 || t.kid(tmp, L) in n) && Covers(k, tmp, t.kid(tmp, L))
      ensures k > t.key(tmp) ==> (t.kid(tmp, R) == 0 || t.kid(tmp, R) in n) && Covers(k, res, t.kid(tmp, R))
      ensures k == t.key(tmp) ==> forall z :: z in n && t.key(z) >= k ==> t.key(tmp) <= t.key(z)
    {
      KidRoom(t, n, sp, tmp, L);
      KidRoom(t, n, sp, tmp, R);
      Branches(tmp);
    }

    /** RB_NFIND: the node with the least key not below k, or 0. */
    method NFind(k: int) returns (res: int)
      requires Valid()
      ensures res != 0 ==> res in n && t.key(res) >= k
      ensures forall z :: z in n && t.key(z) >= k ==> res != 0 && t.key(res) <= t.key(z)
    {
      var tmp := t.root;
      res := 0;
      AllReached(t, n, sp);
      while tmp != 0
        invariant tmp == 0 || tmp in n
        invariant res != 0 ==> res in n && t.key(res) > k
        invariant Covers(k, res, tmp) && (res != 0 && tmp != 0 ==> sp(tmp).hi == At(t.key(res)))
        decreases Room(t, n, sp, tmp)
      {
        assert NodeOk(t, n, sp, tmp);
        KidRoom(t, n, sp, tmp, L);
        KidRoom(t, n, sp, tmp, R);
        CoversBranch(k, res, tmp);
        if k < t.key(tmp) {
          res := tmp;
          tmp := t.kid(tmp, L);
        } else if k > t.key(tmp) {
          tmp := t.kid(tmp, R);
        } else {
          return tmp;
        }
      }
    }

    /** RB_MINMAX: the node with the least key for L, the greatest for R, or 0. */
    method MinMax(s: Side) returns (parent: int)
      requires Valid()
      ensures n == {} <==> parent == 0
      ensures parent != 0 ==> parent in n && forall z :: z in n ==> z == parent || Beyond(parent, z, s.Other())
    {
      var tmp := t.root;
      parent := 0;
      AllReached(t, n, sp);
      while tmp != 0
        invariant tmp == 0 || tmp in n
        invariant parent != 0 ==> parent in n
        invariant parent == 0 ==> tmp == t.root
        invariant parent != 0 ==> tmp == t.kid(parent, s)
        invariant parent != 0 ==> forall z :: z in n && z != parent ==>
                    Beyond(parent, z, s.Other()) || z in Sub(t, n, sp, tmp)
        decreases Room(t, n, sp, tmp)
      {
        KidRoom(t, n, sp, tmp, s);
        MoreBeyond(parent, tmp, s);
        parent := tmp;
        tmp := t.kid(tmp, s);
      }
    }

    /** z comes after x going towards side s. */
    ghost predicate Beyond(x: int, z: int, s: Side)
      reads this
    {
      if s == R then t.key(x) < t.key(z) else t.key(z) < t.key(x)
    }

    lemma MoreBeyond(parent: int, x: int, s: Side)
      requires Shape(t, n, sp) && x in n && (parent == 0 ==> x == t.root)
      requires parent != 0 ==> parent in n && x == t.kid(parent, s)
      requires parent != 0 ==> forall z :: z in n && z != parent ==>
                 Beyond(parent, z, s.Other()) || z in Sub(t, n, sp, x)
      ensures t.kid(x, s) == 0 || t.kid(x, s) in n
      ensures forall z :: z in n && z != x ==> Beyond(x, z, s.Other()) || z in Sub(t, n, sp, t.kid(x, s))
    {
      Branches(x);
      AllReached(t, n, sp);
      assert NodeOk(t, n, sp, x);
      if parent != 0 { KidApart(t, n, sp, parent, s); }
      forall z | z in n && z != x
        ensures Beyond(x, z, s.Other()) || z in Sub(t, n, sp, t.kid(x, s))
      {
        if t.key(z) == t.key(x) { KeysDistinct(t, n, sp, z, x); }
      }
    }

    // ---- in-order stepping

    /** r follows x in key order towards side s, or x is the last. */
    ghost predicate Follows(x: int, r: int, s: Side)
      reads this
    {
      if r == 0 then forall z :: z in n ==> !Beyond(x, z, s)
      else r in n && Beyond(x, r, s) && forall z :: z in n && Beyond(x, z, s) && z != r ==> Beyond(r, z, s)
    }

    function Edge(a: Span, s: Side): Bound { if s == R then a.hi else a.lo }

    /** RB_NEXT for R, RB_PREV for L. */
    method Step(x: int, s: Side) returns (elm: int)
      requires Valid() && x in n
      ensures Follows(x, elm, s)
    {
      if t.kid(x, s) != 0 {
        elm := Dip(x, s);
      } else {
        elm := Ascend(x, s);
      }
    }

    method Dip(x: int, s: Side) returns (elm: int)
      requires Valid() && x in n && t.kid(x, s) != 0
      ensures Follows(x, elm, s)
    {
      elm := t.kid(x, s);
      assert NodeOk(t, n, sp, x) && NodeOk(t, n, sp, elm);
      while t.kid(elm, s.Other()) != 0
        invariant elm in n && Edge(sp(elm), s.Other()) == At(t.key(x))
        decreases Room(t, n, sp, elm)
      {
        assert NodeOk(t, n, sp, elm);
        KidRoom(t, n, sp, elm, s.Other());
        elm := t.kid(elm, s.Other());
      }
      assert NodeOk(t, n, sp, elm);
      forall z | z in n && Beyond(x, z, s) && z != elm ensures Beyond(elm, z, s) {
        if t.key(z) == t.key(elm) { KeysDistinct(t, n, sp, z, elm); }
        if !Beyond(elm, z, s) { NoneAside(t, n, sp, elm, s.Other(), z); }
      }
    }

    method Ascend(x: int, s: Side) returns (elm: int)
      requires Valid() && x in n && t.kid(x, s) == 0
      ensures Follows(x, elm, s)
    {
      elm := x;
      assert NodeOk(t, n, sp, x);
      if t.parent(elm) != 0 && elm == t.kid(t.parent(elm), s.Other()) {
        assert NodeOk(t, n, sp, t.parent(elm));
        elm := t.parent(elm);
      } else {
        while t.parent(elm) != 0 && elm == t.kid(t.parent(elm), s)
          invariant elm in n && Edge(sp(elm), s) == Edge(sp(x), s)
          decreases |Outside(t, n, sp(elm))|
        {
          assert NodeOk(t, n, sp, elm) && NodeOk(t, n, sp, t.parent(elm));
          Widens(t, n, sp, elm);
          elm := t.parent(elm);
        }
        assert NodeOk(t, n, sp, elm) && (t.parent(elm) != 0 ==> NodeOk(t, n, sp, t.parent(elm)));
        elm := t.parent(elm);
      }
      LastOnSide(x, elm, s);
    }

    /** With no child on side s, the next key is the bound on that side. */
    lemma LastOnSide(x: int, r: int, s: Side)
      requires Shape(t, n, sp) && x in n && t.kid(x, s) == 0
      requires if r == 0 then Edge(sp(x), s) == (if s == R then High else Low)
               else r in n && Edge(sp(x), s) == At(t.key(r))
      ensures Follows(x, r, s)
    {
      assert NodeOk(t, n, sp, x);
      forall z | z in n && Beyond(x, z, s) ensures r != 0 && (z != r ==> Beyond(r, z, s)) {
        if r != 0 && t.key(z) == t.key(r) { KeysDistinct(t, n, sp, z, r); }
        if sp(x).Has(t.key(z)) { NoneAside(t, n, sp, x, s, z); }
      }
    }

    ghost predicate Ascending(xs: seq<int>)
      reads this
    {
      forall i, j :: 0 <= i < j < |xs| ==> t.key(xs[i]) < t.key(xs[j])
    }

    /** The nodes visited before x, in order, are those with smaller keys. */
    ghost predicate Visited(xs: seq<int>, seen: set<int>, x: int)
      reads this
    {
      && Ascending(xs) && seen <= n && (x != 0 ==> x in n)
      && (forall i :: 0 <= i < |xs| ==> xs[i] in seen) && (forall z :: z in seen ==> z in xs)
      && (forall z :: z in seen && x != 0 ==> t.key(z) < t.key(x))
      && forall z :: z in n && z !in seen ==> x != 0 && (z == x || Beyond(x, z, R))
    }

    lemma VisitedMore(xs: seq<int>, seen: set<int>, x: int, next: int)
      requires Visited(xs, seen, x) && x != 0 && Follows(x, next, R)
      ensures Visited(xs + [x], seen + {x}, next) && x !in seen
    {
      var ys := xs + [x];
      forall i, j | 0 <= i < j < |ys| ensures t.key(ys[i]) < t.key(ys[j]) {
        assert ys[i] == xs[i] && xs[i] in seen && (j < |xs| ==> ys[j] == xs[j]);
      }
      forall z | z in seen + {x} ensures z in ys {
        if z == x { assert ys[|xs|] == x; }
      }
    }

    /** RB_FOREACH: every node once, in key order. */
    method Foreach() returns (xs: seq<int>)
      requires Valid()
      ensures Ascending(xs) && forall z :: z in xs <==> z in n
    {
      xs := [];
      ghost var seen: set<int> := {};
      var x := MinMax(L);
      while x != 0
        invariant Visited(xs, seen, x)
        decreases n - seen
      {
        var next := Step(x, R);
        VisitedMore(xs, seen, x, next);
        xs, seen, x := xs + [x], seen + {x}, next;
      }
    }
  }
}

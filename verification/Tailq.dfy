/**
 The tail queue of sys/queue.h: a list of elements with forward links and, in each
 element, the address of the link that leads to it.
 */
module Tailq {

  /** The address of a forward link: the head's, or that of an element. */
  datatype Loc = Head | Of(x: int)

  /** TAILQ_HEAD and the TAILQ_ENTRY of every element, by address; 0 is NULL. */
  datatype Tailq = Tailq(first: int, last: Loc, next: int -> int, prev: int -> Loc, nelem: int) {
    /** v written to the link at l. */
    function Store(l: Loc, v: int): Tailq {
      if l == Head then this.(first := v) else this.(next := y => if y == l.x then v else next(y))
    }

    function WithPrev(x: int, l: Loc): Tailq { this.(prev := y => if y == x then l else prev(y)) }
  }

  /** The link that leads to position i, and what it leads to. */
  function Link(s: seq<int>, i: nat): Loc
    requires i <= |s|
  {
    if i == 0 then Head else Of(s[i - 1])
  }

  function Elem(s: seq<int>, i: nat): int
    requires i <= |s|
  {
    if i == |s| then 0 else s[i]
  }

  predicate ElemOk(t: Tailq, s: seq<int>, i: nat)
    requires i < |s|
  {
    s[i] != 0 && t.next(s[i]) == Elem(s, i + 1) && t.prev(s[i]) == Link(s, i)
  }

  predicate Distinct(s: seq<int>) { forall i, j :: 0 <= i < j < |s| ==> s[i] != s[j] }

  /** The queue holds exactly s, in order. */
  ghost predicate Holds(t: Tailq, s: seq<int>) {
    && t.first == Elem(s, 0) && t.last == Link(s, |s|) && t.nelem == |s| && Distinct(s)
    && forall i {:trigger ElemOk(t, s, i)} :: 0 <= i < |s| ==> ElemOk(t, s, i)
  }

  /** The writes of TAILQ_INSERT_TAIL, in order. */
  function InsertWrite(t: Tailq, p: int, k: nat): Tailq {
    if k == 1 then t.Store(Of(p), 0)
    else if k == 2 then t.WithPrev(p, t.last)
    else if k == 3 then t.Store(t.last, p)
    else if k == 4 then t.(last := Of(p))
    else t.(nelem := t.nelem + 1)
  }

  function Inserting(t: Tailq, p: int, k: nat): Tailq {
    if k == 0 then t else InsertWrite(Inserting(t, p, k - 1), p, k)
  }

  /** The writes of TAILQ_REMOVE, in order; the links of the removed element stay. */
  function RemoveWrite(t: Tailq, p: int, k: nat): Tailq {
    if k == 1 then (if t.next(p) != 0 then t.WithPrev(t.next(p), t.prev(p)) else t.(last := t.prev(p)))
    else if k == 2 then t.Store(t.prev(p), t.next(p))
    else t.(nelem := t.nelem - 1)
  }

  function Removing(t: Tailq, p: int, k: nat): Tailq { if k == 0 then t else RemoveWrite(Removing(t, p, k - 1), p, k) }

  /** Inserting at the tail appends. */
  lemma InsertAppends(t: Tailq, s: seq<int>, p: int)
    requires Holds(t, s) && p != 0 && p !in s
    ensures Holds(Inserting(t, p, 5), s + [p])
  {
    var t5, s' := Inserting(t, p, 5), s + [p];
    InsertFields(t, p);
    if s != [] { assert ElemOk(t, s, |s| - 1); }
    forall i | 0 <= i < |s'| ensures ElemOk(t5, s', i) {
      if i < |s| { assert ElemOk(t, s, i); }
    }
  }

  lemma InsertFields(t: Tailq, p: int)
    requires p != 0 && t.last != Of(p)
    ensures var r := Inserting(t, p, 5);
            && r.first == (if t.last == Head then p else t.first) && r.last == Of(p) && r.nelem == t.nelem + 1
            && (forall y :: r.next(y) == if Of(y) == t.last then p else if y == p then 0 else t.next(y))
            && forall y :: r.prev(y) == if y == p then t.last else t.prev(y)
  {
    var t1 := InsertWrite(t, p, 1);
    var t2 := InsertWrite(t1, p, 2);
    var t3 := InsertWrite(t2, p, 3);
    var t4 := InsertWrite(t3, p, 4);
    assert Inserting(t, p, 0) == t;
    assert Inserting(t, p, 1) == t1;
    assert Inserting(t, p, 2) == t2;
    assert Inserting(t, p, 3) == t3;
    assert Inserting(t, p, 4) == t4;
  }

  /** The sequence without position i. */
  function Without(s: seq<int>, i: nat): seq<int>
    requires i < |s|
  {
    s[..i] + s[i + 1..]
  }

  lemma RemoveFields(t: Tailq, p: int)
    requires p != 0 && t.next(p) != p && t.prev(p) != Of(p)
    ensures var r := Removing(t, p, 3);
            && r.first == (if t.prev(p) == Head then t.next(p) else t.first)
            && r.last == (if t.next(p) == 0 then t.prev(p) else t.last) && r.nelem == t.nelem - 1
            && (forall y :: y != p ==> r.next(y) == if Of(y) == t.prev(p) then t.next(p) else t.next(y))
            && forall y :: y != p ==> r.prev(y) == if t.next(p) != 0 && y == t.next(p) then t.prev(p) else t.prev(y)
  {
    var t1 := RemoveWrite(t, p, 1);
    var t2 := RemoveWrite(t1, p, 2);
    assert Removing(t, p, 0) == t;
    assert Removing(t, p, 1) == t1;
    assert Removing(t, p, 2) == t2;
  }

  /** Removing an element takes it out and keeps the others in order. */
  lemma RemoveDeletes(t: Tailq, s: seq<int>, i: nat)
    requires Holds(t, s) && i < |s|
    ensures Holds(Removing(t, s[i], 3), Without(s, i))
  {
    var p, s' := s[i], Without(s, i);
    var r := Removing(t, p, 3);
    assert ElemOk(t, s, i);
    if i > 0 { assert ElemOk(t, s, i - 1); }
    if i + 1 < |s| { assert ElemOk(t, s, i + 1); }
    RemoveFields(t, p);
    forall j | 0 <= j < |s'| ensures ElemOk(r, s', j) {
      var k := if j < i then j else j + 1;
      assert s'[j] == s[k] != p && ElemOk(t, s, k);
    }
  }
}

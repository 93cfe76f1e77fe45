/**
 Runs of splay tree operations from an empty tree: every operation answers as an
 ordered set of keys would, and m operations with n inserts among them take at most
 m (12 lg n + 4) rounds of splaying, for any order and any keys.
 */
module SplayRun {
  import opened RbShape
  import opened SplayTrees
  import opened SplayMeasure
  import opened Splay

  datatype Op = Find(k: int) | Insert(elm: int) | Remove(elm: int) | Least | Greatest | Next(k: int)

  /** The set of keys after an operation. */
  function Effect(op: Op, key: Keys, ks: set<int>): set<int> {
    match op
    case Insert(elm) => ks + {key(elm)}
    case Remove(elm) => ks - {key(elm)}
    case _ => ks
  }

  function Effects(ops: seq<Op>, key: Keys): set<int> {
    if ops == [] then {} else Effect(ops[|ops| - 1], key, Effects(ops[..|ops| - 1], key))
  }

  /** r is the node, or 0, that an ordered set of the keys ks would answer with. */
  predicate Answers(op: Op, key: Keys, ks: set<int>, r: int) {
    match op
    case Find(k) => if r == 0 then k !in ks else k in ks && key(r) == k
    case Insert(elm) => if r == 0 then key(elm) !in ks else key(elm) in ks && key(r) == key(elm)
    case Remove(elm) => r == if key(elm) in ks then elm else 0
    case Least => if r == 0 then ks == {} else key(r) in ks && forall j :: j in ks ==> key(r) <= j
    case Greatest => if r == 0 then ks == {} else key(r) in ks && forall j :: j in ks ==> j <= key(r)
    case Next(k) =>
      if r == 0 then k in ks ==> forall j :: j in ks ==> j <= k
      else k in ks && key(r) in ks && k < key(r) && forall j :: j in ks && k < j ==> key(r) <= j
  }

  ghost function KeySet(key: Keys, n: set<int>): set<int> { set z | z in n :: key(z) }

  lemma KeyIn(key: Keys, n: set<int>, z: int)
    requires z in n
    ensures key(z) in KeySet(key, n)
  {}

  function Grows(op: Op): nat { if op.Insert? then 1 else 0 }

  function Inserts(ops: seq<Op>): nat { if ops == [] then 0 else Inserts(ops[..|ops| - 1]) + Grows(ops[|ops| - 1]) }

  /** What one operation does to the nodes and costs; n bounds the size. */
  twostate predicate Served(h: Head, hd: int, op: Op, r: int, n: nat)
    reads h
  {
    && h.Valid() && hd !in Nodes(h.t)
    && KeySet(h.key, Nodes(h.t)) == Effect(op, h.key, KeySet(h.key, old(Nodes(h.t))))
    && Answers(op, h.key, KeySet(h.key, old(Nodes(h.t))), r)
    && h.sc.size(h.t) <= old(h.sc.size(h.t)) + Grows(op)
    && h.Account() <= old(h.Account()) + 12 * h.sc.lg(n) + 4
  }

  method DoFind(h: Head, hd: int, k: int, ghost n: nat) returns (r: int)
    requires h.Valid() && hd !in Nodes(h.t) && h.sc.size(h.t) <= n
    modifies h
    ensures Served(h, hd, Find(k), r, n) && In(h.t) == old(In(h.t)) && Nodes(h.t) == old(Nodes(h.t))
            && (r != 0 ==> r in Nodes(h.t))
    ensures h.Account() <= old(h.Account()) + 6 * h.sc.lg(n) + 2
  {
    LgMonotone(h.sc, h.sc.size(h.t), n);
    ScaleIn(h.sc, h.t);
    r := h.Find(k, hd);
    ScaleIn(h.sc, h.t);
    if r != 0 { KeyIn(h.key, Nodes(h.t), r); }
  }

  method DoInsert(h: Head, hd: int, elm: int, ghost n: nat) returns (r: int)
    requires h.Valid() && hd !in Nodes(h.t) && elm != 0 && elm != hd && h.sc.size(h.t) + 1 <= n
    modifies h
    ensures Served(h, hd, Insert(elm), r, n)
  {
    LgMonotone(h.sc, h.sc.size(h.t) + 1, n);
    ghost var ns := Nodes(h.t);
    r := h.Insert(elm, hd);
    InsertAnswers(h.key, ns, Nodes(h.t), elm, r);
  }

  lemma InsertAnswers(key: Keys, n: set<int>, n': set<int>, elm: int, r: int)
    requires r == 0 ==> n' == n + {elm} && forall z :: z in n ==> key(z) != key(elm)
    requires r != 0 ==> n' == n && r in n && key(r) == key(elm)
    ensures KeySet(key, n') == Effect(Insert(elm), key, KeySet(key, n)) && Answers(Insert(elm), key, KeySet(key, n), r)
  {
    if r == 0 { MoreKeys(key, n, elm); } else { KeyIn(key, n, r); }
  }

  lemma MoreKeys(key: Keys, n: set<int>, x: int)
    ensures KeySet(key, n + {x}) == KeySet(key, n) + {key(x)}
  {
    forall j | j in KeySet(key, n) + {key(x)} ensures j in KeySet(key, n + {x}) {
      if j == key(x) { KeyIn(key, n + {x}, x); } else { var z :| z in n && key(z) == j; KeyIn(key, n + {x}, z); }
    }
  }

  method DoRemove(h: Head, hd: int, elm: int, ghost n: nat) returns (r: int)
    requires h.Valid() && hd !in Nodes(h.t) && h.sc.size(h.t) <= n
    modifies h
    ensures Served(h, hd, Remove(elm), r, n)
  {
    LgMonotone(h.sc, h.sc.size(h.t), n);
    ghost var ns := Nodes(h.t);
    r := h.Remove(elm, hd);
    FewerKeys(h, ns, h.key(elm));
  }

  lemma FewerKeys(h: Head, n: set<int>, k: int)
    ensures KeySet(h.key, h.Without(n, k)) == KeySet(h.key, n) - {k}
  {
    forall j | j in KeySet(h.key, n) - {k} ensures j in KeySet(h.key, h.Without(n, k)) {
      var z :| z in n && h.key(z) == j;
      KeyIn(h.key, h.Without(n, k), z);
    }
  }

  method DoMinMax(h: Head, hd: int, s: Side, ghost n: nat) returns (r: int)
    requires h.Valid() && hd !in Nodes(h.t) && h.sc.size(h.t) <= n
    modifies h
    ensures Served(h, hd, if s == L then Least else Greatest, r, n)
  {
    LgMonotone(h.sc, h.sc.size(h.t), n);
    if h.root == 0 {
      return 0;
    }
    ScaleIn(h.sc, h.t);
    h.MinMax(s, hd);
    ScaleIn(h.sc, h.t);
    r := h.root;
    RootKey(h);
  }

  lemma RootKey(h: Head)
    requires h.Valid() && h.root in Nodes(h.t)
    ensures h.root != 0 && h.key(h.root) in KeySet(h.key, Nodes(h.t))
  {
    RepNodes(h.kid, h.key, Nodes(h.t), Span(Low, High), h.root, h.t, h.root);
    KeyIn(h.key, Nodes(h.t), h.root);
  }

  method DoNext(h: Head, hd: int, k: int, ghost n: nat) returns (r: int)
    requires h.Valid() && hd !in Nodes(h.t) && h.sc.size(h.t) <= n
    modifies h
    ensures Served(h, hd, Next(k), r, n)
  {
    r := DoFind(h, hd, k, n);
    ghost var a := h.Account();
    if r != 0 {
      var x := r;
      LgMonotone(h.sc, h.sc.size(h.t), n);
      ScaleIn(h.sc, h.t);
      r := h.Next(x, hd);
      ScaleIn(h.sc, h.t);
      if r != 0 { KeyIn(h.key, Nodes(h.t), r); }
    }
  }

  predicate Legal(op: Op, hd: int) { op.Insert? ==> op.elm != 0 && op.elm != hd }

  method Perform(h: Head, hd: int, op: Op, ghost n: nat) returns (r: int)
    requires h.Valid() && hd !in Nodes(h.t) && Legal(op, hd) && h.sc.size(h.t) + Grows(op) <= n
    modifies h
    ensures Served(h, hd, op, r, n)
  {
    match op
    case Find(k) => r := DoFind(h, hd, k, n);
    case Insert(elm) => r := DoInsert(h, hd, elm, n);
    case Remove(elm) => r := DoRemove(h, hd, elm, n);
    case Least => r := DoMinMax(h, hd, L, n);
    case Greatest => r := DoMinMax(h, hd, R, n);
    case Next(k) => r := DoNext(h, hd, k, n);
  }

  /** Each answer is the one due after the operations before it. */
  ghost predicate AllAnswer(ops: seq<Op>, key: Keys, rs: seq<int>) {
    |rs| == |ops| && forall i :: 0 <= i < |ops| ==> Answers(ops[i], key, Effects(ops[..i], key), rs[i])
  }

  lemma AnswerMore(ops: seq<Op>, key: Keys, rs: seq<int>, op: Op, r: int)
    requires AllAnswer(ops, key, rs) && Answers(op, key, Effects(ops, key), r)
    ensures AllAnswer(ops + [op], key, rs + [r])
    ensures Effects(ops + [op], key) == Effect(op, key, Effects(ops, key))
    ensures Inserts(ops + [op]) == Inserts(ops) + Grows(op)
  {
    var all := ops + [op];
    assert all[..|ops|] == ops;
    forall i | 0 <= i < |all| ensures Answers(all[i], key, Effects(all[..i], key), (rs + [r])[i]) {
      assert i < |ops| ==> all[..i] == ops[..i];
    }
  }

  lemma {:induction false} InsertsUpTo(ops: seq<Op>, i: nat)
    requires i <= |ops|
    ensures Inserts(ops[..i]) <= Inserts(ops)
    decreases |ops|
  {
    if i == |ops| {
      assert ops[..i] == ops;
    } else {
      InsertsUpTo(ops[..|ops| - 1], i);
      assert ops[..|ops| - 1][..i] == ops[..i];
    }
  }

  lemma OneMore(ops: seq<Op>, i: nat, per: nat)
    requires i < |ops|
    ensures ops[..i + 1] == ops[..i] + [ops[i]] && (i + 1) * per == i * per + per
    ensures Inserts(ops[..i + 1]) == Inserts(ops[..i]) + Grows(ops[i]) <= Inserts(ops)
  {
    InsertsUpTo(ops, i + 1);
    assert ops[..i + 1][..i] == ops[..i];
  }

  /** Every run from an empty tree answers as an ordered set does, within the bound. */
  method Run(kid: Kids, key: Keys, hd: int, ops: seq<Op>) returns (h: Head, rs: seq<int>)
    requires forall i :: 0 <= i < |ops| ==> Legal(ops[i], hd)
    ensures h.Valid() && h.key == key && AllAnswer(ops, key, rs) && KeySet(key, Nodes(h.t)) == Effects(ops, key)
    ensures h.rounds <= |ops| * (12 * Log(Inserts(ops)) + 4)
  {
    ghost var sc := SomeScale();
    ScaleNil(sc);
    h := new Head(kid, key, sc);
    rs := [];
    ghost var n := Inserts(ops);
    ghost var per := 12 * sc.lg(n) + 4;
    for i := 0 to |ops|
      invariant fresh(h) && h.key == key && h.sc == sc && h.Valid() && hd !in Nodes(h.t)
      invariant AllAnswer(ops[..i], key, rs) && KeySet(key, Nodes(h.t)) == Effects(ops[..i], key)
      invariant sc.size(h.t) <= Inserts(ops[..i]) && h.Account() <= i * per
    {
      OneMore(ops, i, per);
      var r := Perform(h, hd, ops[i], n);
      AnswerMore(ops[..i], key, rs, ops[i], r);
      rs := rs + [r];
    }
    assert ops[..|ops|] == ops;
    assert ReadsLog(sc, n);
  }

  // ---- the walk

  ghost predicate Ascending(key: Keys, xs: seq<int>) { forall i, j :: 0 <= i < j < |xs| ==> key(xs[i]) < key(xs[j]) }

  /** The in-order sequence of a splay tree ascends. */
  lemma InAscends(h: Head)
    requires h.Valid()
    ensures Ascending(h.key, In(h.t))
  {
    forall i, j | 0 <= i < j < |In(h.t)| ensures h.key(In(h.t)[i]) < h.key(In(h.t)[j]) {
      InSorted(h.kid, h.key, Nodes(h.t), Span(Low, High), h.root, h.t, i, j);
    }
  }

  lemma InAt(t: Tr, i: nat)
    requires i < |In(t)|
    ensures In(t)[i] in Nodes(t)
  {
    InNodes(t, In(t)[i]);
  }

  /** The least node comes first. */
  lemma FirstIn(h: Head, xs: seq<int>, x: int)
    requires h.Valid() && xs == In(h.t) && x in Nodes(h.t)
    requires forall z :: z in Nodes(h.t) ==> h.key(x) <= h.key(z)
    ensures xs != [] && xs[0] == x
  {
    InAscends(h);
    InNodes(h.t, x);
    var i :| 0 <= i < |xs| && xs[i] == x;
    InAt(h.t, 0);
  }

  /** The next node comes next. */
  lemma NextIn(h: Head, xs: seq<int>, i: nat, r: int)
    requires h.Valid() && xs == In(h.t) && i < |xs| && h.NextAfter(xs[i], r, Nodes(h.t))
    ensures if r == 0 then i + 1 == |xs| else i + 1 < |xs| && xs[i + 1] == r
  {
    InAscends(h);
    if i + 1 < |xs| { InAt(h.t, i + 1); }
    if r != 0 {
      InNodes(h.t, r);
      var j :| 0 <= j < |xs| && xs[j] == r;
    }
  }

  /** How far the walk has come: xs is visited and x comes next, or 0. */
  ghost predicate Visited(all: seq<int>, xs: seq<int>, x: int) {
    |xs| <= |all| && xs == all[..|xs|] && if |xs| == |all| then x == 0 else x == all[|xs|] && x != 0
  }

  lemma VisitFirst(h: Head, all: seq<int>, x: int)
    requires h.Valid() && all == In(h.t) && (x == 0 ==> h.root == 0)
    requires x != 0 ==> x in Nodes(h.t) && forall z :: z in Nodes(h.t) ==> h.key(x) <= h.key(z)
    ensures Visited(all, [], x)
  {
    if x != 0 { FirstIn(h, all, x); }
  }

  lemma VisitMore(h: Head, all: seq<int>, xs: seq<int>, x: int, next: int)
    requires h.Valid() && all == In(h.t) && Visited(all, xs, x) && x != 0 && h.NextAfter(x, next, Nodes(h.t))
    ensures |xs| < |all| && Visited(all, xs + [x], next)
  {
    NextIn(h, all, |xs|, next);
    assert all[..|xs| + 1] == all[..|xs|] + [all[|xs|]];
    if next != 0 { InNodes(h.t, next); }
  }

  lemma AllVisited(h: Head, all: seq<int>, xs: seq<int>)
    requires h.Valid() && all == In(h.t) && Visited(all, xs, 0)
    ensures xs == all && Ascending(h.key, xs) && forall z :: z in xs <==> z in Nodes(h.t)
  {
    InAscends(h);
    assert all[..|all|] == all;
    forall z ensures z in xs <==> z in Nodes(h.t) { InNodes(h.t, z); }
  }

  /** SPLAY_FOREACH visits the nodes in ascending order, each once, whatever the
      splaying between the steps does to the tree. */
  method Foreach(h: Head, hd: int) returns (xs: seq<int>)
    requires h.Valid() && hd !in Nodes(h.t)
    modifies h
    ensures h.Valid() && In(h.t) == old(In(h.t)) && Nodes(h.t) == old(Nodes(h.t))
    ensures xs == old(In(h.t)) && Ascending(h.key, xs) && forall z :: z in xs <==> z in Nodes(h.t)
  {
    ghost var all := In(h.t);
    xs := [];
    var x := 0;
    if h.root != 0 {
      h.MinMax(L, hd);
      x := h.root;
      RootKey(h);
    }
    VisitFirst(h, all, x);
    while x != 0
      invariant h.Valid() && In(h.t) == all && Nodes(h.t) == old(Nodes(h.t)) && Visited(all, xs, x)
      decreases |all| - |xs|
    {
      InAt(h.t, |xs|);
      var next := h.Next(x, hd);
      VisitMore(h, all, xs, x, next);
      xs := xs + [x];
      x := next;
    }
    AllVisited(h, all, xs);
  }
}

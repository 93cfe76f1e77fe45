/**
 Runs of frame allocations and releases, up to the first request the kernel panics
 on: no frame is ever lost or made up, none is handed to two owners at a time, and
 the counters stay exact.
 */
module FramesRun {
  import opened Frames

  datatype Op = Alloc(count: nat) | Free(base: nat, count: nat)

  /** Where every frame is, the next-fit index and the counters. */
  datatype World = World(free: set<int>, owned: set<int>, lost: set<int>, last: int, pagesFree: int, pagesUsed: int)

  /** Frames may be given back by whoever was given them. */
  predicate Legal(op: Op, owned: set<int>) { op.Free? ==> Range(PageUp(op.base), op.count) <= owned }

  /** The frames an operation that returns ret hands out, or takes back. */
  function Given(op: Op, ret: nat): set<int> {
    if op.Alloc? && ret != 0 then Range(ret / PAGE, op.count) else {}
  }

  function Back(op: Op): set<int> { if op.Free? then Range(PageUp(op.base), op.count) else {} }

  /** The effect of one operation. */
  ghost predicate Turn(op: Op, w: World, ret: nat, w': World, highest: nat) {
    && w'.pagesFree + w'.pagesUsed == w.pagesFree + w.pagesUsed
    && match op
       case Alloc(n) => Taken(n, w, ret, w', highest)
       case Free(base, n) => ret == 0 && Returned(PageUp(base), n, w, w')
  }

  ghost predicate Returned(a: int, n: nat, w: World, w': World) {
    && Range(a, n) <= w.owned && w'.owned == w.owned - Range(a, n) && w'.free == w.free + Range(a, n)
    && w'.lost == w.lost && w'.last == w.last && w'.pagesFree == w.pagesFree + n
  }

  ghost predicate Taken(n: nat, w: World, ret: nat, w': World, highest: nat) {
    && (ret != 0 <==> Serves(w.free, w.last, n)) && Took(w.free, w.last, n, ret, w'.last, w'.free)
    && (ret != 0 ==> 0 < w'.last && w'.last + n <= highest)
    && w'.owned == (if ret == 0 then w.owned else w.owned + Range(w'.last, n))
    && w'.lost == w.lost + (w.free - if ret == 0 then w'.free else Open(w.free, w.last, n))
    && w'.pagesFree == w.pagesFree - if ret == 0 then 0 else n
  }

  ghost predicate Good(w: World, highest: nat) { Books(w.owned, w.free, w.lost, highest, w.pagesFree) }

  /** All frames the allocator has. */
  ghost function All(w: World): set<int> { w.free + w.owned + w.lost }

  lemma OpenWithin(free: set<int>, from: int, n: nat)
    ensures Open(free, from, n) <= free && Sunk(free, n) <= free
  {}

  lemma RetFrame(idx: int)
    ensures idx * PAGE / PAGE == idx
  {}

  /** Every operation keeps the books and the frames there are. */
  lemma TurnKeeps(op: Op, w: World, ret: nat, w': World, highest: nat)
    requires Good(w, highest) && Turn(op, w, ret, w', highest)
    ensures Good(w', highest) && All(w') == All(w)
  {
    if op.Free? {
      ReturnedKeeps(PageUp(op.base), op.count, w, w', highest);
    } else if ret == 0 {
      FailedKeeps(op.count, w, w', highest);
    } else {
      TakenKeeps(op.count, w, ret, w', highest);
    }
  }

  /** Frames are handed out only while nobody has them, and stay so until given back. */
  lemma TurnOwns(op: Op, w: World, ret: nat, w': World, highest: nat, x: int)
    requires Good(w, highest) && Turn(op, w, ret, w', highest)
    ensures x in Given(op, ret) ==> x !in w.owned && x in w'.owned
    ensures x in w.owned && x !in Back(op) ==> x in w'.owned
  {
    if op.Alloc? && ret != 0 {
      RetFrame(w'.last);
      TakenKeeps(op.count, w, ret, w', highest);
    }
  }

  lemma ReturnedKeeps(a: int, n: nat, w: World, w': World, highest: nat)
    requires Good(w, highest) && Returned(a, n, w, w')
    ensures Good(w', highest) && All(w') == All(w)
  {
    TakeBack(w.owned, w.free, w.lost, highest, w.pagesFree, a, n);
  }

  lemma FailedKeeps(n: nat, w: World, w': World, highest: nat)
    requires Good(w, highest) && Taken(n, w, 0, w', highest)
    ensures Good(w', highest) && All(w') == All(w)
  {
    LoseOnFailure(w.owned, w.free, w.lost, highest, w.pagesFree, n);
    OpenWithin(w.free, w.last, n);
  }

  lemma TakenKeeps(n: nat, w: World, ret: nat, w': World, highest: nat)
    requires Good(w, highest) && Taken(n, w, ret, w', highest) && ret != 0
    ensures Good(w', highest) && All(w') == All(w) && Range(w'.last, n) !! w.owned
  {
    var f, t := Open(w.free, w.last, n), Range(w'.last, n);
    HandOpen(w.owned, w.free, w.lost, highest, w.pagesFree, w.last, w'.last, n);
    OpenWithin(w.free, w.last, n);
    RangeHas(w'.last, n);
    assert t <= f;
    assert All(w') == (f - t) + (w.owned + t) + (w.lost + (w.free - f));
  }

  /** A run: the operations done so far, each with what it returned. */
  ghost predicate Trace(ops: seq<Op>, rets: seq<nat>, ws: seq<World>, highest: nat) {
    && |rets| == |ops| && |ws| == |ops| + 1 && Good(ws[0], highest)
    && forall i {:trigger Turned(ops, rets, ws, i, highest)} :: 0 <= i < |ops| ==> Turned(ops, rets, ws, i, highest)
  }

  ghost predicate Turned(ops: seq<Op>, rets: seq<nat>, ws: seq<World>, i: nat, highest: nat)
    requires i < |ops| && i < |rets| && i + 1 < |ws|
  {
    Turn(ops[i], ws[i], rets[i], ws[i + 1], highest)
  }

  /** Conservation: at any time of any run every frame is free, handed out or lost, and
      just one of these; the counters add up to what they did and the counter of free
      pages is off by just the lost ones. */
  lemma {:induction false} Conserved(ops: seq<Op>, rets: seq<nat>, ws: seq<World>, highest: nat, i: nat)
    requires Trace(ops, rets, ws, highest) && i < |ws|
    ensures Good(ws[i], highest) && All(ws[i]) == All(ws[0])
    ensures ws[i].pagesFree + ws[i].pagesUsed == ws[0].pagesFree + ws[0].pagesUsed
    decreases i
  {
    if i != 0 {
      Conserved(ops, rets, ws, highest, i - 1);
      assert Turned(ops, rets, ws, i - 1, highest);
      TurnKeeps(ops[i - 1], ws[i - 1], rets[i - 1], ws[i], highest);
    }
  }

  /** Once handed out, a frame stays so until it is given back. */
  lemma {:induction false} StaysOwned(ops: seq<Op>, rets: seq<nat>, ws: seq<World>, highest: nat, x: int, i: nat,
                                      j: nat)
    requires Trace(ops, rets, ws, highest) && i <= j < |ws| && x in ws[i].owned
    requires forall k :: i <= k < j ==> x !in Back(ops[k])
    ensures x in ws[j].owned
    decreases j
  {
    if i < j {
      StaysOwned(ops, rets, ws, highest, x, i, j - 1);
      Conserved(ops, rets, ws, highest, j - 1);
      assert Turned(ops, rets, ws, j - 1, highest);
      TurnOwns(ops[j - 1], ws[j - 1], rets[j - 1], ws[j], highest, x);
    }
  }

  /** Disjointness: between two operations that hand out the same frame it was given
      back. */
  lemma HandedOnce(ops: seq<Op>, rets: seq<nat>, ws: seq<World>, highest: nat, x: int, i: nat, j: nat)
    requires Trace(ops, rets, ws, highest) && i < j < |ops|
    requires x in Given(ops[i], rets[i]) && x in Given(ops[j], rets[j])
    ensures exists k :: i < k < j && x in Back(ops[k])
  {
    OwnsAt(ops, rets, ws, highest, i, x);
    OwnsAt(ops, rets, ws, highest, j, x);
    if forall k :: i < k < j ==> x !in Back(ops[k]) { StaysOwned(ops, rets, ws, highest, x, i + 1, j); }
  }

  lemma OwnsAt(ops: seq<Op>, rets: seq<nat>, ws: seq<World>, highest: nat, i: nat, x: int)
    requires Trace(ops, rets, ws, highest) && i < |ops| && x in Given(ops[i], rets[i])
    ensures x !in ws[i].owned && x in ws[i + 1].owned
  {
    Conserved(ops, rets, ws, highest, i);
    assert Turned(ops, rets, ws, i, highest);
    TurnOwns(ops[i], ws[i], rets[i], ws[i + 1], highest, x);
  }

  // ---- frames are lost at most once

  lemma ZeroStays(op: Op, w: World, ret: nat, w': World, highest: nat)
    requires Good(w, highest) && Turn(op, w, ret, w', highest)
    ensures 0 !in w.free ==> 0 !in w'.free && w'.lost == w.lost
    ensures w'.lost != w.lost ==> 0 !in w'.free
  {
    TurnKeeps(op, w, ret, w', highest);
    if op.Alloc? {
      OpenWithin(w.free, w.last, op.count);
      if 0 !in w.free {
        ServesPlain(w.free, w.last, op.count);
        assert w.lost + (w.free - w.free) == w.lost;
      }
    } else {
      RangeHas(PageUp(op.base), op.count);
      assert 0 !in w.owned;
    }
  }

  lemma {:induction false} ZeroNever(ops: seq<Op>, rets: seq<nat>, ws: seq<World>, highest: nat, i: nat, j: nat)
    requires Trace(ops, rets, ws, highest) && i <= j < |ws| && 0 !in ws[i].free
    ensures 0 !in ws[j].free && ws[j].lost == ws[i].lost
    decreases j
  {
    if i < j {
      ZeroNever(ops, rets, ws, highest, i, j - 1);
      Conserved(ops, rets, ws, highest, j - 1);
      assert Turned(ops, rets, ws, j - 1, highest);
      ZeroStays(ops[j - 1], ws[j - 1], rets[j - 1], ws[j], highest);
    }
  }

  /** In any run at most one operation loses frames; none does if frame 0 is not free
      at the start. */
  lemma LostOnce(ops: seq<Op>, rets: seq<nat>, ws: seq<World>, highest: nat, i: nat, j: nat)
    requires Trace(ops, rets, ws, highest) && i < j < |ws|
    ensures ws[i + 1].lost != ws[i].lost ==> ws[j].lost == ws[i + 1].lost
    ensures 0 !in ws[0].free ==> ws[j].lost == ws[0].lost
  {
    if 0 !in ws[0].free { ZeroNever(ops, rets, ws, highest, 0, j); }
    Conserved(ops, rets, ws, highest, i);
    assert Turned(ops, rets, ws, i, highest);
    ZeroStays(ops[i], ws[i], rets[i], ws[i + 1], highest);
    if ws[i + 1].lost != ws[i].lost { ZeroNever(ops, rets, ws, highest, i + 1, j); }
  }

  // ---- the allocator does such runs

  ghost function View(a: Allocator): World
    reads a
  {
    World(a.free, a.owned, a.lost, a.lastIdx, a.pagesFree, a.pagesUsed)
  }

  /** One operation. */
  method Perform(a: Allocator, op: Op, owned: set<int>) returns (ret: nat, owned': set<int>)
    requires a.Valid() && a.owned == owned && Legal(op, owned)
    modifies a, a.bitmap
    ensures a.Valid() && a.highest == old(a.highest) && a.bitmap == old(a.bitmap) && a.owned == owned'
    ensures Turn(op, old(View(a)), ret, View(a), a.highest)
  {
    match op
    case Alloc(n) =>
      ret := a.AllocFrame(n);
      RetFrame(a.lastIdx);
      owned' := if ret == 0 then owned else owned + Range(ret / PAGE, n);
    case Free(base, n) =>
      a.FreeFrame(base, n);
      ret, owned' := 0, owned - Range(PageUp(base), n);
  }

  lemma TraceMore(ops: seq<Op>, rets: seq<nat>, ws: seq<World>, highest: nat, op: Op, ret: nat, w: World)
    requires Trace(ops, rets, ws, highest) && Turn(op, ws[|ops|], ret, w, highest)
    ensures Trace(ops + [op], rets + [ret], ws + [w], highest)
  {
    var ops', rets', ws' := ops + [op], rets + [ret], ws + [w];
    forall i | 0 <= i < |ops'| ensures Turned(ops', rets', ws', i, highest) {
      if i < |ops| { assert Turned(ops, rets, ws, i, highest); }
    }
  }

  /** The kernel panics on an allocation that fails. */
  predicate Panics(op: Op, ret: nat) { op.Alloc? && ret == 0 }

  /** Only the last operation of a run can be one the kernel panics on. */
  ghost predicate Stops(ops: seq<Op>, rets: seq<nat>, panicked: bool)
    requires |rets| == |ops|
  {
    && (panicked ==> ops != [])
    && forall i :: 0 <= i < |ops| ==> (Panics(ops[i], rets[i]) <==> panicked && i == |ops| - 1)
  }

  lemma StopsMore(ops: seq<Op>, rets: seq<nat>, op: Op, ret: nat)
    requires |rets| == |ops| && Stops(ops, rets, false)
    ensures Stops(ops + [op], rets + [ret], Panics(op, ret))
  {}

  /** Operations in turn, those skipped that give back what was not handed out, until
      all are done or the kernel panics. */
  method Run(a: Allocator, ops: seq<Op>) returns (did: seq<Op>, rets: seq<nat>, ghost ws: seq<World>, panicked: bool)
    requires a.Valid() && a.owned == {}
    modifies a, a.bitmap
    ensures a.Valid() && Trace(did, rets, ws, a.highest) && ws[0] == old(View(a)) && ws[|did|] == View(a)
    ensures Stops(did, rets, panicked)
  {
    var owned: set<int> := {};
    did, rets, ws, panicked := [], [], [View(a)], false;
    var i := 0;
    while i < |ops| && !panicked
      invariant 0 <= i <= |ops| && a.Valid() && a.owned == owned && a.bitmap == old(a.bitmap)
      invariant Trace(did, rets, ws, a.highest) && ws[0] == old(View(a)) && ws[|did|] == View(a)
      invariant Stops(did, rets, panicked)
      decreases |ops| - i
    {
      if Legal(ops[i], owned) {
        var ret;
        ret, owned := Perform(a, ops[i], owned);
        TraceMore(did, rets, ws, a.highest, ops[i], ret, View(a));
        StopsMore(did, rets, ops[i], ret);
        did, rets, ws, panicked := did + [ops[i]], rets + [ret], ws + [View(a)], Panics(ops[i], ret);
      }
      i := i + 1;
    }
  }
}

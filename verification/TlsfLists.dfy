/**
 The segregated free lists of the TLSF control structure: 25 x 32 doubly linked
 lists threaded through the payloads of free blocks, and the two bitmap levels
 that say which lists are non-empty.
 */
module TlsfLists {
  import opened Bits
  import opened TlsfMapping
  import opened TlsfMemory

  /** `control_t`: the address of block_null, the bitmaps and the list heads. */
  datatype Control = Control(nul: int, flBitmap: nat, slBitmap: seq<nat>, heads: seq<seq<int>>) {
    predicate Shaped() {
      && |slBitmap| == FL_COUNT && |heads| == FL_COUNT
      && forall f: nat :: f < FL_COUNT ==> |heads[f]| == SL_COUNT
    }

    function Head(c: Class): int
      requires Shaped() && c.InRange()
    {
      heads[c.fl][c.sl]
    }

    function WithHead(c: Class, b: int): (k: Control)
      requires Shaped() && c.InRange()
      ensures k.Shaped() && k.Head(c) == b
      ensures forall d: Class :: d.InRange() && d != c ==> k.Head(d) == Head(d)
    {
      this.(heads := heads[c.fl := heads[c.fl][c.sl := b]])
    }
  }

  function NextFree(m: Mem, b: int): int { m(b + 16).Value() }
  function PrevFree(m: Mem, b: int): int { m(b + 24).Value() }

  /** What the lists hold: each listed block with its class and the time it was
      pushed.  Pushes go to the front, so stamps fall along `next_free`. */
  datatype Entry = Entry(cls: Class, stamp: nat)
  type Listed = map<int, Entry>

  /** The list neighbours of b are listed, in its class, and point back at it. */
  predicate NodeOk(m: Mem, k: Control, st: Listed, b: int)
    requires k.Shaped() && b in st
  {
    && b != k.nul && st[b].cls.InRange()
    && (var n := NextFree(m, b);
        n != k.nul ==> n in st && st[n].cls == st[b].cls && PrevFree(m, n) == b && st[n].stamp < st[b].stamp)
    && (var p := PrevFree(m, b);
        if p == k.nul then k.Head(st[b].cls) == b else
        p in st && st[p].cls == st[b].cls && NextFree(m, p) == b && st[b].stamp < st[p].stamp)
  }

  predicate HeadOk(m: Mem, k: Control, st: Listed, c: Class)
    requires k.Shaped() && c.InRange()
  {
    k.Head(c) != k.nul ==> k.Head(c) in st && st[k.Head(c)].cls == c && PrevFree(m, k.Head(c)) == k.nul
  }

  ghost predicate Nodes(m: Mem, k: Control, st: Listed)
    requires k.Shaped()
  {
    forall b {:trigger NodeOk(m, k, st, b)} :: b in st ==> NodeOk(m, k, st, b)
  }

  ghost predicate Heads(m: Mem, k: Control, st: Listed)
    requires k.Shaped()
  {
    forall c: Class {:trigger HeadOk(m, k, st, c)} :: c.InRange() ==> HeadOk(m, k, st, c)
  }

  /** The first level marks the non-zero words of the second, which mark the
      non-empty lists; no other bit is set. */
  ghost predicate Bitmaps(k: Control)
    requires k.Shaped()
  {
    && (forall f: nat :: Bit(k.flBitmap, f) <==> f < FL_COUNT && k.slBitmap[f] != 0)
    && (forall f: nat, s: nat :: f < FL_COUNT ==>
          (Bit(k.slBitmap[f], s) <==> s < SL_COUNT && k.heads[f][s] != k.nul))
  }

  /** The lists hold exactly the entries of `st`. */
  ghost predicate Lists(m: Mem, k: Control, st: Listed) {
    k.Shaped() && Nodes(m, k, st) && Heads(m, k, st) && Bitmaps(k)
  }

  predicate Clear(x: int, y: int) { x + HEADER <= y + 8 || y + HEADER <= x + 8 }

  /** The links of listed blocks, and of block_null, do not overlap. */
  ghost predicate Spaced(st: Listed, nul: int) {
    && (forall x, y {:trigger Clear(x, y)} :: x in st && y in st && x != y ==> Clear(x, y))
    && (forall x {:trigger Clear(x, nul)} :: x in st ==> Clear(x, nul))
  }

  // ---- removing and inserting

  /** The two link writes of `remove_free_block`. */
  function Unlink(m: Mem, b: int): Mem {
    var p, n := PrevFree(m, b), NextFree(m, b);
    Put(Put(m, n + 24, Ptr(p)), p + 16, Ptr(n))
  }

  /** The control updates of `remove_free_block`. */
  function DropHead(k: Control, b: int, next: int, c: Class): (r: Control)
    requires k.Shaped() && c.InRange()
    ensures r.Shaped() && r.nul == k.nul
  {
    if k.Head(c) != b then k
    else
      var k1 := k.WithHead(c, next);
      if next != k.nul then k1
      else
        var k2 := k1.(slBitmap := k1.slBitmap[c.fl := ClearBit(k1.slBitmap[c.fl], c.sl)]);
        if k2.slBitmap[c.fl] != 0 then k2
        else k2.(flBitmap := ClearBit(k2.flBitmap, c.fl))
  }

  /** The link writes of `insert_free_block`. */
  function LinkIn(m: Mem, k: Control, b: int, c: Class): Mem
    requires k.Shaped() && c.InRange()
  {
    Put(Put(Put(m, b + 16, Ptr(k.Head(c))), b + 24, Ptr(k.nul)), k.Head(c) + 24, Ptr(b))
  }

  /** The control updates of `insert_free_block`. */
  function PushHead(k: Control, b: int, c: Class): (r: Control)
    requires k.Shaped() && c.InRange()
    ensures r.Shaped() && r.nul == k.nul
  {
    k.WithHead(c, b).(flBitmap := SetBit(k.flBitmap, c.fl),
                      slBitmap := k.slBitmap[c.fl := SetBit(k.slBitmap[c.fl], c.sl)])
  }

  lemma DropHeadBitmaps(k: Control, b: int, next: int, c: Class)
    requires k.Shaped() && c.InRange() && Bitmaps(k) && b != k.nul
    ensures Bitmaps(DropHead(k, b, next, c))
  {
    var r := DropHead(k, b, next, c);
    if k.Head(c) == b && next == k.nul {
      forall s: nat ensures Bit(r.slBitmap[c.fl], s) <==> s != c.sl && Bit(k.slBitmap[c.fl], s) {
        ClearBitAt(k.slBitmap[c.fl], c.sl, s);
      }
      forall f: nat ensures Bit(r.flBitmap, f) <==> Bit(k.flBitmap, f) && (f == c.fl ==> r.slBitmap[c.fl] != 0) {
        ClearBitAt(k.flBitmap, c.fl, f);
      }
      assert Bit(k.slBitmap[c.fl], c.sl);
      ZeroHasNoBit(k.slBitmap[c.fl]);
      assert k.slBitmap[c.fl] != 0;
    } else if k.Head(c) == b {
      assert Bit(k.slBitmap[c.fl], c.sl);
    }
  }

  lemma PushHeadBitmaps(k: Control, b: int, c: Class)
    requires k.Shaped() && c.InRange() && Bitmaps(k) && b != k.nul
    ensures Bitmaps(PushHead(k, b, c))
  {
    var r := PushHead(k, b, c);
    forall s: nat ensures Bit(r.slBitmap[c.fl], s) <==> s == c.sl || Bit(k.slBitmap[c.fl], s) {
      SetBitAt(k.slBitmap[c.fl], c.sl, s);
    }
    forall f: nat ensures Bit(r.flBitmap, f) <==> f == c.fl || Bit(k.flBitmap, f) {
      SetBitAt(k.flBitmap, c.fl, f);
    }
    assert Bit(r.slBitmap[c.fl], c.sl);
    ZeroHasNoBit(r.slBitmap[c.fl]);
  }

  /** The links read after the two writes of `remove_free_block`. */
  lemma UnlinkReads(m: Mem, k: Control, st: Listed, b: int, x: int)
    requires k.Shaped() && Nodes(m, k, st) && Spaced(st, k.nul)
    requires b in st && x in st && x != b
    ensures NextFree(Unlink(m, b), x) == if x == PrevFree(m, b) then NextFree(m, b) else NextFree(m, x)
    ensures PrevFree(Unlink(m, b), x) == if x == NextFree(m, b) then PrevFree(m, b) else PrevFree(m, x)
  {
    assert NodeOk(m, k, st, b);
    var p, n := PrevFree(m, b), NextFree(m, b);
    assert Clear(x, k.nul);
    assert p in st && p != x ==> Clear(p, x);
    assert n in st && n != x ==> Clear(n, x);
  }

  lemma RemoveNode(m: Mem, k: Control, st: Listed, b: int, x: int)
    requires Lists(m, k, st) && Spaced(st, k.nul)
    requires b in st && x in st && x != b && st[b].cls.InRange()
    ensures NodeOk(Unlink(m, b), DropHead(k, b, NextFree(m, b), st[b].cls), st - {b}, x)
  {
    assert NodeOk(m, k, st, b) && NodeOk(m, k, st, x);
    UnlinkReads(m, k, st, b, x);
    var x1, x2 := NextFree(Unlink(m, b), x), PrevFree(Unlink(m, b), x);
    if x1 != k.nul { UnlinkReads(m, k, st, b, x1); }
    if x2 != k.nul { UnlinkReads(m, k, st, b, x2); }
  }

  lemma RemoveHead(m: Mem, k: Control, st: Listed, b: int, c: Class)
    requires Lists(m, k, st) && Spaced(st, k.nul)
    requires b in st && st[b].cls.InRange() && c.InRange()
    ensures HeadOk(Unlink(m, b), DropHead(k, b, NextFree(m, b), st[b].cls), st - {b}, c)
  {
    assert NodeOk(m, k, st, b) && HeadOk(m, k, st, c);
    var h := DropHead(k, b, NextFree(m, b), st[b].cls).Head(c);
    if h != k.nul {
      UnlinkReads(m, k, st, b, h);
    }
  }

  /** `remove_free_block` takes exactly this block off its list. */
  lemma RemoveLists(m: Mem, k: Control, st: Listed, b: int)
    requires Lists(m, k, st) && Spaced(st, k.nul) && b in st
    ensures st[b].cls.InRange()
    ensures Lists(Unlink(m, b), DropHead(k, b, NextFree(m, b), st[b].cls), st - {b})
  {
    assert NodeOk(m, k, st, b);
    var m', k' := Unlink(m, b), DropHead(k, b, NextFree(m, b), st[b].cls);
    forall x | x in st - {b} ensures NodeOk(m', k', st - {b}, x) { RemoveNode(m, k, st, b, x); }
    forall c: Class | c.InRange() ensures HeadOk(m', k', st - {b}, c) { RemoveHead(m, k, st, b, c); }
    DropHeadBitmaps(k, b, NextFree(m, b), st[b].cls);
  }

  /** `insert_free_block` puts exactly this block on the list of its class. */
  lemma InsertLists(m: Mem, k: Control, st: Listed, b: int, e: Entry)
    requires Lists(m, k, st) && e.cls.InRange() && b !in st && b != k.nul
    requires Spaced(st[b := e], k.nul)
    requires forall x :: x in st ==> st[x].stamp < e.stamp
    ensures Lists(LinkIn(m, k, b, e.cls), PushHead(k, b, e.cls), st[b := e])
  {
    var m', k', st' := LinkIn(m, k, b, e.cls), PushHead(k, b, e.cls), st[b := e];
    forall x | x in st' ensures NodeOk(m', k', st', x) { InsertNode(m, k, st, b, e, x); }
    forall c: Class | c.InRange() ensures HeadOk(m', k', st', c) {
      assert HeadOk(m, k, st, c) && HeadOk(m, k, st, e.cls);
      if c == e.cls || k.Head(c) != k.nul { InsertReads(m, k, st, b, e, k'.Head(c)); }
    }
    PushHeadBitmaps(k, b, e.cls);
  }

  lemma InsertReads(m: Mem, k: Control, st: Listed, b: int, e: Entry, x: int)
    requires Lists(m, k, st) && e.cls.InRange() && b !in st && b != k.nul
    requires Spaced(st[b := e], k.nul) && x in st[b := e]
    ensures NextFree(LinkIn(m, k, b, e.cls), x) == if x == b then k.Head(e.cls) else NextFree(m, x)
    ensures PrevFree(LinkIn(m, k, b, e.cls), x)
         == if x == b then k.nul else if x == k.Head(e.cls) then b else PrevFree(m, x)
  {
    var h := k.Head(e.cls);
    assert HeadOk(m, k, st, e.cls);
    assert Clear(x, k.nul) && Clear(b, k.nul);
    assert x != b ==> Clear(b, x);
    assert h in st ==> Clear(b, h);
    assert h in st && h != x ==> Clear(h, x);
  }

  lemma InsertNode(m: Mem, k: Control, st: Listed, b: int, e: Entry, x: int)
    requires Lists(m, k, st) && e.cls.InRange() && b !in st && b != k.nul
    requires Spaced(st[b := e], k.nul) && x in st[b := e]
    requires forall y :: y in st ==> st[y].stamp < e.stamp
    ensures NodeOk(LinkIn(m, k, b, e.cls), PushHead(k, b, e.cls), st[b := e], x)
  {
    assert HeadOk(m, k, st, e.cls);
    InsertReads(m, k, st, b, e, x);
    if x == b {
      if k.Head(e.cls) != k.nul { InsertReads(m, k, st, b, e, k.Head(e.cls)); }
    } else {
      InsertOldNode(m, k, st, b, e, x);
    }
  }

  lemma InsertOldNode(m: Mem, k: Control, st: Listed, b: int, e: Entry, x: int)
    requires Lists(m, k, st) && e.cls.InRange() && b !in st && b != k.nul
    requires Spaced(st[b := e], k.nul) && x in st
    requires st[x].stamp < e.stamp
    ensures NodeOk(LinkIn(m, k, b, e.cls), PushHead(k, b, e.cls), st[b := e], x)
  {
    assert NodeOk(m, k, st, x) && HeadOk(m, k, st, e.cls);
    InsertReads(m, k, st, b, e, x);
    InsertReads(m, k, st, b, e, b);
    var n, p := NextFree(m, x), PrevFree(m, x);
    if n != k.nul { InsertReads(m, k, st, b, e, n); }
    if p != k.nul { InsertReads(m, k, st, b, e, p); }
  }

  /** Writes elsewhere leave the lists alone. */
  lemma ListsFrame(m: Mem, m': Mem, k: Control, st: Listed)
    requires Lists(m, k, st)
    requires forall b :: b in st ==> m'(b + 16) == m(b + 16) && m'(b + 24) == m(b + 24)
    ensures Lists(m', k, st)
  {
    forall b | b in st ensures NodeOk(m', k, st, b) { NodeFrame(m, m', k, st, b); }
    forall c: Class | c.InRange() ensures HeadOk(m', k, st, c) { HeadFrame(m, m', k, st, c); }
  }

  lemma NodeFrame(m: Mem, m': Mem, k: Control, st: Listed, b: int)
    requires k.Shaped() && Nodes(m, k, st) && b in st
    requires forall b :: b in st ==> m'(b + 16) == m(b + 16) && m'(b + 24) == m(b + 24)
    ensures NodeOk(m', k, st, b)
  {
    assert NodeOk(m, k, st, b);
  }

  lemma HeadFrame(m: Mem, m': Mem, k: Control, st: Listed, c: Class)
    requires k.Shaped() && Heads(m, k, st) && c.InRange()
    requires forall b :: b in st ==> m'(b + 16) == m(b + 16) && m'(b + 24) == m(b + 24)
    ensures HeadOk(m', k, st, c)
  {
    assert HeadOk(m, k, st, c);
  }

  // ---- searching

  /** A non-empty class has a head: the stamps rise from any member to it. */
  lemma {:induction false} ListHasHead(m: Mem, k: Control, st: Listed, clock: nat, b: int)
    requires Lists(m, k, st) && b in st
    requires forall x :: x in st ==> st[x].stamp < clock
    ensures st[b].cls.InRange() && k.Head(st[b].cls) != k.nul
    decreases clock - st[b].stamp
  {
    assert NodeOk(m, k, st, b);
    if PrevFree(m, b) != k.nul { ListHasHead(m, k, st, clock, PrevFree(m, b)); }
  }

  /** The second level, masked from a position on, finds the next non-empty list
      of the row. */
  lemma SearchRow(k: Control, f: nat, from: nat)
    requires k.Shaped() && Bitmaps(k) && f < FL_COUNT
    ensures var w := MaskFrom(k.slBitmap[f], from);
            && (w == 0 ==> forall t: nat :: from <= t < SL_COUNT ==> k.heads[f][t] == k.nul)
            && (w != 0 ==> from <= Ffs(w) < SL_COUNT && k.heads[f][Ffs(w)] != k.nul)
            && (w != 0 ==> forall t: nat :: from <= t < Ffs(w) ==> k.heads[f][t] == k.nul)
  {
    var w := MaskFrom(k.slBitmap[f], from);
    forall i: nat ensures Bit(w, i) <==> i >= from && Bit(k.slBitmap[f], i) { MaskFromAt(k.slBitmap[f], from, i); }
    ZeroHasNoBit(w);
    if w != 0 { assert Bit(w, Ffs(w)); }
  }

  /** The first level finds the next row with a non-empty list. */
  lemma SearchRows(k: Control, from: nat)
    requires k.Shaped() && Bitmaps(k)
    ensures var w := MaskFrom(k.flBitmap, from);
            && (w == 0 ==> forall f: nat :: from <= f < FL_COUNT ==> k.slBitmap[f] == 0)
            && (w != 0 ==> from <= Ffs(w) < FL_COUNT && k.slBitmap[Ffs(w)] != 0)
            && (w != 0 ==> forall f: nat :: from <= f < Ffs(w) ==> k.slBitmap[f] == 0)
  {
    var w := MaskFrom(k.flBitmap, from);
    forall i: nat ensures Bit(w, i) <==> i >= from && Bit(k.flBitmap, i) { MaskFromAt(k.flBitmap, from, i); }
    ZeroHasNoBit(w);
    if w != 0 { assert Bit(w, Ffs(w)); }
  }

  lemma EmptyRow(k: Control, f: nat, s: nat)
    requires k.Shaped() && Bitmaps(k) && f < FL_COUNT && s < SL_COUNT && k.slBitmap[f] == 0
    ensures k.heads[f][s] == k.nul
  {
    NoBitInZero(s);
  }

  /** All lists from class c up to (not including) index `to` are empty. */
  ghost predicate EmptyBetween(k: Control, c: Class, to: nat)
    requires k.Shaped()
  {
    forall e: Class {:trigger k.Head(e)} :: e.InRange() && c.Index() <= e.Index() < to ==> k.Head(e) == k.nul
  }

  /** d is the first class at or after c whose list is not empty. */
  ghost predicate FirstAt(k: Control, c: Class, d: Class) {
    k.Shaped() && d.InRange() && k.Head(d) != k.nul && c.Index() <= d.Index() && EmptyBetween(k, c, d.Index())
  }

  /** The block a search from class c finds: the head of the first non-empty list. */
  ghost predicate Offers(k: Control, c: Class, b: int) {
    exists d: Class {:trigger FirstAt(k, c, d)} :: FirstAt(k, c, d) && k.Head(d) == b
  }

  /** There is only one. */
  lemma OffersOne(k: Control, c: Class, b: int, b': int)
    requires Offers(k, c, b) && Offers(k, c, b')
    ensures b == b'
  {
    var d: Class :| FirstAt(k, c, d) && k.Head(d) == b;
    var d': Class :| FirstAt(k, c, d') && k.Head(d') == b';
    assert d.Index() == d'.Index();
    SameIndex(d, d');
  }

  /** No list of a row at or after column `from` holds a block. */
  ghost predicate RowEmpty(k: Control, f: nat, from: nat, to: nat)
    requires k.Shaped() && f < FL_COUNT && to <= SL_COUNT
  {
    forall t: nat :: from <= t < to ==> k.heads[f][t] == k.nul
  }

  /** No list of the rows between two holds a block. */
  ghost predicate RowsEmpty(k: Control, from: nat, to: nat)
    requires k.Shaped() && to <= FL_COUNT
  {
    forall f: nat :: from <= f < to ==> k.slBitmap[f] == 0
  }

  lemma GapInRow(k: Control, c: Class, d: Class)
    requires k.Shaped() && c.InRange() && d.fl == c.fl && c.sl <= d.sl <= SL_COUNT && RowEmpty(k, c.fl, c.sl, d.sl)
    ensures EmptyBetween(k, c, d.Index())
  {
    forall e: Class | e.InRange() && c.Index() <= e.Index() < d.Index() ensures k.Head(e) == k.nul {
      assert e.fl == c.fl;
    }
  }

  /** The rest of one row, whole rows, and the start of another. */
  lemma GapAcross(k: Control, c: Class, d: Class)
    requires k.Shaped() && Bitmaps(k) && c.InRange() && c.fl < d.fl <= FL_COUNT && d.sl < SL_COUNT
    requires RowEmpty(k, c.fl, c.sl, SL_COUNT) && RowsEmpty(k, c.fl + 1, d.fl)
    requires d.fl < FL_COUNT ==> RowEmpty(k, d.fl, 0, d.sl)
    ensures EmptyBetween(k, c, d.fl * SL_COUNT + if d.fl < FL_COUNT then d.sl else 0)
  {
    var to := d.fl * SL_COUNT + if d.fl < FL_COUNT then d.sl else 0;
    forall e: Class | e.InRange() && c.Index() <= e.Index() < to ensures k.Head(e) == k.nul {
      assert c.fl <= e.fl <= d.fl;
      if c.fl < e.fl < d.fl { EmptyRow(k, e.fl, e.sl); }
    }
  }

  /** The two-level search of `search_suitable_block`: the first non-empty list at or
      after class c. */
  method FirstNonEmpty(k: Control, c: Class) returns (found: bool, d: Class)
    requires k.Shaped() && Bitmaps(k) && c.InRange()
    ensures !found ==> EmptyBetween(k, c, FL_COUNT * SL_COUNT)
    ensures found ==> FirstAt(k, c, d)
  {
    SearchRow(k, c.fl, c.sl);
    var slMap := MaskFrom(k.slBitmap[c.fl], c.sl);
    if slMap != 0 {
      d := Class(c.fl, Ffs(slMap));
      GapInRow(k, c, d);
      return true, d;
    }
    SearchRows(k, c.fl + 1);
    var flMap := MaskFrom(k.flBitmap, c.fl + 1);
    if flMap == 0 {
      d := Class(FL_COUNT, 0);
      GapAcross(k, c, d);
      return false, d;
    }
    var fl := Ffs(flMap);
    SearchRow(k, fl, 0);
    d := Class(fl, Ffs(k.slBitmap[fl]));
    GapAcross(k, c, d);
    found := true;
  }
}

/**
 The physical frame allocator of vm_seg.c: a bitmap of frames in use, a next-fit
 search with one retry from the start, and page counters.
 */
module Frames {
  import opened Bits

  const PAGE := 4096

  /** The first frame that begins at or after an address. */
  function PageUp(x: nat): nat { (x + PAGE - 1) / PAGE }

  /** An entry of the boot memory map. */
  datatype Entry = Entry(base: nat, length: nat, usable: bool)

  /** The frames from a on, n of them. */
  function Range(a: int, n: nat): set<int> { if n == 0 then {} else Range(a, n - 1) + {a + n - 1} }

  lemma {:induction false} RangeHas(a: int, n: nat)
    ensures forall i :: i in Range(a, n) <==> a <= i < a + n
    ensures |Range(a, n)| == n
  {
    if n != 0 { RangeHas(a, n - 1); }
  }

  lemma RangeAt(a: int, n: nat, i: int)
    ensures i in Range(a, n) <==> a <= i < a + n
  {
    RangeHas(a, n);
  }

  /** A run of n free frames from a on. */
  ghost predicate Fits(free: set<int>, a: int, n: nat) { forall j :: a <= j < a + n ==> j in free }

  /** Some run of n frames is free. */
  ghost predicate SomeFit(free: set<int>, n: nat) { exists a: nat :: Fits(free, a, n) }

  /** No frame of the range is free. */
  ghost predicate NoneFree(free: set<int>, a: int, n: nat) { forall j :: a <= j < a + n ==> j !in free }

  /** Some run from a frame on. */
  ghost predicate FitFrom(free: set<int>, from: int, n: nat) { exists a: nat :: from <= a && Fits(free, a, n) }

  /** The first run from `from` on if there is one, else the first of all. */
  ghost predicate NextFit(free: set<int>, from: int, count: nat, idx: int) {
    && Fits(free, idx, count)
    && (from <= idx ==> forall a: nat :: from <= a < idx ==> !Fits(free, a, count))
    && (idx < from ==>
          && (forall a: nat :: a < idx ==> !Fits(free, a, count))
          && (forall a: nat :: from <= a ==> !Fits(free, a, count)))
  }

  /** Frames are free, handed out or lost, never two of these; only frame 0 being free
      can lose any; the counter holds the free and the lost ones; frame 0 is never
      handed out. */
  ghost predicate Books(owned: set<int>, free: set<int>, lost: set<int>, highest: nat, pagesFree: int) {
    && owned !! free && owned !! lost && free !! lost && (0 in free ==> lost == {})
    && pagesFree == |free| + |lost| && forall i :: i in owned ==> 0 < i < highest
  }

  /** Handing out a free run, none of which was handed out before. */
  lemma Hand(owned: set<int>, free: set<int>, lost: set<int>, highest: nat, pages: int, a: int, n: nat)
    requires Books(owned, free, lost, highest, pages) && Fits(free, a, n) && a > 0 && a + n <= highest
    ensures owned !! Range(a, n) && Books(owned + Range(a, n), free - Range(a, n), lost, highest, pages - n)
  {
    RangeHas(a, n);
    forall j | j in Range(a, n) ensures j in free { assert a <= j < a + n; }
    assert free == (free - Range(a, n)) + Range(a, n);
  }

  /** Losing a run from frame 0 on: in use, but nobody's. */
  lemma Lose(owned: set<int>, free: set<int>, lost: set<int>, highest: nat, pages: int, n: nat)
    requires Books(owned, free, lost, highest, pages) && n > 0 && Fits(free, 0, n)
    ensures lost == {} && 0 in free && Books(owned, free - Range(0, n), lost + Range(0, n), highest, pages)
  {
    RangeHas(0, n);
    forall j | j in Range(0, n) ensures j in free { assert 0 <= j < 0 + n; }
    assert 0 in Range(0, n);
    assert free == (free - Range(0, n)) + Range(0, n);
    assert lost + Range(0, n) == Range(0, n);
  }

  /** Taking frames back, whatever allocations they belonged to. */
  lemma TakeBack(owned: set<int>, free: set<int>, lost: set<int>, highest: nat, pages: int, a: int, n: nat)
    requires Books(owned, free, lost, highest, pages) && Range(a, n) <= owned
    ensures n > 0 ==> 0 < a && a + n <= highest
    ensures Books(owned - Range(a, n), free + Range(a, n), lost, highest, pages + n)
  {
    RangeHas(a, n);
    if n > 0 { assert a in Range(a, n) && a + n - 1 in Range(a, n); }
  }

  lemma FitsBelow(free: set<int>, highest: nat, a: nat, n: nat)
    requires Fits(free, a, n) && n > 0 && forall i :: i in free ==> 0 <= i < highest
    ensures a + n <= highest
  {
    assert a + n - 1 in free;
  }

  // ---- a free frame 0

  /** The first pass finds its run at frame 0, and takes the address 0 for a failure. */
  ghost predicate Trap(free: set<int>, from: int, n: nat) { n > 0 && from == 0 && Fits(free, 0, n) }

  /** What the second pass then finds free. */
  ghost function Open(free: set<int>, from: int, n: nat): set<int> {
    if Trap(free, from, n) then free - Range(0, n) else free
  }

  /** What stays free when the request fails: a run at frame 0 is taken all the same. */
  ghost function Sunk(free: set<int>, n: nat): set<int> {
    if n > 0 && Fits(free, 0, n) then free - Range(0, n) else free
  }

  /** When a request succeeds: some run is free, and if one is at frame 0, then another
      behind it, or from the last index on. */
  ghost predicate Serves(free: set<int>, from: int, n: nat) {
    && n > 0
    && if !Fits(free, 0, n) then SomeFit(free, n)
       else if from == 0 then SomeFit(free - Range(0, n), n)
       else FitFrom(free, from, n)
  }

  lemma LoseOnFailure(owned: set<int>, free: set<int>, lost: set<int>, highest: nat, pages: int, n: nat)
    requires Books(owned, free, lost, highest, pages)
    ensures Books(owned, Sunk(free, n), lost + (free - Sunk(free, n)), highest, pages)
  {
    if n > 0 && Fits(free, 0, n) {
      Lose(owned, free, lost, highest, pages, n);
      TakenOut(free, 0, n);
    } else {
      assert lost + (free - free) == lost;
    }
  }

  lemma TakenOut(free: set<int>, a: int, n: nat)
    requires Fits(free, a, n)
    ensures free - (free - Range(a, n)) == Range(a, n)
  {
    RangeHas(a, n);
  }

  lemma HandOpen(owned: set<int>, free: set<int>, lost: set<int>, highest: nat, pages: int, from: int, a: int, n: nat)
    requires Books(owned, free, lost, highest, pages) && a > 0 && a + n <= highest
    requires Fits(Open(free, from, n), a, n)
    ensures var f := Open(free, from, n);
            owned !! Range(a, n)
            && Books(owned + Range(a, n), f - Range(a, n), lost + (free - f), highest, pages - n)
  {
    if Trap(free, from, n) {
      Lose(owned, free, lost, highest, pages, n);
      TakenOut(free, 0, n);
      Hand(owned, free - Range(0, n), lost + Range(0, n), highest, pages, a, n);
    } else {
      assert lost + (free - free) == lost;
      Hand(owned, free, lost, highest, pages, a, n);
    }
  }

  /** A free frame 0 can cost frames, and can fail a request that would fit. */
  lemma FrameZero()
    ensures Trap({0, 1}, 0, 1) && Serves({0, 1}, 0, 1) && Open({0, 1}, 0, 1) == {1}
    ensures SomeFit({0}, 1) && !Serves({0}, 0, 1)
  {
    var none: set<int>, one: set<int>, both: set<int> := {}, {1}, {0, 1};
    RangeHas(0, 1);
    assert Range(0, 1) == {0};
    assert both - Range(0, 1) == one && {0} - Range(0, 1) == none;
    assert Fits(both, 0, 1) && Fits(one, 1, 1) && Fits({0}, 0, 1);
    forall a: nat ensures !Fits(none, a, 1) { NoFit(none, a); }
  }

  lemma NoFit(none: set<int>, a: nat)
    requires none == {}
    ensures !Fits(none, a, 1)
  {
    assert Fits(none, a, 1) ==> a in none;
  }

  /** Which frames a request takes: the next fit, at the address returned, behind what
      frame 0 cost; if it fails, a run at frame 0. */
  ghost predicate Took(free: set<int>, from: int, n: nat, ret: int, idx: int, free': set<int>) {
    if ret == 0 then free' == Sunk(free, n)
    else
      && ret == idx * PAGE && NextFit(Open(free, from, n), from, n, idx)
      && free' == Open(free, from, n) - Range(idx, n)
  }

  /** Memory after a request: the bytes of the frames it took are zero. */
  ghost function Wiped(ram: Ram, free: set<int>, from: int, n: nat, ret: int): Ram {
    var sunk := if n > 0 && Fits(free, 0, n) && (ret == 0 || from == 0) then Zeroed(ram, 0, n * PAGE) else ram;
    if ret == 0 then sunk else Zeroed(sunk, ret, n * PAGE)
  }

  /** Without a free frame 0, exactly when some run is free. */
  lemma ServesPlain(free: set<int>, from: int, n: nat)
    requires 0 !in free
    ensures Serves(free, from, n) <==> n > 0 && SomeFit(free, n)
    ensures Open(free, from, n) == free && Sunk(free, n) == free
  {
    assert n > 0 && Fits(free, 0, n) ==> 0 in free;
  }

  /** Physical memory by address. */
  type Ram = int -> int

  /** memset to 0 of n bytes. */
  function Zeroed(ram: Ram, a: int, n: nat): Ram { x => if a <= x < a + n then 0 else ram(x) }

  class Allocator {
    var bitmap: array<nat>
    var highest: nat
    var lastIdx: nat
    var pagesFree: int
    var pagesUsed: int
    var ram: Ram
    ghost var free: set<int>
    ghost var owned: set<int>
    ghost var lost: set<int>

    /** testbit */
    predicate InUse(i: nat)
      requires i / 8 < bitmap.Length
      reads this`bitmap, bitmap
    {
      Bit(bitmap[i / 8], i % 8)
    }

    /** The bitmap reaches all frames below highest. */
    predicate Covers()
      reads this`bitmap, this`highest
    {
      highest <= 8 * bitmap.Length
    }

    /** Frame i is in the set of free frames exactly when its bit is clear. */
    ghost predicate MarkOk(i: nat)
      requires i / 8 < bitmap.Length
      reads this`bitmap, this`free, bitmap
    {
      i in free <==> !InUse(i)
    }

    /** The clear bits below highest are the free frames. */
    ghost predicate Marked()
      reads this`bitmap, this`highest, this`free, bitmap
    {
      && Covers() && (forall i :: i in free ==> 0 <= i < highest)
      && forall i: nat {:trigger MarkOk(i)} :: i < highest ==> MarkOk(i)
    }

    /** The bitmap and the counter keep the books. */
    ghost predicate Valid()
      reads this, bitmap
    {
      Marked() && Books(owned, free, lost, highest, pagesFree)
    }

    /** setbit */
    method SetUse(i: nat)
      requires i / 8 < bitmap.Length
      modifies bitmap
      ensures forall j: nat :: j / 8 < bitmap.Length ==> InUse(j) == (j == i || old(InUse(j)))
    {
      bitmap[i / 8] := SetBit(bitmap[i / 8], i % 8);
      forall j: nat | j / 8 < bitmap.Length ensures InUse(j) == (j == i || old(InUse(j))) {
        SetBitAt(old(bitmap[i / 8]), i % 8, j % 8);
      }
    }

    /** clrbit */
    method ClearUse(i: nat)
      requires i / 8 < bitmap.Length
      modifies bitmap
      ensures forall j: nat :: j / 8 < bitmap.Length ==> InUse(j) == (j != i && old(InUse(j)))
    {
      bitmap[i / 8] := ClearBit(bitmap[i / 8], i % 8);
      forall j: nat | j / 8 < bitmap.Length ensures InUse(j) == (j != i && old(InUse(j))) {
        ClearBitAt(old(bitmap[i / 8]), i % 8, j % 8);
      }
    }

    /** count free frames from a on, below highest. */
    ghost predicate Run(a: nat, count: nat)
      requires Covers()
      reads this`bitmap, this`highest, bitmap
    {
      a + count <= highest && forall j :: a <= j < a + count ==> !InUse(j)
    }

    lemma RunFits(a: nat, count: nat)
      requires Marked() && count > 0
      ensures Run(a, count) <==> Fits(free, a, count)
    {
      if Fits(free, a, count) {
        assert a + count - 1 in free;
        forall j | a <= j < a + count ensures !InUse(j) { assert j in free && MarkOk(j); }
      }
      if Run(a, count) {
        forall j | a <= j < a + count ensures j in free { assert MarkOk(j) && !InUse(j); }
      }
    }

    /** The scan from lastIdx: where the first run of count free frames starts, and
        how many frames of it were counted. */
    method Scan(count: nat) returns (idx: int, frames: nat)
      requires Covers()
      ensures idx >= 0 && frames == count ==> count > 0 && lastIdx <= idx && Run(idx, count)
      ensures count > 0 ==> forall a: nat :: lastIdx <= a && (idx < 0 || frames != count || a < idx) ==> !Run(a, count)
    {
      frames := 0;
      idx := -1;
      var i := lastIdx;
      while i < highest
        invariant lastIdx <= i && (i <= highest || i == lastIdx) && (frames < count || count == 0)
                  && (count == 0 ==> idx < 0)
        invariant idx < 0 ==> frames == 0
        invariant idx >= 0 ==> lastIdx <= idx && idx + frames == i && forall j :: idx <= j < i ==> !InUse(j)
        invariant idx < 0 && lastIdx < i ==> InUse(i - 1)
        invariant idx > lastIdx ==> InUse(idx - 1)
        invariant count > 0 ==> forall a: nat :: lastIdx <= a && a + count <= i ==> !Run(a, count)
      {
        if !InUse(i) {
          if idx < 0 {
            idx := i;
          }
          frames := frames + 1;
          if frames >= count {
            return;
          }
          i := i + 1;
          continue;
        }
        idx := -1;
        frames := 0;
        i := i + 1;
      }
    }

    /** setbit over a range. */
    method UseRange(idx: nat, count: nat)
      requires Marked() && idx + count <= highest
      modifies bitmap, this`free
      ensures Marked() && free == old(free) - Range(idx, count)
    {
      RangeHas(idx, count);
      var i := idx;
      while i < idx + count
        invariant idx <= i <= idx + count && Covers()
        invariant forall j: nat :: j < highest ==> InUse(j) == ((idx <= j < i) || old(InUse(j)))
        modifies bitmap
      {
        SetUse(i);
        i := i + 1;
      }
      free := free - Range(idx, count);
      forall j: nat | j < highest ensures MarkOk(j) { assert old(MarkOk(j)); }
    }

    /** clrbit over a range of addresses: every frame that begins in it. */
    method ClearRange(base: nat, stopAt: nat, ghost idx: nat, ghost count: nat)
      requires Marked() && base == idx * PAGE && (count > 0 ==> idx + count <= highest)
      requires if count == 0 then stopAt <= base else base + (count - 1) * PAGE < stopAt <= base + count * PAGE
      modifies bitmap, this`free
      ensures Marked() && free == old(free) + Range(idx, count)
    {
      RangeHas(idx, count);
      var p := base;
      ghost var i := idx;
      while p < stopAt
        invariant p == i * PAGE && idx <= i <= idx + count && Covers()
        invariant forall j: nat :: j < highest ==> InUse(j) == (!(idx <= j < i) && old(InUse(j)))
        modifies bitmap
        decreases stopAt - p
      {
        assert p / PAGE == i;
        ClearUse(p / PAGE);
        p := p + PAGE;
        i := i + 1;
      }
      free := free + Range(idx, count);
      forall j: nat | j < highest ensures MarkOk(j) { assert old(MarkOk(j)); }
    }

    /** __vm_alloc_frame: the run it takes starts at idx, the first from lastIdx on; idx
        is negative if there is none.  Either way 0 may come back. */
    method AllocOnce(count: nat) returns (ret: nat, ghost idx: int)
      requires Marked()
      modifies bitmap, this`lastIdx, this`ram, this`free
      ensures Marked()
      ensures idx < 0 ==> ret == 0 && lastIdx == old(lastIdx) && free == old(free) && ram == old(ram)
      ensures idx < 0 && count > 0 ==> !FitFrom(old(free), old(lastIdx), count)
      ensures idx >= 0 ==> ret == idx * PAGE && lastIdx == idx && ram == Zeroed(old(ram), ret, count * PAGE)
      ensures idx >= 0 ==> count > 0 && Fits(old(free), idx, count) && idx + count <= highest
      ensures idx >= 0 ==> free == old(free) - Range(idx, count) && old(lastIdx) <= idx
      ensures idx >= 0 ==> forall a: nat :: old(lastIdx) <= a < idx ==> !Fits(old(free), a, count)
    {
      var i, frames := Scan(count);
      forall a: nat | count > 0 ensures Run(a, count) <==> Fits(free, a, count) { RunFits(a, count); }
      if i < 0 || frames != count {
        return 0, -1;
      }
      assert Fits(free, i, count);
      FitsBelow(free, highest, i, count);
      UseRange(i, count);
      ret := i * PAGE;
      idx := i;
      lastIdx := i;
      ram := Zeroed(ram, ret, count * PAGE);
    }

    /** Both passes of vm_alloc_frame: from lastIdx on, then from the start. */
    method Search(count: nat) returns (ret: nat)
      requires Marked()
      modifies bitmap, this`lastIdx, this`ram, this`free
      ensures Marked() && (ret != 0 <==> Serves(old(free), old(lastIdx), count))
      ensures Took(old(free), old(lastIdx), count, ret, lastIdx, free)
      ensures ret != 0 ==> 0 < lastIdx && lastIdx + count <= highest
      ensures ram == Wiped(old(ram), old(free), old(lastIdx), count, ret)
    {
      ghost var f, from := free, lastIdx;
      ghost var i, j := -1, -1;
      ret, i := AllocOnce(count);
      assert i == 0 <==> Trap(f, from, count) by { if Trap(f, from, count) { assert FitFrom(f, from, count); } }
      if ret == 0 {
        lastIdx := 0;
        ghost var f' := free;
        ret, j := AllocOnce(count);
        if i == 0 { SunkOnce(f, count, j); }
      }
    }

    /** A run at frame 0 is not found twice. */
    static lemma SunkOnce(f: set<int>, n: nat, j: int)
      requires n > 0 && (j >= 0 ==> Fits(f - Range(0, n), j, n))
      ensures j != 0
    {
      RangeHas(0, n);
      assert j == 0 ==> 0 in f - Range(0, n);
    }

    /** vm_alloc_frame, with 0 where the kernel panics.  The range that is handed out was
        free, is now in use, overlaps nothing handed out, and reads as zeros.  Frames are
        lost exactly if the search ends at frame 0. */
    method AllocFrame(count: nat) returns (ret: nat)
      requires Valid()
      modifies this`lastIdx, this`ram, this`free, this`pagesUsed, this`pagesFree, this`owned, this`lost, bitmap
      ensures Valid()
      ensures pagesFree + pagesUsed == old(pagesFree + pagesUsed)
      ensures ret != 0 <==> Serves(old(free), old(lastIdx), count)
      ensures Took(old(free), old(lastIdx), count, ret, lastIdx, free)
      ensures pagesFree == old(pagesFree) - if ret == 0 then 0 else count
      ensures ret == 0 ==> owned == old(owned)
      ensures ret != 0 ==> 0 < lastIdx && lastIdx + count <= highest
      ensures ret != 0 ==> old(owned) !! Range(lastIdx, count) && owned == old(owned) + Range(lastIdx, count)
      ensures lost == old(lost) + (old(free) - if ret == 0 then free else Open(old(free), old(lastIdx), count))
      ensures ram == Wiped(old(ram), old(free), old(lastIdx), count, ret)
    {
      ghost var f, from := free, lastIdx;
      ret := Search(count);
      if ret == 0 {
        WriteOff(f, count);
      } else {
        Charge(count, f, from);
      }
    }

    /** What a failed request cost. */
    ghost method WriteOff(f: set<int>, count: nat)
      requires Marked() && free == Sunk(f, count) && Books(owned, f, lost, highest, pagesFree)
      modifies this`lost
      ensures Valid() && lost == old(lost) + (f - free)
    {
      LoseOnFailure(owned, f, lost, highest, pagesFree, count);
      lost := lost + (f - free);
    }

    /** The counters after an allocation. */
    method Charge(count: nat, ghost f: set<int>, ghost from: int)
      requires Marked() && Books(owned, f, lost, highest, pagesFree) && 0 < lastIdx && lastIdx + count <= highest
      requires Fits(Open(f, from, count), lastIdx, count) && free == Open(f, from, count) - Range(lastIdx, count)
      modifies this`pagesUsed, this`pagesFree, this`owned, this`lost
      ensures Valid() && old(owned) !! Range(lastIdx, count) && owned == old(owned) + Range(lastIdx, count)
      ensures lost == old(lost) + (f - Open(f, from, count))
      ensures pagesUsed == old(pagesUsed) + count && pagesFree == old(pagesFree) - count
    {
      HandOpen(owned, f, lost, highest, pagesFree, from, lastIdx, count);
      Count(count, owned + Range(lastIdx, count), lost + (f - Open(f, from, count)));
    }

    method Count(count: nat, ghost own: set<int>, ghost gone: set<int>)
      requires Marked() && Books(own, free, gone, highest, pagesFree - count)
      modifies this`pagesUsed, this`pagesFree, this`owned, this`lost
      ensures Valid() && owned == own && lost == gone
      ensures pagesUsed == old(pagesUsed) + count && pagesFree == old(pagesFree) - count
    {
      pagesUsed := pagesUsed + count;
      pagesFree := pagesFree - count;
      owned, lost := own, gone;
    }

    /** vm_free_frame of frames that are handed out, be they one allocation, a part of
        one or several: the frames from the next page boundary on are free again. */
    method FreeFrame(base: nat, count: nat)
      requires Valid() && Range(PageUp(base), count) <= owned
      modifies this`free, this`pagesUsed, this`pagesFree, this`owned, bitmap
      ensures Valid()
      ensures pagesFree + pagesUsed == old(pagesFree + pagesUsed) && pagesFree == old(pagesFree) + count
      ensures owned == old(owned) - Range(PageUp(base), count)
      ensures free == old(free) + Range(PageUp(base), count)
    {
      ghost var b := PageUp(base);
      var stopAt := base + count * PAGE;
      var start := PageUp(base) * PAGE;
      TakeBack(owned, free, lost, highest, pagesFree, b, count);
      RoundedEnd(base, count);
      ClearRange(start, stopAt, b, count);
      pagesUsed := pagesUsed - count;
      pagesFree := pagesFree + count;
      owned := owned - Range(b, count);
    }

    // ---- setting up

    /** Storage for a bitmap of some size, all frames marked in use. */
    constructor (size: nat, highest: nat)
      requires highest <= 8 * size
      ensures fresh(bitmap) && bitmap.Length == size && this.highest == highest && lastIdx == 0 && pagesFree == 0
              && pagesUsed == 0
      ensures owned == {} && lost == {} && Marked() && free == {}
    {
      bitmap := new nat[size](i => 0xFF);
      this.highest, lastIdx, pagesFree, pagesUsed := highest, 0, 0, 0;
      free, owned, lost := {}, {}, {};
      ram := _ => 0;
      new;
      forall i: nat | i < highest ensures MarkOk(i) { AllOnes(i % 8); }
    }

    /** The frames of a usable entry are freed and counted. */
    method FreeEntry(ent: Entry)
      requires Marked() && ent.usable && EntryOk(ent, highest)
      modifies this`pagesFree, this`free, bitmap
      ensures Marked() && free == old(free) + Range(ent.base / PAGE, ent.length / PAGE)
              && pagesFree == old(pagesFree) + ent.length / PAGE
    {
      EntryPages(ent.base, ent.length);
      ClearRange(ent.base, ent.base + ent.length, ent.base / PAGE, ent.length / PAGE);
      pagesFree := pagesFree + ent.length / PAGE;
    }

    /** physmem_populate_bitmap: the frames of usable entries are free, and counted. */
    method Populate(es: seq<Entry>)
      requires Marked() && free == {} && pagesFree == 0 && pagesUsed == 0 && MapOk(es, highest)
      modifies this`pagesFree, this`pagesUsed, this`free, bitmap
      ensures Marked() && free == Usable(es) && pagesFree == |free| && pagesFree + pagesUsed == Pages(es)
    {
      var i := 0;
      while i < |es|
        invariant 0 <= i <= |es| && Marked()
        invariant free == Usable(es[..i]) && pagesFree == |Usable(es[..i])| && pagesFree + pagesUsed == Pages(es[..i])
      {
        Fresh(es, i);
        if es[i].usable {
          FreeEntry(es[i]);
        } else {
          pagesUsed := pagesUsed + es[i].length / PAGE;
        }
        i := i + 1;
      }
      assert es[..i] == es;
    }
  }

  /** Rounding the start up to a page leaves room for count page starts. */
  lemma RoundedEnd(base: nat, count: nat)
    ensures var start, stop := PageUp(base) * PAGE, base + count * PAGE;
            if count == 0 then stop <= start else start + (count - 1) * PAGE < stop <= start + count * PAGE
  {
    assert base <= PageUp(base) * PAGE < base + PAGE;
  }

  lemma EntryPages(base: nat, length: nat)
    requires base % PAGE == 0 && length % PAGE == 0
    ensures base == base / PAGE * PAGE && length == length / PAGE * PAGE
  {}

  function OnesOf(n: nat): nat { if n == 0 then 0 else 2 * OnesOf(n - 1) + 1 }

  lemma {:induction false} Ones(n: nat, k: nat)
    requires k < n
    ensures Bit(OnesOf(n), k)
  {
    Halves(OnesOf(n - 1), 1);
    if k != 0 { Ones(n - 1, k - 1); }
  }

  lemma AllOnes(k: nat)
    requires k < 8
    ensures Bit(0xFF, k)
  {
    assert OnesOf(4) == 15;
    assert OnesOf(8) == 255;
    Ones(8, k);
  }

  /** The frames an entry makes free. */
  function FramesOf(e: Entry): set<int> { if e.usable then Range(e.base / PAGE, e.length / PAGE) else {} }

  function Usable(es: seq<Entry>): set<int> { if es == [] then {} else Usable(es[..|es| - 1]) + FramesOf(es[|es| - 1]) }

  function Pages(es: seq<Entry>): nat { if es == [] then 0 else Pages(es[..|es| - 1]) + es[|es| - 1].length / PAGE }

  /** Usable entries are whole pages below highest, and none overlap. */
  ghost predicate MapOk(es: seq<Entry>, highest: nat) {
    && (forall i :: 0 <= i < |es| && es[i].usable ==> EntryOk(es[i], highest))
    && forall i, j :: 0 <= i < j < |es| ==> FramesOf(es[i]) !! FramesOf(es[j])
  }

  predicate EntryOk(e: Entry, highest: nat) {
    e.base % PAGE == 0 && e.length % PAGE == 0 && e.base / PAGE + e.length / PAGE <= highest
  }

  lemma {:induction false} UsableApart(es: seq<Entry>, s: set<int>)
    requires forall i :: 0 <= i < |es| ==> FramesOf(es[i]) !! s
    ensures Usable(es) !! s
    decreases |es|
  {
    if es != [] { UsableApart(es[..|es| - 1], s); }
  }

  lemma Fresh(es: seq<Entry>, i: nat)
    requires i < |es| && forall j, k :: 0 <= j < k < |es| ==> FramesOf(es[j]) !! FramesOf(es[k])
    ensures !es[i].usable ==> Usable(es[..i + 1]) == Usable(es[..i])
    ensures es[i].usable ==> Usable(es[..i + 1]) == Usable(es[..i]) + Range(es[i].base / PAGE, es[i].length / PAGE)
    ensures es[i].usable ==> |Usable(es[..i + 1])| == |Usable(es[..i])| + es[i].length / PAGE
    ensures Pages(es[..i + 1]) == Pages(es[..i]) + es[i].length / PAGE
  {
    assert es[..i + 1][..i] == es[..i];
    UsableApart(es[..i], FramesOf(es[i]));
    if es[i].usable { RangeHas(es[i].base / PAGE, es[i].length / PAGE); }
  }

  // ---- boot

  /** `ALIGN_UP(highest / 8, DEFAULT_PAGESIZE)` bytes */
  function BitmapSize(highest: nat): nat { (highest / 8 + PAGE - 1) / PAGE * PAGE }

  /** The bitmap reaches the last frame unless the byte count, rounded down, is a whole
      number of pages already. */
  lemma BitmapReaches(highest: nat)
    ensures highest <= 8 * BitmapSize(highest) <==> highest % 8 == 0 || highest / 8 % PAGE != 0
  {
    var b := highest / 8;
    var q, r := b / PAGE, b % PAGE;
    assert b == PAGE * q + r && highest == 8 * b + highest % 8;
    assert (b + PAGE - 1) / PAGE == if r == 0 then q else q + 1;
  }

  function MaxOf(a: nat, b: nat): nat { if a < b then b else a }

  /** The end of usable memory. */
  function Top(es: seq<Entry>): nat {
    if es == [] then 0
    else
      var e := es[|es| - 1];
      if e.usable then MaxOf(Top(es[..|es| - 1]), e.base + e.length) else Top(es[..|es| - 1])
  }

  method HighestAddress(es: seq<Entry>) returns (top: nat)
    ensures top == Top(es)
  {
    top := 0;
    var i := 0;
    while i < |es|
      invariant 0 <= i <= |es| && top == Top(es[..i])
    {
      assert es[..i + 1][..i] == es[..i];
      if es[i].usable {
        top := MaxOf(top, es[i].base + es[i].length);
      }
      i := i + 1;
    }
    assert es[..i] == es;
  }

  lemma {:induction false} TopBounds(es: seq<Entry>, i: nat)
    requires i < |es| && es[i].usable
    ensures es[i].base + es[i].length <= Top(es)
    decreases |es|
  {
    if i < |es| - 1 { TopBounds(es[..|es| - 1], i); }
  }

  /** The first usable entry from i on with room. */
  function FirstFit(es: seq<Entry>, size: nat, i: nat): (k: nat)
    requires i <= |es|
    ensures i <= k <= |es| && (k < |es| ==> es[k].usable && es[k].length >= size)
    ensures forall j :: i <= j < k ==> !es[j].usable || es[j].length < size
    decreases |es| - i
  {
    if i == |es| || (es[i].usable && es[i].length >= size) then i else FirstFit(es, size, i + 1)
  }

  function Carved(es: seq<Entry>, size: nat): seq<Entry> {
    var k := FirstFit(es, size, 0);
    if k == |es| then es else es[k := Entry(es[k].base + size, es[k].length - size, true)]
  }

  /** physmem_alloc_bitmap: the first usable entry with room gives up its first bytes. */
  method Carve(es: seq<Entry>, size: nat) returns (k: nat, rest: seq<Entry>)
    ensures k == FirstFit(es, size, 0) && rest == Carved(es, size)
  {
    k, rest := 0, es;
    while k < |es|
      invariant 0 <= k <= |es| && rest == es && FirstFit(es, size, 0) == FirstFit(es, size, k)
    {
      if es[k].usable && es[k].length >= size {
        rest := es[k := Entry(es[k].base + size, es[k].length - size, true)];
        return;
      }
      k := k + 1;
    }
  }

  /** Giving up whole pages keeps a memory map sound and frees none of them. */
  lemma CarveOk(es: seq<Entry>, highest: nat, k: nat, n: nat)
    requires MapOk(es, highest) && k < |es| && es[k].usable && es[k].length >= n * PAGE
    ensures var rest := es[k := Entry(es[k].base + n * PAGE, es[k].length - n * PAGE, true)];
            MapOk(rest, highest) && Usable(rest) !! Range(es[k].base / PAGE, n)
  {
    var e, rest := es[k], es[k := Entry(es[k].base + n * PAGE, es[k].length - n * PAGE, true)];
    CarveFrames(e, n);
    forall i, j | 0 <= i < j < |rest| ensures FramesOf(rest[i]) !! FramesOf(rest[j]) {
      assert FramesOf(rest[i]) <= FramesOf(es[i]) && FramesOf(rest[j]) <= FramesOf(es[j]);
    }
    assert EntryOk(e, highest);
    forall i | 0 <= i < |rest| ensures FramesOf(rest[i]) !! Range(e.base / PAGE, n) {
      if i < k { assert FramesOf(es[i]) !! FramesOf(es[k]); }
      if k < i { assert FramesOf(es[k]) !! FramesOf(es[i]); }
    }
    UsableApart(rest, Range(e.base / PAGE, n));
  }

  lemma CarveFrames(e: Entry, n: nat)
    requires e.usable && e.base % PAGE == 0 && e.length % PAGE == 0 && e.length >= n * PAGE
    ensures var e' := Entry(e.base + n * PAGE, e.length - n * PAGE, true);
            && FramesOf(e') <= FramesOf(e) && Range(e.base / PAGE, n) <= FramesOf(e)
            && FramesOf(e') !! Range(e.base / PAGE, n)
            && e'.base % PAGE == 0 && e'.length % PAGE == 0
            && e'.base / PAGE + e'.length / PAGE == e.base / PAGE + e.length / PAGE
  {
    var a, m := e.base / PAGE, e.length / PAGE;
    CarveNumbers(e.base, e.length, a, m, n);
    RangeSplit(a, m, n);
  }

  lemma CarveNumbers(base: nat, length: nat, a: nat, m: nat, n: nat)
    requires base % PAGE == 0 && length % PAGE == 0 && length >= n * PAGE && a == base / PAGE && m == length / PAGE
    ensures n <= m && (base + n * PAGE) / PAGE == a + n && (length - n * PAGE) / PAGE == m - n
    ensures (base + n * PAGE) % PAGE == 0 && (length - n * PAGE) % PAGE == 0
  {
    assert base == a * PAGE && length == m * PAGE;
  }

  lemma RangeSplit(a: int, m: nat, n: nat)
    requires n <= m
    ensures Range(a + n, m - n) <= Range(a, m) && Range(a, n) <= Range(a, m) && Range(a + n, m - n) !! Range(a, n)
  {
    forall i | i in Range(a, n) ensures i in Range(a, m) && i !in Range(a + n, m - n) {
      RangeAt(a, m, i);
      RangeAt(a, n, i);
      RangeAt(a + n, m - n, i);
    }
    forall i | i in Range(a + n, m - n) ensures i in Range(a, m) {
      RangeAt(a, m, i);
      RangeAt(a + n, m - n, i);
    }
  }

  /** Usable entries are whole pages and none overlap. */
  ghost predicate Sound(es: seq<Entry>) {
    && (forall i :: 0 <= i < |es| && es[i].usable ==> es[i].base % PAGE == 0 && es[i].length % PAGE == 0)
    && forall i, j :: 0 <= i < j < |es| ==> FramesOf(es[i]) !! FramesOf(es[j])
  }

  lemma SoundMap(es: seq<Entry>)
    requires Sound(es)
    ensures MapOk(es, Top(es) / PAGE)
  {
    forall i | 0 <= i < |es| && es[i].usable ensures EntryOk(es[i], Top(es) / PAGE) {
      TopBounds(es, i);
      EndFrame(es[i].base, es[i].length, Top(es));
    }
  }

  lemma EndFrame(base: nat, length: nat, top: nat)
    requires base % PAGE == 0 && length % PAGE == 0 && base + length <= top
    ensures base / PAGE + length / PAGE <= top / PAGE
  {
    assert (base + length) / PAGE == base / PAGE + length / PAGE;
  }

  /** What booting needs of the memory map: room for the bitmap, and a bitmap that
      reaches the last frame. */
  ghost predicate Bootable(es: seq<Entry>) {
    var h := Top(es) / PAGE;
    && Sound(es) && (h % 8 == 0 || h / 8 % PAGE != 0)
    && FirstFit(es, BitmapSize(h), 0) < |es|
  }

  /** physmem_init_bitmap: exactly the usable frames are free, without the bitmap's own. */
  method Boot(es: seq<Entry>) returns (a: Allocator)
    requires Bootable(es)
    ensures fresh(a) && fresh(a.bitmap) && a.Valid() && a.owned == {} && a.lost == {} && a.highest == Top(es) / PAGE
    ensures a.free == Usable(Carved(es, BitmapSize(a.highest)))
            && a.pagesFree + a.pagesUsed == Pages(Carved(es, BitmapSize(a.highest)))
    ensures var k := FirstFit(es, BitmapSize(a.highest), 0);
            a.free !! Range(es[k].base / PAGE, BitmapSize(a.highest) / PAGE)
  {
    var top := HighestAddress(es);
    var h := top / PAGE;
    var size := BitmapSize(h);
    BootMap(es, h, size);
    var k, rest := Carve(es, size);
    a := new Allocator(size, h);
    a.Populate(rest);
  }

  lemma BootMap(es: seq<Entry>, h: nat, size: nat)
    requires Bootable(es) && h == Top(es) / PAGE && size == BitmapSize(h)
    ensures h <= 8 * size && MapOk(Carved(es, size), h)
    ensures Usable(Carved(es, size)) !! Range(es[FirstFit(es, size, 0)].base / PAGE, size / PAGE)
  {
    SoundMap(es);
    BitmapReaches(h);
    WholePages(h, size);
    CarvedOk(es, h, size, size / PAGE);
  }

  lemma CarvedOk(es: seq<Entry>, h: nat, size: nat, n: nat)
    requires MapOk(es, h) && size == n * PAGE && FirstFit(es, size, 0) < |es|
    ensures MapOk(Carved(es, size), h) && Usable(Carved(es, size)) !! Range(es[FirstFit(es, size, 0)].base / PAGE, n)
  {
    CarveOk(es, h, FirstFit(es, size, 0), n);
  }

  lemma WholePages(h: nat, size: nat)
    requires size == BitmapSize(h)
    ensures size == (size / PAGE) * PAGE
  {}
}

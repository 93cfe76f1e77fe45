/**
 What splitting, absorbing and marking do to the sets the allocator relies on:
 the free blocks, the previous-free flags, the live blocks, and the rule that no
 two neighbours are both free.
 */
module TlsfSteps {
  import opened TlsfMapping
  import opened TlsfHeap
  import opened TlsfMemory

  /** Live blocks and their sizes: the allocator as its clients see it. */
  function Live(g: Heap): map<int, nat> {
    map b | b in g && IsLive(g, b) :: g[b].size
  }

  /** Only b may have a free neighbour while being free. */
  ghost predicate CoalescedBut(g: Heap, b: int) {
    forall c {:trigger PrevIsFree(g, c)} :: PrevIsFree(g, c) && g[c].free ==> c == b || g[c].prev == b
  }

  lemma PrevOk(g: Heap, pools: seq<Pool>, c: int)
    requires Chain(g, pools) && c in g && g[c].prev != NONE
    ensures g[c].prev in g && Next(g, g[c].prev) == c && g[g[c].prev].size != 0
  {
    assert BlockOk(g, pools, c);
  }

  /** The block after a block, by address and by `prev`. */
  lemma NextPrev(g: Heap, pools: seq<Pool>, b: int, c: int)
    requires Chain(g, pools) && b in g && c in g && g[b].size != 0
    ensures b != NONE && Next(g, b) in g && Next(g, b) != b
    ensures g[c].prev == b <==> c == Next(g, b)
  {
    assert BlockOk(g, pools, b) && BlockOk(g, pools, c);
  }

  // ---- marking

  lemma MarkSets(g: Heap, pools: seq<Pool>, b: int, free: bool)
    requires Chain(g, pools) && b in g && g[b].size != 0
    ensures Next(g, b) in g
    ensures var h := SetFree(g, b, free);
            && FreeSet(h) == (if free then FreeSet(g) + {b} else FreeSet(g) - {b})
            && PrevFreeSet(h) == (if free then PrevFreeSet(g) + {Next(g, b)} else PrevFreeSet(g) - {Next(g, b)})
            && Live(h) == (if free then Live(g) - {b} else Live(g)[b := g[b].size])
  {
    var h := SetFree(g, b, free);
    NextPrev(g, pools, b, b);
    forall c | c in g ensures c in PrevFreeSet(h) <==> (if c == Next(g, b) then free else c in PrevFreeSet(g)) {
      NextPrev(g, pools, b, c);
      if g[c].prev != NONE { PrevOk(g, pools, c); }
    }
  }

  lemma MarkFreeCoalesced(g: Heap, pools: seq<Pool>, b: int)
    requires Chain(g, pools) && b in g && g[b].size != 0 && Coalesced(g)
    ensures CoalescedBut(SetFree(g, b, true), b)
  {
    var h := SetFree(g, b, true);
    forall c | PrevIsFree(h, c) && h[c].free ensures c == b || h[c].prev == b {
      assert c != b && g[c].prev != b ==> PrevIsFree(g, c);
    }
  }

  lemma MarkUsedCoalesced(g: Heap, b: int)
    requires b in g && CoalescedBut(g, b)
    ensures Coalesced(SetFree(g, b, false))
  {
    var h := SetFree(g, b, false);
    forall c | PrevIsFree(h, c) ensures !h[c].free {
      assert PrevIsFree(g, c);
    }
  }

  // ---- absorbing

  ghost predicate CanAbsorb(g: Heap, p: int) {
    p in g && g[p].size != 0 && Next(g, p) in g && g[Next(g, p)].size != 0 && Next(g, Next(g, p)) in g
  }

  lemma AbsorbPrev(g: Heap, pools: seq<Pool>, p: int, c: int)
    requires Chain(g, pools) && CanAbsorb(g, p) && c in Absorb(g, p)
    ensures c in g && c != Next(g, p)
    ensures c == Next(g, Next(g, p)) ==> Absorb(g, p)[c].prev == p && p != NONE
    ensures c != Next(g, Next(g, p)) ==> Absorb(g, p)[c].prev == g[c].prev && g[c].prev != Next(g, p)
  {
    NextPrev(g, pools, Next(g, p), c);
    NextPrev(g, pools, p, c);
  }

  lemma AbsorbSets(g: Heap, pools: seq<Pool>, p: int)
    requires Chain(g, pools) && CanAbsorb(g, p) && IsFree(g, Next(g, p))
    ensures FreeSet(Absorb(g, p)) == FreeSet(g) - {Next(g, p)}
    ensures g[p].free ==> PrevFreeSet(Absorb(g, p)) == PrevFreeSet(g) - {Next(g, p)}
    ensures !g[p].free ==>
              PrevFreeSet(Absorb(g, p)) == PrevFreeSet(g) - {Next(g, p)} - {Next(g, Next(g, p))}
    ensures Live(Absorb(g, p)) == (if g[p].free then Live(g) else Live(g)[p := Absorb(g, p)[p].size])
  {
    var n, h := Next(g, p), Absorb(g, p);
    var nn := Next(g, n);
    NextPrev(g, pools, p, p);
    NextPrev(g, pools, n, n);
    AbsorbPrev(g, pools, p, p);
    forall c | c in h ensures c in PrevFreeSet(h) <==> (if c == nn then g[p].free else c in PrevFreeSet(g)) {
      AbsorbPrev(g, pools, p, c);
      if g[c].prev != NONE { PrevOk(g, pools, c); }
    }
    assert nn in PrevFreeSet(g) && nn in h by {
      NextPrev(g, pools, n, nn);
      NextPrev(g, pools, p, nn);
      assert Apart(g, p, n);
    }
  }

  /** Merging backward, then forward, restores the rule. */
  lemma AbsorbPrevCoalesced(g: Heap, pools: seq<Pool>, p: int)
    requires Chain(g, pools) && CanAbsorb(g, p) && IsFree(g, p) && IsFree(g, Next(g, p))
    requires CoalescedBut(g, Next(g, p))
    ensures CoalescedBut(Absorb(g, p), p) && !PrevIsFree(Absorb(g, p), p)
  {
    var n, h := Next(g, p), Absorb(g, p);
    NextPrev(g, pools, p, p);
    AbsorbPrev(g, pools, p, p);
    NextPrev(g, pools, n, p);
    assert Apart(g, p, n) && Apart(g, n, Next(g, n));
    assert !PrevIsFree(g, p);
    if g[p].prev != NONE { PrevOk(g, pools, p); }
    forall c | PrevIsFree(h, c) && h[c].free ensures c == p || h[c].prev == p {
      AbsorbPrev(g, pools, p, c);
      if c != Next(g, n) {
        assert PrevIsFree(g, c);
      }
    }
  }

  lemma AbsorbNextCoalesced(g: Heap, pools: seq<Pool>, p: int)
    requires Chain(g, pools) && CanAbsorb(g, p) && IsFree(g, Next(g, p))
    requires CoalescedBut(g, p) && (g[p].free ==> !PrevIsFree(g, p))
    ensures Coalesced(Absorb(g, p))
  {
    var n, h := Next(g, p), Absorb(g, p);
    var nn := Next(g, n);
    NextPrev(g, pools, p, p);
    NextPrev(g, pools, n, nn);
    NextPrev(g, pools, p, nn);
    assert PrevIsFree(g, nn);
    forall c | PrevIsFree(h, c) ensures !h[c].free {
      AbsorbPrev(g, pools, p, c);
      NextPrev(g, pools, p, c);
      if c != nn { assert PrevIsFree(g, c); }
    }
  }

  lemma NoMergeCoalesced(g: Heap, pools: seq<Pool>, p: int)
    requires Chain(g, pools) && p in g && g[p].size != 0
    requires CoalescedBut(g, p) && (g[p].free ==> !PrevIsFree(g, p)) && !IsFree(g, Next(g, p))
    ensures Coalesced(g)
  {
    forall c | PrevIsFree(g, c) ensures !g[c].free { NextPrev(g, pools, p, c); }
  }

  // ---- splitting

  lemma SplitSets(g: Heap, pools: seq<Pool>, b: int, size: nat)
    requires Chain(g, pools) && b in g && size % ALIGN_SIZE == 0 && BLOCK_MIN <= size && size + HEADER <= g[b].size
    ensures Next(g, b) in g && b + OVERHEAD + size !in g
    ensures var h, r := Split(g, b, size), b + OVERHEAD + size;
            && FreeSet(h) == FreeSet(g) + {r} && r in h && Next(h, b) == r && Next(h, r) == Next(g, b)
            && Live(h) == (if g[b].free then Live(g) else Live(g)[b := size])
  {
    SplitChain(g, pools, b, size);
    NextPrev(g, pools, b, b);
  }

  /** Splitting a free block and using its front leaves a lone free remainder. */
  lemma SplitFreeCoalesced(g: Heap, pools: seq<Pool>, b: int, size: nat)
    requires Chain(g, pools) && b in g && size % ALIGN_SIZE == 0 && BLOCK_MIN <= size && size + HEADER <= g[b].size
    requires CoalescedBut(g, b) && Next(g, b) in g && !IsFree(g, Next(g, b)) && b + OVERHEAD + size !in g
    ensures CoalescedBut(Split(g, b, size), b)
  {
    var h, r, n := Split(g, b, size), b + OVERHEAD + size, Next(g, b);
    NextPrev(g, pools, b, b);
    forall c | PrevIsFree(h, c) && h[c].free ensures c == b || h[c].prev == b {
      if c != r && c != n {
        NextPrev(g, pools, b, c);
        PrevOk(g, pools, c);
        assert PrevIsFree(g, c);
      }
    }
  }

  /** A free block of a coalesced heap stands alone. */
  lemma FreeAlone(g: Heap, pools: seq<Pool>, b: int)
    requires Chain(g, pools) && Coalesced(g) && IsFree(g, b)
    ensures Next(g, b) in g && !IsFree(g, Next(g, b)) && !PrevIsFree(g, b) && CoalescedBut(g, b)
  {
    assert BlockOk(g, pools, b);
    NextPrev(g, pools, b, Next(g, b));
    assert PrevIsFree(g, Next(g, b));
  }

  /** Splitting a live block: its remainder may meet a free block behind it. */
  lemma SplitUsedCoalesced(g: Heap, pools: seq<Pool>, b: int, size: nat)
    requires Chain(g, pools) && b in g && size % ALIGN_SIZE == 0 && BLOCK_MIN <= size && size + HEADER <= g[b].size
    requires Coalesced(g) && !g[b].free && Next(g, b) in g && b + OVERHEAD + size !in g
    ensures var h, r := Split(g, b, size), b + OVERHEAD + size; CoalescedBut(h, r) && !PrevIsFree(h, r)
  {
    var h, r, n := Split(g, b, size), b + OVERHEAD + size, Next(g, b);
    NextPrev(g, pools, b, b);
    forall c | PrevIsFree(h, c) && h[c].free ensures c == r || h[c].prev == r {
      if c != r && c != n {
        NextPrev(g, pools, b, c);
        PrevOk(g, pools, c);
        assert PrevIsFree(g, c);
      }
    }
  }

  lemma SplitNullApart(g: Heap, b: int, size: nat, nul: int)
    requires NullApart(g, nul) && b in g && Next(g, b) in g && size + HEADER <= g[b].size
    ensures NullApart(Split(g, b, size), nul)
  {}

  lemma AbsorbNullApart(g: Heap, p: int, nul: int)
    requires NullApart(g, nul) && CanAbsorb(g, p)
    ensures NullApart(Absorb(g, p), nul)
  {}

  lemma LiveBytes(m: Mem, m': Mem, g: Heap)
    requires KeepsLive(m, m', g)
    ensures KeepsBytes(m, m', Live(g))
  {
    forall c | c in Live(g) ensures Same(m, m', c, Live(g)[c]) { assert SamePayload(m, m', g, c); }
  }

  /** A new block c beside block b, once b is gone. */
  lemma LiveMoved(live: map<int, nat>, b: int, c: int, n: nat)
    requires b in live && c !in live
    ensures live[c := n] - {b} - {c} == live - {b}
    ensures live[c := n] - {b} == (live - {b})[c := n]
  {}
}

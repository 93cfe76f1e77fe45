/**
 The TLSF allocator.  `mem` is the address space, `ctl` the control structure;
 the ghost fields say what they stand for: the chain of blocks, the pools and
 the contents of the free lists.
 */
module Tlsf {
  import opened Bits
  import opened TlsfMapping
  import opened TlsfHeap
  import opened TlsfMemory
  import opened TlsfLists
  import opened TlsfBlocks
  import opened TlsfSteps
  import opened TlsfAlign
  import opened TlsfBytes
  import opened TlsfPool
  import opened TlsfRefused

  /** A listed block is free and filed under its size. */
  ghost predicate FiledAt(g: Heap, st: Listed, clock: nat, b: int)
    requires b in st
  {
    IsFree(g, b) && st[b].cls == MappingInsert(g[b].size) && st[b].stamp < clock
  }

  ghost predicate Filed(g: Heap, st: Listed, clock: nat) {
    forall b {:trigger FiledAt(g, st, clock, b)} :: b in st ==> FiledAt(g, st, clock, b)
  }

  lemma FiledListed(g: Heap, st: Listed, clock: nat)
    requires Filed(g, st, clock)
    ensures ListedIn(g, st)
  {
    forall c | c in st ensures IsFree(g, c) { assert FiledAt(g, st, clock, c); }
  }

  lemma SpacedLists(g: Heap, pools: seq<Pool>, st: Listed, nul: int)
    requires Chain(g, pools) && ListedIn(g, st) && NullApart(g, nul)
    ensures Spaced(st, nul) && nul !in st
  {
    forall x, y | x in st && y in st && x != y ensures Clear(x, y) {
      assert BlockOk(g, pools, x) && BlockOk(g, pools, y);
      assert Apart(g, x, y) && Apart(g, y, x);
    }
    forall x | x in st ensures Clear(x, nul) && x != nul { assert BlockOk(g, pools, x); }
  }

  /** Addresses 0 and block_null are no blocks. */
  lemma NotNull(g: Heap, pools: seq<Pool>, b: int)
    requires Chain(g, pools) && b in g
    ensures b >= BLOCK_MIN
  {
    assert BlockOk(g, pools, b) && PoolOk(g, pools, g[b].pool);
  }

  // ---- the list writes leave headers and live payloads alone

  /** A block or block_null whose list links may be written. */
  ghost predicate Linkable(g: Heap, nul: int, c: int) {
    c == nul || IsFree(g, c)
  }

  lemma LinkWrite(m: Mem, g: Heap, pools: seq<Pool>, p: set<int>, nul: int, c: int, a: int, v: Word)
    requires Chain(g, pools) && Headers(m, g, p) && Linked(m, g) && NullApart(g, nul)
    requires Linkable(g, nul, c) && (a == c + 16 || a == c + 24)
    ensures Headers(Put(m, a, v), g, p) && Linked(Put(m, a, v), g) && KeepsLive(m, Put(m, a, v), g)
  {
    if c == nul {
      NullWriteKeepsHeaders(m, g, pools, p, nul, a, v);
      NullWriteKeepsLive(m, g, nul, a, v);
    } else {
      assert BlockOk(g, pools, c);
      LinkWriteKeepsHeaders(m, g, pools, p, c, a, v);
      WriteKeepsLive(m, g, pools, c, a, v);
    }
  }

  lemma UnlinkKeeps(m: Mem, k: Control, g: Heap, pools: seq<Pool>, p: set<int>, st: Listed, b: int)
    requires Chain(g, pools) && Headers(m, g, p) && Linked(m, g) && NullApart(g, k.nul)
    requires Lists(m, k, st) && ListedIn(g, st) && b in st
    ensures Headers(Unlink(m, b), g, p) && Linked(Unlink(m, b), g) && KeepsLive(m, Unlink(m, b), g)
  {
    assert NodeOk(m, k, st, b);
    var q, n := PrevFree(m, b), NextFree(m, b);
    LinkWrite(m, g, pools, p, k.nul, n, n + 24, Ptr(q));
    LinkWrite(Put(m, n + 24, Ptr(q)), g, pools, p, k.nul, q, q + 16, Ptr(n));
    KeepsLiveTransitive(m, Put(m, n + 24, Ptr(q)), Unlink(m, b), g);
  }

  lemma LinkInKeeps(m: Mem, k: Control, g: Heap, pools: seq<Pool>, p: set<int>, st: Listed, b: int, c: Class)
    requires Chain(g, pools) && Headers(m, g, p) && Linked(m, g) && NullApart(g, k.nul)
    requires Lists(m, k, st) && ListedIn(g, st) && IsFree(g, b) && c.InRange()
    ensures Headers(LinkIn(m, k, b, c), g, p) && Linked(LinkIn(m, k, b, c), g) && KeepsLive(m, LinkIn(m, k, b, c), g)
  {
    assert HeadOk(m, k, st, c);
    var h := k.Head(c);
    var m1 := Put(m, b + 16, Ptr(h));
    var m2 := Put(m1, b + 24, Ptr(k.nul));
    LinkWrite(m, g, pools, p, k.nul, b, b + 16, Ptr(h));
    LinkWrite(m1, g, pools, p, k.nul, b, b + 24, Ptr(k.nul));
    LinkWrite(m2, g, pools, p, k.nul, h, h + 24, Ptr(b));
    KeepsLiveTransitive(m, m1, m2, g);
    KeepsLiveTransitive(m, m2, LinkIn(m, k, b, c), g);
  }

  lemma QuietBytes(m: Mem, m': Mem, g: Heap, st: Listed, x: int)
    requires Quiet(m, m', g, st, x)
    ensures KeepsBytes(m, m', Live(g) - {x})
  {
    forall c | c in Live(g) - {x} ensures Same(m, m', c, (Live(g) - {x})[c]) { assert SamePayload(m, m', g, c); }
  }

  lemma QuietLists(m: Mem, m': Mem, g: Heap, k: Control, st: Listed, x: int)
    requires Quiet(m, m', g, st, x) && Lists(m, k, st) && x !in st
    ensures Lists(m', k, st)
  {
    forall b | b in st ensures m'(b + 16) == m(b + 16) && m'(b + 24) == m(b + 24) { assert SameLinks(m, m', b); }
    ListsFrame(m, m', k, st);
  }

  lemma FiledFrame(g: Heap, h: Heap, st: Listed, clock: nat)
    requires Filed(g, st, clock)
    requires forall x :: x in st ==> x in h && x in g && h[x].size == g[x].size && h[x].free
    ensures Filed(h, st, clock)
  {
    forall x | x in st ensures FiledAt(h, st, clock, x) { assert FiledAt(g, st, clock, x); }
  }

  lemma MarkFreeState(m: Mem, k: Control, g: Heap, pools: seq<Pool>, st: Listed, clock: nat, b: int)
    requires Chain(g, pools) && NullApart(g, k.nul) && Headers(m, g, PrevFreeSet(g)) && Linked(m, g)
    requires Lists(m, k, st) && Filed(g, st, clock) && b in g && g[b].size != 0 && b !in st
    ensures var h, m' := SetFree(g, b, true), MarkFree(m, b);
            && Chain(h, pools) && NullApart(h, k.nul) && Headers(m', h, PrevFreeSet(h)) && Linked(m', h)
            && Lists(m', k, st) && Filed(h, st, clock)
            && KeepsBytes(m, m', Live(g) - {b})
  {
    var h, m' := SetFree(g, b, true), MarkFree(m, b);
    FiledListed(g, st, clock);
    MarkFreeWrites(m, g, pools, PrevFreeSet(g), b);
    MarkFreeOk(m, g, pools, b);
    MarkedFreeQuiet(m, m', g, pools, PrevFreeSet(g), st, b);
    QuietBytes(m, m', g, st, b);
    QuietLists(m, m', g, k, st, b);
    SetFreeChain(g, pools, b, true);
    FiledFrame(g, h, st, clock);
  }

  lemma MarkUsedState(m: Mem, k: Control, g: Heap, pools: seq<Pool>, p: set<int>, st: Listed, clock: nat, b: int)
    requires Chain(g, pools) && NullApart(g, k.nul) && Headers(m, g, p) && Linked(m, g)
    requires Lists(m, k, st) && Filed(g, st, clock) && b in g && g[b].size != 0 && b !in st
    requires p - {Next(g, b)} == PrevFreeSet(SetFree(g, b, false))
    ensures var h, m' := SetFree(g, b, false), MarkUsed(m, b);
            && Chain(h, pools) && NullApart(h, k.nul) && Headers(m', h, PrevFreeSet(h)) && Linked(m', h)
            && Lists(m', k, st) && Filed(h, st, clock)
            && KeepsBytes(m, m', Live(g))
  {
    var h, m' := SetFree(g, b, false), MarkUsed(m, b);
    FiledListed(g, st, clock);
    MarkUsedWrites(m, g, pools, p, b);
    MarkUsedOk(m, g, pools, p, b);
    MarkedUsedQuiet(m, m', g, pools, p, st, b);
    QuietBytes(m, m', g, st, NONE);
    assert NONE !in g by { if NONE in g { NotNull(g, pools, NONE); } }
    assert Live(g) - {NONE} == Live(g);
    QuietLists(m, m', g, k, st, NONE);
    SetFreeChain(g, pools, b, false);
    FiledFrame(g, h, st, clock);
  }

  lemma RemoveState(m: Mem, k: Control, g: Heap, pools: seq<Pool>, st: Listed, clock: nat, b: int)
    requires Chain(g, pools) && NullApart(g, k.nul) && Headers(m, g, PrevFreeSet(g)) && Linked(m, g)
    requires Lists(m, k, st) && Filed(g, st, clock) && b in st
    ensures st[b].cls.InRange()
    ensures var m' := Unlink(m, b); Headers(m', g, PrevFreeSet(g)) && Linked(m', g) && KeepsLive(m, m', g)
    ensures Lists(Unlink(m, b), DropHead(k, b, NextFree(m, b), st[b].cls), st - {b})
    ensures Filed(g, st - {b}, clock)
  {
    FiledListed(g, st, clock);
    SpacedLists(g, pools, st, k.nul);
    RemoveLists(m, k, st, b);
    UnlinkKeeps(m, k, g, pools, PrevFreeSet(g), st, b);
    var st' := st - {b};
    forall x | x in st' ensures FiledAt(g, st', clock, x) { assert FiledAt(g, st, clock, x); }
  }

  lemma InsertState(m: Mem, k: Control, g: Heap, pools: seq<Pool>, st: Listed, clock: nat, b: int, c: Class)
    requires Chain(g, pools) && NullApart(g, k.nul) && Headers(m, g, PrevFreeSet(g)) && Linked(m, g)
    requires Lists(m, k, st) && Filed(g, st, clock) && IsFree(g, b) && b !in st && c == MappingInsert(g[b].size)
    ensures c.InRange()
    ensures var m' := LinkIn(m, k, b, c); Headers(m', g, PrevFreeSet(g)) && Linked(m', g) && KeepsLive(m, m', g)
    ensures Lists(LinkIn(m, k, b, c), PushHead(k, b, c), st[b := Entry(c, clock)])
    ensures Filed(g, st[b := Entry(c, clock)], clock + 1)
  {
    var e := Entry(c, clock);
    var st' := st[b := e];
    FiledListed(g, st, clock);
    assert BlockOk(g, pools, b);
    MappingInsertBounds(g[b].size);
    SpacedLists(g, pools, st', k.nul);
    forall x | x in st ensures st[x].stamp < clock { assert FiledAt(g, st, clock, x); }
    InsertLists(m, k, st, b, e);
    LinkInKeeps(m, k, g, pools, PrevFreeSet(g), st, b, c);
    forall x | x in st' ensures FiledAt(g, st', clock + 1, x) {
      assert x != b ==> FiledAt(g, st, clock, x);
    }
  }

  /** Everything the three ways of splitting have in common. */
  lemma SplitState(m: Mem, m': Mem, k: Control, g: Heap, pools: seq<Pool>, st: Listed, clock: nat, b: int, size: nat)
    requires Chain(g, pools) && NullApart(g, k.nul) && Headers(m, g, PrevFreeSet(g)) && Linked(m, g)
    requires Lists(m, k, st) && Filed(g, st, clock) && CanSplit(g, b, size) && b !in st
    requires Next(g, b) in g && SplitDone(m, m', g, PrevFreeSet(g), b, size)
    ensures var h := Split(g, b, size);
            && Chain(h, pools) && NullApart(h, k.nul) && Headers(m', h, PrevFreeSet(h)) && Linked(m', h)
            && Lists(m', k, st) && Filed(h, st, clock)
    ensures KeepsBytes(m, m', Live(g) - {b})
    ensures !g[b].free ==> Same(m, m', b, size)
  {
    FiledListed(g, st, clock);
    SplitOk(m, m', g, pools, b, size);
    SplitQuiet(m, m', g, pools, PrevFreeSet(g), st, b, size);
    QuietBytes(m, m', g, st, b);
    QuietLists(m, m', g, k, st, b);
    SplitChain(g, pools, b, size);
    SplitNullApart(g, b, size, k.nul);
    FiledFrame(g, Split(g, b, size), st, clock);
  }

  /** The same for a free block off its list: no live byte changes. */
  lemma SplitFreeState(m: Mem, m': Mem, k: Control, g: Heap, pools: seq<Pool>, st: Listed, clock: nat, b: int,
                       size: nat)
    requires Chain(g, pools) && NullApart(g, k.nul) && Headers(m, g, PrevFreeSet(g)) && Linked(m, g)
    requires Lists(m, k, st) && Filed(g, st, clock) && CanSplit(g, b, size) && b !in st && IsFree(g, b)
    requires Next(g, b) in g && SplitDone(m, m', g, PrevFreeSet(g), b, size)
    requires CoalescedBut(g, b) && !IsFree(g, Next(g, b))
    ensures var h := Split(g, b, size);
            && Chain(h, pools) && NullApart(h, k.nul) && Headers(m', h, PrevFreeSet(h)) && Linked(m', h)
            && Lists(m', k, st) && Filed(h, st, clock) && CoalescedBut(h, b) && KeepsBytes(m, m', Live(h))
  {
    SplitState(m, m', k, g, pools, st, clock, b, size);
    SplitSets(g, pools, b, size);
    SplitFreeCoalesced(g, pools, b, size);
    assert Live(g) - {b} == Live(g);
  }

  /** The whole state after a block takes in the free one behind it. */
  lemma AbsorbState(m: Mem, k: Control, g: Heap, pools: seq<Pool>, st: Listed, clock: nat, b: int)
    requires Chain(g, pools) && NullApart(g, k.nul) && Headers(m, g, PrevFreeSet(g)) && Linked(m, g)
    requires Lists(m, k, st) && Filed(g, st, clock) && b in g && g[b].size != 0 && b !in st
    requires Next(g, b) in g && IsFree(g, Next(g, b)) && Next(g, b) !in st
    ensures CanAbsorb(g, b)
    ensures var n := Next(g, b);
            var m', h := AbsorbMem(m, b, n), Absorb(g, b);
            && Chain(h, pools) && NullApart(h, k.nul) && Headers(m', h, PrevFreeSet(g) - {n}) && Linked(m', h)
            && Lists(m', k, st) && Filed(h, st, clock) && KeepsBytes(m, m', Live(g))
  {
    var n := Next(g, b);
    FiledListed(g, st, clock);
    assert BlockOk(g, pools, n);
    AbsorbWrites(m, g, pools, PrevFreeSet(g), b);
    AbsorbOk(m, g, pools, PrevFreeSet(g), b);
    AbsorbedQuiet(m, AbsorbMem(m, b, n), g, pools, PrevFreeSet(g), st, b);
    QuietBytes(m, AbsorbMem(m, b, n), g, st, n);
    assert Live(g) - {n} == Live(g);
    QuietLists(m, AbsorbMem(m, b, n), g, k, st, n);
    AbsorbChain(g, pools, b);
    AbsorbNullApart(g, b, k.nul);
    NextPrev(g, pools, n, n);
    FiledFrame(g, Absorb(g, b), st, clock);
  }

  lemma LeadingCoalesced(g: Heap, pools: seq<Pool>, b: int, size: nat)
    requires Chain(g, pools) && CanSplit(g, b, size) && Next(g, b) in g && b + OVERHEAD + size !in g
    requires CoalescedBut(Split(g, b, size), b) && !PrevIsFree(g, b)
    ensures CoalescedBut(Split(g, b, size), b + OVERHEAD + size)
  {
    var h, r := Split(g, b, size), b + OVERHEAD + size;
    SplitChain(g, pools, b, size);
    NextPrev(g, pools, b, b);
    if g[b].prev != NONE { PrevOk(g, pools, b); }
    forall c | PrevIsFree(h, c) && h[c].free ensures c == r || h[c].prev == r { NextPrev(h, pools, b, c); }
  }

  /** Why an allocation of n bytes fails: every free block is smaller than n plus
      one second-level step, and below 256 bytes smaller than n. */
  ghost predicate Exhausted(g: Heap, n: nat) {
    forall c {:trigger IsFree(g, c)} :: IsFree(g, c) ==>
      g[c].size < n + SearchStep(n) && (n < SMALL_BLOCK ==> g[c].size < n)
  }

  lemma MissExhausted(m: Mem, k: Control, g: Heap, st: Listed, clock: nat, n: nat)
    requires Lists(m, k, st) && Filed(g, st, clock) && st.Keys == FreeSet(g) && n % ALIGN_SIZE == 0
    requires EmptyBetween(k, MappingSearch(n), FL_COUNT * SL_COUNT)
    ensures Exhausted(g, n)
  {
    forall x | x in st ensures st[x].stamp < clock { assert FiledAt(g, st, clock, x); }
    forall c | IsFree(g, c) ensures g[c].size < n + SearchStep(n) && (n < SMALL_BLOCK ==> g[c].size < n) {
      assert c in FreeSet(g) && FiledAt(g, st, clock, c);
      ListHasHead(m, k, st, clock, c);
      MissBound(n, g[c].size);
    }
  }

  /** A search for the smallest block only fails if no block is free. */
  lemma NoneFree(g: Heap, pools: seq<Pool>)
    requires Chain(g, pools)
    ensures Exhausted(g, BLOCK_MIN) ==> FreeSet(g) == {}
  {
    if Exhausted(g, BLOCK_MIN) {
      forall c ensures !IsFree(g, c) { assert IsFree(g, c) ==> BlockOk(g, pools, c); }
      forall c ensures c !in FreeSet(g) { assert c in FreeSet(g) ==> IsFree(g, c); }
    }
  }

  /** A block ends inside the address space. */
  lemma BlockFits(g: Heap, pools: seq<Pool>, b: int)
    requires Chain(g, pools) && b in g && g[b].size != 0
    ensures b % ALIGN_SIZE == 0 && b + 24 + g[b].size <= WORD_SPAN
  {
    assert BlockOk(g, pools, b) && PoolOk(g, pools, g[b].pool);
  }

  /** A padded block has room for the gap, a header and the request. */
  lemma GapRoom(b: int, size: nat, adjust: nat, gap: nat, align: nat, padded: bool)
    requires b % ALIGN_SIZE == 0 && gap % ALIGN_SIZE == 0 && BLOCK_MIN <= adjust <= size
    requires gap == 0 || (padded && HEADER <= gap <= align + BLOCK_MIN && adjust + align + HEADER <= size)
    ensures (b + gap) % ALIGN_SIZE == 0 && adjust <= size - gap && (gap != 0 ==> gap + HEADER <= size)
  {
    assert b + gap == 8 * (b / 8 + gap / 8);
  }

  /** Pushing the one block of a new pool, before its sentinel is laid. */
  lemma PoolPushLists(m: Mem, k: Control, g: Heap, pools: seq<Pool>, st: Listed, clock: nat, start: int, size: nat,
                      c: Class)
    requires Chain(g, pools) && NullApart(g, k.nul) && Coalesced(g)
    requires Lists(m, k, st) && Filed(g, st, clock) && PoolFits(g, k.nul, start, size) && c.InRange()
    ensures Spaced(st[start := Entry(c, clock)], k.nul)
    ensures Lists(LinkIn(m, k, start, c), PushHead(k, start, c), st[start := Entry(c, clock)])
  {
    FiledListed(g, st, clock);
    WithPoolChain(g, pools, k.nul, start, size);
    WithPoolSets(g, pools, k.nul, start, size);
    SpacedLists(WithPool(g, pools, start, size), pools + [Pool(start, start + OVERHEAD + size)],
                st[start := Entry(c, clock)], k.nul);
    forall x | x in st ensures st[x].stamp < clock { assert FiledAt(g, st, clock, x); }
    InsertLists(m, k, st, start, Entry(c, clock));
  }

  lemma PoolPushHeaders(m: Mem, k: Control, g: Heap, pools: seq<Pool>, st: Listed, clock: nat, start: int, size: nat,
                        c: Class)
    requires Chain(g, pools) && NullApart(g, k.nul) && Headers(m, g, PrevFreeSet(g)) && Linked(m, g)
    requires Lists(m, k, st) && Filed(g, st, clock) && PoolFits(g, k.nul, start, size) && c.InRange()
    requires Spaced(st[start := Entry(c, clock)], k.nul)
    ensures var m' := LinkIn(m, k, start, c);
            && Headers(m', g, PrevFreeSet(g)) && Linked(m', g) && KeepsLive(m, m', g)
            && m'(start + 8) == m(start + 8)
  {
    FiledListed(g, st, clock);
    var h := k.Head(c);
    var m2 := Put(Put(m, start + 16, Ptr(h)), start + 24, Ptr(k.nul));
    VacantChange(m, m2, k, g, pools, PrevFreeSet(g), st, start + 8, start + 24 + size);
    assert HeadOk(m, k, st, c);
    LinkWrite(m2, g, pools, PrevFreeSet(g), k.nul, h, h + 24, Ptr(start));
    KeepsLiveTransitive(m, m2, LinkIn(m, k, start, c), g);
    assert h in st ==> start !in g && Clear(start, h);
    assert Clear(start, k.nul);
  }

  /** The writes that make the sentinel at `end`, behind the block at `start`. */
  ghost predicate SentinelLaid(m: Mem, m': Mem, start: int, end: int) {
    && m'(end) == Ptr(start) && m'(end + 8) == HeaderWord(0, false, true)
    && forall a :: a != end && a != end + 8 ==> m'(a) == m(a)
  }

  lemma SentinelState(m: Mem, m': Mem, k: Control, g: Heap, pools: seq<Pool>, st: Listed, clock: nat, start: int,
                      size: nat, c: Class)
    requires Chain(g, pools) && NullApart(g, k.nul) && Headers(m, g, PrevFreeSet(g)) && Linked(m, g) && Coalesced(g)
    requires Lists(m, k, st[start := Entry(c, clock)]) && Filed(g, st, clock) && PoolFits(g, k.nul, start, size)
    requires c == MappingInsert(size) && m(start + 8) == HeaderWord(size, true, false)
    requires SentinelLaid(m, m', start, start + OVERHEAD + size)
    ensures var h, st' := WithPool(g, pools, start, size), st[start := Entry(c, clock)];
            && Headers(m', h, PrevFreeSet(h)) && Linked(m', h)
            && Lists(m', k, st') && Filed(h, st', clock + 1)
    ensures KeepsBytes(m, m', Live(g))
  {
    var h, st', end := WithPool(g, pools, start, size), st[start := Entry(c, clock)], start + OVERHEAD + size;
    FiledListed(g, st, clock);
    WithPoolChain(g, pools, k.nul, start, size);
    forall x | x in st' ensures FiledAt(h, st', clock + 1, x) {
      if x != start { assert FiledAt(g, st, clock, x); }
    }
    forall x | x in st' ensures m'(x + 16) == m(x + 16) && m'(x + 24) == m(x + 24) {
      if x != start { assert BlockOk(g, pools, x); }
    }
    ListsFrame(m, m', k, st');
    VacantHeaders(m, m', g, pools, PrevFreeSet(g), start + 8, end + 16);
    LiveBytes(m, m', g);
    WithPoolHeaders(m', g, pools, k.nul, start, size);
  }

  /** The whole state after a pool is laid. */
  lemma LaidState(m: Mem, m': Mem, k: Control, g: Heap, pools: seq<Pool>, st: Listed, clock: nat, start: int, size: nat,
                  c: Class)
    requires Chain(g, pools) && NullApart(g, k.nul) && Headers(m, g, PrevFreeSet(g)) && Linked(m, g) && Coalesced(g)
    requires Lists(m, k, st[start := Entry(c, clock)]) && Filed(g, st, clock) && PoolFits(g, k.nul, start, size)
    requires c == MappingInsert(size) && m(start + 8) == HeaderWord(size, true, false) && st.Keys == FreeSet(g)
    requires SentinelLaid(m, m', start, start + OVERHEAD + size)
    ensures var h, st' := WithPool(g, pools, start, size), st[start := Entry(c, clock)];
            && Chain(h, pools + [Pool(start, start + OVERHEAD + size)]) && NullApart(h, k.nul)
            && Headers(m', h, PrevFreeSet(h)) && Linked(m', h) && Lists(m', k, st') && Filed(h, st', clock + 1)
            && Coalesced(h) && st'.Keys == FreeSet(h) && Live(h) == Live(g)
    ensures KeepsBytes(m, m', Live(g))
  {
    SentinelState(m, m', k, g, pools, st, clock, start, size, c);
    WithPoolChain(g, pools, k.nul, start, size);
    WithPoolSets(g, pools, k.nul, start, size);
  }

  lemma SplitKeepsBytes(m: Mem, m': Mem, live: map<int, nat>, b: int, size: nat)
    requires KeepsBytes(m, m', live - {b}) && Same(m, m', b, size)
    ensures KeepsBytes(m, m', live[b := size])
  {
    var live' := live[b := size];
    forall c | c in live' ensures Same(m, m', c, live'[c]) {
      if c != b { assert Same(m, m', c, (live - {b})[c]); }
    }
  }

  function Least(a: nat, b: nat, c: nat): nat {
    if a <= b && a <= c then a else if b <= c then b else c
  }

  /** A client may write its own payload as it likes: headers, links and lists
      are elsewhere. */
  lemma ClientWrites(m: Mem, m': Mem, k: Control, g: Heap, pools: seq<Pool>, st: Listed, clock: nat, b: int)
    requires Chain(g, pools) && NullApart(g, k.nul) && Headers(m, g, PrevFreeSet(g)) && Linked(m, g)
    requires Lists(m, k, st) && Filed(g, st, clock) && IsLive(g, b)
    requires forall a :: a < b + 16 || b + 16 + g[b].size <= a ==> m'(a) == m(a)
    ensures Headers(m', g, PrevFreeSet(g)) && Linked(m', g) && Lists(m', k, st)
    ensures KeepsBytes(m, m', Live(g) - {b})
  {
    FiledListed(g, st, clock);
    forall c | c in g ensures HeaderOk(m', g, PrevFreeSet(g), c) && LinkOk(m', g, c) {
      assert HeaderOk(m, g, PrevFreeSet(g), c) && LinkOk(m, g, c) && BlockOk(g, pools, c);
      assert Apart(g, b, c) && Apart(g, c, b);
      if g[c].prev != NONE { PrevOk(g, pools, c); assert Apart(g, b, g[c].prev) && Apart(g, g[c].prev, b); }
    }
    forall c | c in st && c != b ensures SameLinks(m, m', c) {
      assert Apart(g, b, c) && Apart(g, c, b) && BlockOk(g, pools, c);
    }
    forall c | IsLive(g, c) && c != b ensures SamePayload(m, m', g, c) { assert Apart(g, b, c) && Apart(g, c, b); }
    QuietBytes(m, m', g, st, b);
    QuietLists(m, m', g, k, st, b);
  }

  // ---- the class

  class Allocator {
    var mem: Mem
    var ctl: Control
    ghost var g: Heap
    ghost var pools: seq<Pool>
    ghost var st: Listed
    ghost var clock: nat

    /** Blocks, links and lists agree; `p` are the blocks flagged previous-free. */
    ghost predicate Base(p: set<int>)
      reads this
    {
      && Chain(g, pools) && NullApart(g, ctl.nul)
      && Headers(mem, g, p) && Linked(mem, g)
      && Lists(mem, ctl, st) && Filed(g, st, clock)
    }

    ghost predicate Core()
      reads this
    {
      Base(PrevFreeSet(g))
    }

    /** Between operations: every free block is listed, no two are neighbours. */
    ghost predicate Valid()
      reads this
    {
      Core() && Coalesced(g) && st.Keys == FreeSet(g)
    }

    /** `remove_free_block` */
    method RemoveFreeBlock(b: int, c: Class)
      requires ctl.Shaped() && c.InRange()
      modifies this`mem, this`ctl
      ensures mem == Unlink(old(mem), b) && ctl == DropHead(old(ctl), b, NextFree(old(mem), b), c)
    {
      var prev, next := PrevFree(mem, b), NextFree(mem, b);
      mem := Put(mem, next + 24, Ptr(prev));
      mem := Put(mem, prev + 16, Ptr(next));
      if ctl.Head(c) == b {
        ctl := ctl.WithHead(c, next);
        if next == ctl.nul {
          ctl := ctl.(slBitmap := ctl.slBitmap[c.fl := ClearBit(ctl.slBitmap[c.fl], c.sl)]);
          if ctl.slBitmap[c.fl] == 0 {
            ctl := ctl.(flBitmap := ClearBit(ctl.flBitmap, c.fl));
          }
        }
      }
    }

    /** `insert_free_block` */
    method InsertFreeBlock(b: int, c: Class)
      requires ctl.Shaped() && c.InRange()
      modifies this`mem, this`ctl
      ensures mem == LinkIn(old(mem), old(ctl), b, c) && ctl == PushHead(old(ctl), b, c)
    {
      var current := ctl.Head(c);
      mem := Put(mem, b + 16, Ptr(current));
      mem := Put(mem, b + 24, Ptr(ctl.nul));
      mem := Put(mem, current + 24, Ptr(b));
      ctl := ctl.WithHead(c, b);
      ctl := ctl.(flBitmap := SetBit(ctl.flBitmap, c.fl));
      ctl := ctl.(slBitmap := ctl.slBitmap[c.fl := SetBit(ctl.slBitmap[c.fl], c.sl)]);
    }

    /** `block_remove` */
    method BlockRemove(b: int)
      requires Core() && b in st
      modifies this`mem, this`ctl, this`st
      ensures Core() && st == old(st) - {b} && ctl.nul == old(ctl).nul
      ensures KeepsLive(old(mem), mem, g)
    {
      assert FiledAt(g, st, clock, b) && HeaderOk(mem, g, PrevFreeSet(g), b);
      RemoveState(mem, ctl, g, pools, st, clock, b);
      RemoveFreeBlock(b, MappingInsert(SizeOf(mem, b)));
      st := st - {b};
    }

    /** `block_insert` */
    method BlockInsert(b: int)
      requires Core() && IsFree(g, b) && b !in st
      modifies this`mem, this`ctl, this`st, this`clock
      ensures Core() && ctl.nul == old(ctl).nul
      ensures b in st && st.Keys == old(st).Keys + {b}
      ensures KeepsLive(old(mem), mem, g)
    {
      assert HeaderOk(mem, g, PrevFreeSet(g), b);
      var c := MappingInsert(SizeOf(mem, b));
      InsertState(mem, ctl, g, pools, st, clock, b, c);
      InsertFreeBlock(b, c);
      st := st[b := Entry(c, clock)];
      clock := clock + 1;
    }

    /** `block_mark_as_free`: a live block becomes free, not yet listed. */
    method BlockMarkAsFree(b: int)
      requires Valid() && IsLive(g, b)
      modifies this`mem, this`g
      ensures Core() && g == SetFree(old(g), b, true)
      ensures st.Keys == FreeSet(g) - {b} && CoalescedBut(g, b) && Live(g) == old(Live(g)) - {b}
      ensures KeepsBytes(old(mem), mem, Live(g))
    {
      MarkFreeState(mem, ctl, g, pools, st, clock, b);
      MarkSets(g, pools, b, true);
      MarkFreeCoalesced(g, pools, b);
      mem := MarkFree(mem, b);
      g := SetFree(g, b, true);
    }

    /** `block_mark_as_used`: an unlisted free block becomes live.  `p` may hold
        the flag of the block behind one just merged into b. */
    method BlockMarkAsUsed(b: int, ghost p: set<int>)
      requires Base(p) && b in g && g[b].size != 0 && st.Keys == FreeSet(g) - {b} && CoalescedBut(g, b)
      requires p - {Next(g, b)} == PrevFreeSet(SetFree(g, b, false))
      modifies this`mem, this`g
      ensures Valid() && g == SetFree(old(g), b, false) && Live(g) == old(Live(g))[b := g[b].size]
      ensures KeepsBytes(old(mem), mem, old(Live(g)))
    {
      MarkUsedState(mem, ctl, g, pools, p, st, clock, b);
      MarkSets(g, pools, b, false);
      MarkUsedCoalesced(g, b);
      mem := MarkUsed(mem, b);
      g := SetFree(g, b, false);
    }

    /** `block_absorb`, when the block after b is free and off the lists. */
    method BlockAbsorb(b: int)
      requires Core() && b in g && g[b].size != 0 && b !in st
      requires Next(g, b) in g && IsFree(g, Next(g, b)) && Next(g, b) !in st
      modifies this`mem, this`g
      ensures CanAbsorb(old(g), b) && g == Absorb(old(g), b)
      ensures Base(old(PrevFreeSet(g)) - {Next(old(g), b)})
      ensures KeepsBytes(old(mem), mem, old(Live(g)))
    {
      ghost var n := Next(g, b);
      assert NextOf(mem, b) == n by { assert HeaderOk(mem, g, PrevFreeSet(g), b); }
      AbsorbState(mem, ctl, g, pools, st, clock, b);
      mem := AbsorbMem(mem, b, NextOf(mem, b));
      Reshape(Absorb(g, b), PrevFreeSet(g) - {n});
    }

    /** The chain the memory now holds, p being the blocks whose flag says that the one
        before is free. */
    ghost method Reshape(h: Heap, p: set<int>)
      requires Chain(h, pools) && NullApart(h, ctl.nul) && Headers(mem, h, p) && Linked(mem, h)
      requires Lists(mem, ctl, st) && Filed(h, st, clock)
      modifies this`g
      ensures g == h && Base(p)
    {
      g := h;
    }

    /** `block_merge_prev` */
    method BlockMergePrev(b: int) returns (r: int)
      requires Core() && IsFree(g, b) && st.Keys == FreeSet(g) - {b} && CoalescedBut(g, b)
      modifies this`mem, this`ctl, this`g, this`st
      ensures Core() && IsFree(g, r) && g[r].size != 0 && st.Keys == FreeSet(g) - {r}
      ensures CoalescedBut(g, r) && !PrevIsFree(g, r)
      ensures Live(g) == old(Live(g)) && ctl.nul == old(ctl).nul
      ensures KeepsBytes(old(mem), mem, Live(g))
    {
      r := b;
      assert HeaderOk(mem, g, PrevFreeSet(g), b) && BlockOk(g, pools, b);
      if mem(b + 8).bit1 {
        assert LinkOk(mem, g, b);
        var prev := mem(b).Value();
        PrevOk(g, pools, b);
        assert prev != b;
        BlockRemove(prev);
        LiveBytes(old(mem), mem, g);
        AbsorbChain(g, pools, prev);
        AbsorbSets(g, pools, prev);
        AbsorbPrevCoalesced(g, pools, prev);
        label merge:
        BlockAbsorb(prev);
        KeepsBytesTransitive(old(mem), old@merge(mem), mem, Live(g));
        r := prev;
      }
    }

    /** `block_merge_next` */
    method BlockMergeNext(b: int)
      requires Core() && b in g && g[b].size != 0 && st.Keys == FreeSet(g) - {b}
      requires CoalescedBut(g, b) && (g[b].free ==> !PrevIsFree(g, b))
      modifies this`mem, this`ctl, this`g, this`st
      ensures Coalesced(g) && st.Keys == FreeSet(g) - {b} && ctl.nul == old(ctl).nul
      ensures Next(old(g), b) in old(g)
      ensures !IsFree(old(g), Next(old(g), b)) ==> Core() && g == old(g)
      ensures IsFree(old(g), Next(old(g), b)) ==>
                CanAbsorb(old(g), b) && g == Absorb(old(g), b) && Base(old(PrevFreeSet(g)) - {Next(old(g), b)})
      ensures old(g)[b].free ==> Core() && IsFree(g, b) && Live(g) == old(Live(g))
      ensures KeepsBytes(old(mem), mem, old(Live(g)))
    {
      assert BlockOk(g, pools, b) && HeaderOk(mem, g, PrevFreeSet(g), b);
      var next := NextOf(mem, b);
      assert HeaderOk(mem, g, PrevFreeSet(g), next) && BlockOk(g, pools, next);
      if mem(next + 8).bit0 {
        assert next != b;
        BlockRemove(next);
        LiveBytes(old(mem), mem, g);
        AbsorbChain(g, pools, b);
        AbsorbSets(g, pools, b);
        AbsorbNextCoalesced(g, pools, b);
        label merge:
        BlockAbsorb(b);
        KeepsBytesTransitive(old(mem), old@merge(mem), mem, old(Live(g)));
      } else {
        NoMergeCoalesced(g, pools, b);
      }
    }

    /** `tlsf_free` of a live pointer, or of NULL. */
    method Free(ptr: int)
      requires Valid() && (ptr != 0 ==> IsLive(g, ptr - 16))
      modifies this`mem, this`ctl, this`g, this`st, this`clock
      ensures Valid() && ctl.nul == old(ctl).nul
      ensures ptr == 0 ==> mem == old(mem) && g == old(g)
      ensures ptr != 0 ==> Live(g) == old(Live(g)) - {ptr - 16}
      ensures KeepsBytes(old(mem), mem, Live(g))
    {
      if ptr != 0 {
        var block := ptr - 16;
        assert HeaderOk(mem, g, PrevFreeSet(g), block);
        assert !mem(block + 8).bit0;
        BlockMarkAsFree(block);
        label marked:
        block := BlockMergePrev(block);
        KeepsBytesTransitive(old(mem), old@marked(mem), mem, Live(g));
        label merged:
        BlockMergeNext(block);
        KeepsBytesTransitive(old(mem), old@merged(mem), mem, Live(g));
        label joined:
        BlockInsert(block);
        LiveBytes(old@joined(mem), mem, g);
        KeepsBytesTransitive(old(mem), old@joined(mem), mem, Live(g));
      }
    }

    /** `search_suitable_block`: the head of the first non-empty list at or after
        class c. */
    method SearchSuitableBlock(c: Class) returns (b: int, d: Class)
      requires Core() && c.InRange()
      ensures b == 0 ==> EmptyBetween(ctl, c, FL_COUNT * SL_COUNT)
      ensures b != 0 ==> FirstAt(ctl, c, d) && b == ctl.Head(d) && b in st && st[b].cls == d
    {
      var found;
      found, d := FirstNonEmpty(ctl, c);
      b := 0;
      if found {
        b := ctl.Head(d);
        assert HeadOk(mem, ctl, st, d);
        assert FiledAt(g, st, clock, b);
        NotNull(g, pools, b);
      }
    }

    /** `block_locate_free`: takes a large enough block off its list. */
    method BlockLocateFree(size: nat) returns (b: int)
      requires Valid() && size % ALIGN_SIZE == 0
      modifies this`mem, this`ctl, this`st
      ensures b == 0 ==> Valid() && mem == old(mem) && ctl == old(ctl) && (size == 0 || Exhausted(g, size))
      ensures b != 0 ==> Core() && IsFree(g, b) && size <= g[b].size && st.Keys == FreeSet(g) - {b}
      ensures b != 0 ==> size != 0 && ctl.nul == old(ctl).nul && KeepsBytes(old(mem), mem, Live(g))
      ensures b != 0 ==> Offers(old(ctl), MappingSearch(size), b)
    {
      b := 0;
      if size != 0 {
        var c := MappingSearch(size);
        MappingSearchBounds(size);
        if c.fl < FL_COUNT {
          var d;
          b, d := SearchSuitableBlock(c);
          if b != 0 {
            assert FiledAt(g, st, clock, b);
            GoodFit(size, g[b].size);
            RemoveState(mem, ctl, g, pools, st, clock, b);
            RemoveFreeBlock(b, d);
            st := st - {b};
            LiveBytes(old(mem), mem, g);
          }
        }
        if b == 0 { MissExhausted(mem, ctl, g, st, clock, size); }
      }
    }

    /** `block_split` of a free block, with the two header writes that follow it
        in `block_trim_free`, or in the order of `block_trim_free_leading`. */
    method SplitFreeBlock(b: int, size: nat, leading: bool)
      requires Core() && IsFree(g, b) && st.Keys == FreeSet(g) - {b} && CanSplit(g, b, size)
      requires CoalescedBut(g, b) && Next(g, b) in g && !IsFree(g, Next(g, b))
      modifies this`mem, this`g
      ensures Next(old(g), b) in old(g) && g == Split(old(g), b, size)
      ensures Core() && CoalescedBut(g, b) && KeepsBytes(old(mem), mem, Live(g))
    {
      TrimWrites(mem, g, pools, PrevFreeSet(g), b, size);
      var m': Mem := if leading then TrimLeadingMem(mem, b, size) else TrimFreeMem(mem, b, size);
      SplitFreeState(mem, m', ctl, g, pools, st, clock, b, size);
      mem := m';
      g := Split(g, b, size);
    }

    /** The size of a block after trimming it to `size`: the size itself, as far as
        what is left over makes no block, or what it had if that was less. */
    static predicate Trimmed(was: nat, size: nat, now: nat) {
      if size <= was then size <= now < size + HEADER && now <= was else now == was
    }

    /** `block_trim_free`: returns what a free block has beyond `size` to the lists. */
    method BlockTrimFree(b: int, size: nat)
      requires Core() && IsFree(g, b) && st.Keys == FreeSet(g) - {b}
      requires CoalescedBut(g, b) && Next(g, b) in g && !IsFree(g, Next(g, b))
      requires size % ALIGN_SIZE == 0 && BLOCK_MIN <= size
      modifies this`mem, this`ctl, this`g, this`st, this`clock
      ensures Core() && IsFree(g, b) && st.Keys == FreeSet(g) - {b} && CoalescedBut(g, b)
      ensures Trimmed(old(g)[b].size, size, g[b].size) && Live(g) == old(Live(g)) && ctl.nul == old(ctl).nul
      ensures KeepsBytes(old(mem), mem, Live(g))
    {
      assert HeaderOk(mem, g, PrevFreeSet(g), b);
      if SizeOf(mem, b) >= HEADER + size {
        SplitSets(g, pools, b, size);
        SplitFreeBlock(b, size, false);
        label split:
        BlockInsert(b + OVERHEAD + size);
        LiveBytes(old@split(mem), mem, g);
        KeepsBytesTransitive(old(mem), old@split(mem), mem, Live(g));
      }
    }

    /** `block_trim_free_leading`: gives the first `size - 8` bytes of a free block
        back to the lists and returns the rest, unlisted; a block too small for that
        is returned as it is. */
    method BlockTrimFreeLeading(b: int, size: nat) returns (r: int)
      requires Core() && IsFree(g, b) && Coalesced(g) && st.Keys == FreeSet(g) - {b}
      requires size % ALIGN_SIZE == 0 && HEADER <= size
      modifies this`mem, this`ctl, this`g, this`st, this`clock
      ensures Core() && IsFree(g, r) && st.Keys == FreeSet(g) - {r}
      ensures CoalescedBut(g, r) && Next(g, r) in g && !IsFree(g, Next(g, r))
      ensures Live(g) == old(Live(g)) && ctl.nul == old(ctl).nul && KeepsBytes(old(mem), mem, Live(g))
      ensures size + HEADER <= old(g)[b].size ==> r == b + size && g[r].size == old(g)[b].size - size
      ensures size + HEADER > old(g)[b].size ==> r == b && mem == old(mem) && ctl == old(ctl) && g == old(g)
    {
      assert HeaderOk(mem, g, PrevFreeSet(g), b);
      FreeAlone(g, pools, b);
      r := b;
      if SizeOf(mem, b) >= HEADER + size {
        r := CutLeading(b, size);
      }
    }

    method CutLeading(b: int, size: nat) returns (r: int)
      requires Core() && IsFree(g, b) && Coalesced(g) && st.Keys == FreeSet(g) - {b}
      requires size % ALIGN_SIZE == 0 && HEADER <= size && size + HEADER <= g[b].size
      modifies this`mem, this`ctl, this`g, this`st, this`clock
      ensures Core() && r == b + size && IsFree(g, r) && st.Keys == FreeSet(g) - {r}
      ensures CoalescedBut(g, r) && Next(g, r) in g && !IsFree(g, Next(g, r))
      ensures g[r].size == old(g)[b].size - size && Live(g) == old(Live(g)) && ctl.nul == old(ctl).nul
      ensures KeepsBytes(old(mem), mem, Live(g))
    {
      FreeAlone(g, pools, b);
      SplitSets(g, pools, b, size - OVERHEAD);
      r := b + size;
      SplitFreeBlock(b, size - OVERHEAD, true);
      LeadingCoalesced(old(g), pools, b, size - OVERHEAD);
      label split:
      BlockInsert(b);
      LiveBytes(old@split(mem), mem, g);
      KeepsBytesTransitive(old(mem), old@split(mem), mem, Live(g));
    }

    /** `block_prepare_used` */
    method BlockPrepareUsed(b: int, size: nat) returns (p: int)
      requires b == 0 ==> Valid()
      requires b != 0 ==> Core() && IsFree(g, b) && st.Keys == FreeSet(g) - {b}
      requires b != 0 ==> CoalescedBut(g, b) && Next(g, b) in g && !IsFree(g, Next(g, b))
      requires b != 0 ==> size % ALIGN_SIZE == 0 && BLOCK_MIN <= size
      modifies this`mem, this`ctl, this`g, this`st, this`clock
      ensures Valid() && ctl.nul == old(ctl).nul
      ensures b == 0 ==> p == 0 && mem == old(mem) && ctl == old(ctl) && g == old(g)
      ensures b != 0 ==> p == b + 16 && p % ALIGN_SIZE == 0 && b in g && Trimmed(old(g)[b].size, size, g[b].size)
      ensures b != 0 ==> Live(g) == old(Live(g))[b := g[b].size]
      ensures KeepsBytes(old(mem), mem, old(Live(g)))
    {
      p := 0;
      if b != 0 {
        assert BlockOk(g, pools, b);
        BlockTrimFree(b, size);
        assert BlockOk(g, pools, b);
        MarkSets(g, pools, b, false);
        label trimmed:
        BlockMarkAsUsed(b, PrevFreeSet(g));
        KeepsBytesTransitive(old(mem), old@trimmed(mem), mem, old(Live(g)));
        p := b + 16;
      }
    }

    /** What an allocation of n bytes yields: NULL with nothing changed and no free
        block that was sure to satisfy the search, or one more live block of n to
        n + 31 bytes at an 8-aligned address; no other payload is touched. */
    twostate predicate Allocated(n: nat, searched: nat, p: int)
      reads this
    {
      && (p == 0 ==> mem == old(mem) && ctl == old(ctl) && g == old(g) && (searched == 0 || Exhausted(g, searched)))
      && (p != 0 ==> n != 0 && p % ALIGN_SIZE == 0 && p - 16 !in old(Live(g)) && p - 16 in Live(g))
      && (p != 0 ==> n <= Live(g)[p - 16] < n + HEADER && Live(g) == old(Live(g))[p - 16 := Live(g)[p - 16]])
      && KeepsBytes(old(mem), mem, old(Live(g)))
    }

    /** `tlsf_malloc` once the request is adjusted. */
    method MallocAdjusted(adjust: nat) returns (p: int)
      requires Valid() && (adjust == 0 || (adjust % ALIGN_SIZE == 0 && BLOCK_MIN <= adjust < BLOCK_MAX))
      modifies this`mem, this`ctl, this`g, this`st, this`clock
      ensures Valid() && ctl.nul == old(ctl).nul
      ensures Allocated(adjust, adjust, p)
    {
      var block := BlockLocateFree(adjust);
      if block != 0 {
        FreeAlone(g, pools, block);
        NotNull(g, pools, block);
      }
      label located:
      p := BlockPrepareUsed(block, adjust);
      if block != 0 { KeepsBytesTransitive(old(mem), old@located(mem), mem, old(Live(g))); }
    }

    /** `tlsf_malloc` */
    method Malloc(size: nat) returns (p: int)
      requires Valid() && size < WORD_SPAN
      modifies this`mem, this`ctl, this`g, this`st, this`clock
      ensures Valid() && ctl.nul == old(ctl).nul
      ensures Allocated(Request(size), Request(size), p)
    {
      RequestCovers(size);
      p := MallocAdjusted(Request(size));
    }

    /** The middle of `tlsf_memalign`: returns the leading gap of a located block to
        the lists, so that the payload starts on a boundary. */
    method TrimToBoundary(b: int, ghost adjust: nat, e: nat) returns (r: int)
      requires Core() && IsFree(g, b) && Coalesced(g) && st.Keys == FreeSet(g) - {b}
      requires BLOCK_MIN <= adjust <= g[b].size && e <= 62
      requires e > 3 ==> adjust + Pow2(e) + HEADER <= g[b].size
      modifies this`mem, this`ctl, this`g, this`st, this`clock
      ensures Core() && IsFree(g, r) && st.Keys == FreeSet(g) - {r}
      ensures CoalescedBut(g, r) && Next(g, r) in g && !IsFree(g, Next(g, r))
      ensures r >= BLOCK_MIN && r % ALIGN_SIZE == 0 && adjust <= g[r].size && Multiple(r + 16, e)
      ensures Live(g) == old(Live(g)) && ctl.nul == old(ctl).nul && KeepsBytes(old(mem), mem, Live(g))
    {
      r := b;
      FreeAlone(g, pools, b);
      NotNull(g, pools, b);
      BlockFits(g, pools, b);
      var ptr := b + 16;
      var aligned := PickBoundary(ptr, e);
      GapRoom(b, g[b].size, adjust, aligned - ptr, Pow2(e), e > 3);
      if aligned != ptr {
        r := BlockTrimFreeLeading(b, aligned - ptr);
      }
    }

    /** The first half of `tlsf_memalign`: a located block whose payload starts on a
        boundary; `searched` is the padded size it looks for. */
    method LocateAligned(e: nat, adjust: nat) returns (block: int, ghost searched: nat)
      requires Valid() && e <= 62
      requires adjust == 0 || (adjust % ALIGN_SIZE == 0 && BLOCK_MIN <= adjust < BLOCK_MAX)
      modifies this`mem, this`ctl, this`g, this`st, this`clock
      ensures block == 0 ==> Valid() && mem == old(mem) && ctl == old(ctl) && g == old(g)
      ensures block == 0 ==> searched == 0 || Exhausted(g, searched)
      ensures block != 0 ==> Core() && IsFree(g, block) && st.Keys == FreeSet(g) - {block}
      ensures block != 0 ==> CoalescedBut(g, block) && Next(g, block) in g && !IsFree(g, Next(g, block))
      ensures block != 0 ==> block >= BLOCK_MIN && Multiple(block + 16, e)
      ensures block != 0 ==> adjust != 0 && adjust <= g[block].size && Live(g) == old(Live(g))
      ensures KeepsBytes(old(mem), mem, Live(g)) && ctl.nul == old(ctl).nul
      ensures Padded(adjust, e, searched)
    {
      var alignedSize := AlignedSize(adjust, e);
      searched := alignedSize;
      block := BlockLocateFree(alignedSize);
      label located:
      if block != 0 {
        block := TrimToBoundary(block, adjust, e);
        KeepsBytesTransitive(old(mem), old@located(mem), mem, Live(g));
      }
    }

    method MemalignAdjusted(e: nat, adjust: nat) returns (p: int, ghost searched: nat)
      requires Valid() && e <= 62
      requires adjust == 0 || (adjust % ALIGN_SIZE == 0 && BLOCK_MIN <= adjust < BLOCK_MAX)
      modifies this`mem, this`ctl, this`g, this`st, this`clock
      ensures Valid() && ctl.nul == old(ctl).nul
      ensures Allocated(adjust, searched, p)
      ensures p != 0 ==> p > 0 && Multiple(p, e)
      ensures Padded(adjust, e, searched)
    {
      var block;
      block, searched := LocateAligned(e, adjust);
      label located:
      p := BlockPrepareUsed(block, adjust);
      if block != 0 { KeepsBytesTransitive(old(mem), old@located(mem), mem, old(Live(g))); }
    }

    /** What an allocation of n bytes at alignment 2^63 yields: the free block x that a
        search for the smallest size offers, cut at 2^63 if it can be.  It is aligned
        and large enough exactly if x was such that TopServes. */
    twostate predicate AnyBlock(n: nat, x: int, p: int)
      reads this
    {
      && (p == 0 <==> n == 0 || old(FreeSet(g)) == {})
      && (p == 0 ==> mem == old(mem) && ctl == old(ctl) && g == old(g))
      && (p != 0 ==> p % ALIGN_SIZE == 0 && p - 16 !in old(Live(g)) && p - 16 in Live(g))
      && (p != 0 ==> Live(g) == old(Live(g))[p - 16 := Live(g)[p - 16]] && BLOCK_MIN <= Live(g)[p - 16])
      && (p != 0 ==> x in old(FreeSet(g)) && Offers(old(ctl), MappingSearch(BLOCK_MIN), x))
      && (p != 0 ==> CutFrom(x, old(g)[x].size, n, p, Live(g)[p - 16]))
      && KeepsBytes(old(mem), mem, old(Live(g)))
    }

    /** Where the payload is, how large it is, and when that is what was asked for. */
    static predicate CutFrom(x: int, size: nat, n: nat, p: int, now: nat) {
      && p == TopPayload(x, size) && 0 <= p - 16 - x <= size && Trimmed(size - (p - 16 - x), n, now)
      && (p % TOP == 0 && n <= now <==> TopServes(x, size, n))
    }

    static lemma CutOutcome(x: int, size: nat, n: nat, p: int, now: nat)
      requires p == TopPayload(x, size) && 0 <= p - 16 - x <= size && Trimmed(size - (p - 16 - x), n, now)
      requires 0 < p < WORD_SPAN
      ensures CutFrom(x, size, n, p, now)
    {
      TopMultiple(p);
    }

    /** `tlsf_memalign` at the alignment 2^63, where the padded size wraps. */
    method MemalignTop(adjust: nat) returns (p: int, ghost x: int)
      requires Valid() && (adjust == 0 || (adjust % ALIGN_SIZE == 0 && BLOCK_MIN <= adjust < BLOCK_MAX))
      modifies this`mem, this`ctl, this`g, this`st, this`clock
      ensures Valid() && ctl.nul == old(ctl).nul && AnyBlock(adjust, x, p)
    {
      var block;
      block, x := LocateTop(adjust);
      label trimmed:
      p := BlockPrepareUsed(block, adjust);
      if block != 0 {
        KeepsBytesTransitive(old(mem), old@trimmed(mem), mem, old(Live(g)));
        CutOutcome(x, old(g)[x].size, adjust, p, Live(g)[p - 16]);
      }
    }

    method LocateTop(adjust: nat) returns (block: int, ghost x: int)
      requires Valid() && (adjust == 0 || (adjust % ALIGN_SIZE == 0 && BLOCK_MIN <= adjust < BLOCK_MAX))
      modifies this`mem, this`ctl, this`g, this`st, this`clock
      ensures block == 0 ==> Valid() && mem == old(mem) && ctl == old(ctl) && g == old(g)
      ensures block == 0 <==> adjust == 0 || old(FreeSet(g)) == {}
      ensures block != 0 ==> Core() && IsFree(g, block) && st.Keys == FreeSet(g) - {block}
      ensures block != 0 ==> CoalescedBut(g, block) && Next(g, block) in g && !IsFree(g, Next(g, block))
      ensures block != 0 ==> BLOCK_MIN <= block && block + 16 < WORD_SPAN && block % ALIGN_SIZE == 0
      ensures block != 0 ==> x in old(FreeSet(g)) && Offers(old(ctl), MappingSearch(BLOCK_MIN), x)
      ensures block != 0 ==> block == TopPayload(x, old(g)[x].size) - 16 && x <= block
      ensures block != 0 ==> BLOCK_MIN <= g[block].size == old(g)[x].size - (block - x)
      ensures Live(g) == old(Live(g)) && ctl.nul == old(ctl).nul && KeepsBytes(old(mem), mem, Live(g))
    {
      var alignedSize := if adjust != 0 then AdjustRequest(adjust + TOP + HEADER, 63) else adjust;
      if adjust != 0 { PaddedRequestWraps(adjust); }
      block := BlockLocateFree(alignedSize);
      x := block;
      label located:
      if block != 0 {
        assert x in FreeSet(g);
        block := TrimTop(block);
        KeepsBytesTransitive(old(mem), old@located(mem), mem, Live(g));
      } else {
        NoneFree(g, pools);
      }
    }

    /** The leading trim at that alignment, which mostly finds no room. */
    method TrimTop(b: int) returns (r: int)
      requires Core() && IsFree(g, b) && Coalesced(g) && st.Keys == FreeSet(g) - {b}
      modifies this`mem, this`ctl, this`g, this`st, this`clock
      ensures Core() && IsFree(g, r) && st.Keys == FreeSet(g) - {r}
      ensures CoalescedBut(g, r) && Next(g, r) in g && !IsFree(g, Next(g, r))
      ensures BLOCK_MIN <= r && r + 16 < WORD_SPAN && r % ALIGN_SIZE == 0
      ensures r == TopPayload(b, old(g)[b].size) - 16 && b <= r && BLOCK_MIN <= g[r].size == old(g)[b].size - (r - b)
      ensures Live(g) == old(Live(g)) && ctl.nul == old(ctl).nul && KeepsBytes(old(mem), mem, Live(g))
    {
      r := b;
      assert BlockOk(g, pools, b);
      FreeAlone(g, pools, b);
      NotNull(g, pools, b);
      BlockFits(g, pools, b);
      var gap := TopGap(b + 16);
      if gap != 0 {
        r := BlockTrimFreeLeading(b, gap);
        assert BlockOk(g, pools, r);
        BlockFits(g, pools, r);
      }
    }

    /** `tlsf_memalign` at the alignment 0, which the power-of-two test lets through:
        every pointer is rounded to 0, the gap is the rest of the address space, and no
        block can be split there. */
    method MemalignZero(adjust: nat) returns (p: int)
      requires Valid() && (adjust == 0 || (adjust % ALIGN_SIZE == 0 && BLOCK_MIN <= adjust < BLOCK_MAX))
      modifies this`mem, this`ctl, this`g, this`st, this`clock
      ensures Valid() && ctl.nul == old(ctl).nul && Allocated(adjust, adjust, p)
    {
      var block := BlockLocateFree(adjust);
      if block != 0 {
        block := TrimZero(block);
      }
      label located:
      p := BlockPrepareUsed(block, adjust);
      if block != 0 { KeepsBytesTransitive(old(mem), old@located(mem), mem, old(Live(g))); }
    }

    /** The leading trim at that alignment, which finds no room. */
    method TrimZero(b: int) returns (r: int)
      requires Core() && IsFree(g, b) && Coalesced(g) && st.Keys == FreeSet(g) - {b}
      modifies this`mem, this`ctl, this`g, this`st, this`clock
      ensures Core() && r == b >= BLOCK_MIN && IsFree(g, r) && mem == old(mem) && ctl == old(ctl) && g == old(g)
      ensures st.Keys == FreeSet(g) - {r} && CoalescedBut(g, r) && Next(g, r) in g && !IsFree(g, Next(g, r))
    {
      assert BlockOk(g, pools, b);
      NotNull(g, pools, b);
      BlockFits(g, pools, b);
      var gap := Minus(AlignZero(b + 16), b + 16);
      assert gap == WORD_SPAN - (b + 16);
      EighthsApart(b + 16, WORD_SPAN);
      r := BlockTrimFreeLeading(b, gap);
    }

    /** `tlsf_memalign` to 2^e. */
    method MemalignPower(e: nat, size: nat) returns (p: int, ghost searched: nat, ghost x: int)
      requires Valid() && size < WORD_SPAN && e <= 63
      modifies this`mem, this`ctl, this`g, this`st, this`clock
      ensures Valid() && ctl.nul == old(ctl).nul
      ensures e <= 62 ==> Allocated(Request(size), searched, p) && Padded(Request(size), e, searched)
      ensures e <= 62 && p != 0 ==> p > 0 && p % Pow2(e) == 0
      ensures e == 63 ==> AnyBlock(Request(size), x, p)
    {
      RequestCovers(size);
      searched, x := 0, 0;
      if e <= 62 {
        p, searched := MemalignAdjusted(e, Request(size));
        if p != 0 { MultipleMod(p, e); }
      } else {
        p, x := MemalignTop(Request(size));
      }
    }

    /** `tlsf_memalign`, for every alignment its assertion lets through: the powers of
        two, and 0, which asks for nothing more than `tlsf_malloc` does. */
    method Memalign(align: nat, size: nat) returns (p: int, ghost searched: nat, ghost x: int)
      requires Valid() && size < WORD_SPAN && align < WORD_SPAN && Alignment(align)
      modifies this`mem, this`ctl, this`g, this`st, this`clock
      ensures Valid() && ctl.nul == old(ctl).nul
      ensures align != TOP ==> Allocated(Request(size), searched, p)
      ensures align == 0 ==> searched == Request(size)
      ensures align != 0 && align != TOP ==> Padded(Request(size), Fls(align), searched)
      ensures align != 0 && align != TOP && p != 0 ==> p > 0 && p % align == 0
      ensures align == TOP ==> AnyBlock(Request(size), x, p)
    {
      if align == 0 {
        RequestCovers(size);
        p := MemalignZero(Request(size));
        searched, x := Request(size), 0;
      } else {
        AlignmentPower(align);
        p, searched, x := MemalignPower(Fls(align), size);
      }
    }

    /** `block_split` of a live block and the `block_set_prev_used` behind it. */
    method SplitUsedBlock(b: int, size: nat)
      requires Valid() && IsLive(g, b) && CanSplit(g, b, size)
      modifies this`mem, this`g
      ensures Next(old(g), b) in old(g) && g == Split(old(g), b, size)
      ensures Core() && KeepsBytes(old(mem), mem, Live(g))
    {
      TrimWrites(mem, g, pools, PrevFreeSet(g), b, size);
      SplitState(mem, TrimUsedMem(mem, b, size), ctl, g, pools, st, clock, b, size);
      SplitSets(g, pools, b, size);
      SplitKeepsBytes(mem, TrimUsedMem(mem, b, size), Live(g), b, size);
      mem := TrimUsedMem(mem, b, size);
      g := Split(g, b, size);
    }

    /** `block_trim_used`: gives back what a live block has beyond `size`. */
    method BlockTrimUsed(b: int, size: nat)
      requires Valid() && IsLive(g, b) && size % ALIGN_SIZE == 0 && BLOCK_MIN <= size <= g[b].size
      modifies this`mem, this`ctl, this`g, this`st, this`clock
      ensures Valid() && ctl.nul == old(ctl).nul && b in Live(g) && size <= Live(g)[b] < size + HEADER
      ensures Live(g)[b] <= old(Live(g))[b] && Live(g) == old(Live(g))[b := Live(g)[b]]
      ensures KeepsBytes(old(mem), mem, Live(g))
    {
      assert HeaderOk(mem, g, PrevFreeSet(g), b);
      if SizeOf(mem, b) >= HEADER + size {
        var r := b + OVERHEAD + size;
        SplitSets(g, pools, b, size);
        SplitUsedCoalesced(g, pools, b, size);
        SplitUsedBlock(b, size);
        label split:
        BlockMergeNext(r);
        KeepsBytesTransitive(old(mem), old@split(mem), mem, Live(g));
        label merged:
        BlockInsert(r);
        LiveBytes(old@merged(mem), mem, g);
        KeepsBytesTransitive(old(mem), old@merged(mem), mem, Live(g));
      }
    }

    /** The in-place growth of `tlsf_realloc`: a live block takes in the free block
        behind it. */
    method GrowInPlace(b: int)
      requires Valid() && IsLive(g, b) && Next(g, b) in g && IsFree(g, Next(g, b))
      modifies this`mem, this`ctl, this`g, this`st
      ensures Valid() && ctl.nul == old(ctl).nul && b in Live(g)
      ensures Live(g) == old(Live(g))[b := old(g[b].size + g[Next(g, b)].size) + OVERHEAD]
      ensures KeepsBytes(old(mem), mem, old(Live(g)))
    {
      ghost var p, n := PrevFreeSet(g), Next(g, b);
      assert BlockOk(g, pools, n);
      AbsorbChain(g, pools, b);
      AbsorbSets(g, pools, b);
      BlockMergeNext(b);
      assert SetFree(g, b, false) == g;
      label merged:
      BlockMarkAsUsed(b, p - {n});
      KeepsBytesFewer(old@merged(mem), mem, old@merged(Live(g)), old(Live(g)));
      KeepsBytesTransitive(old(mem), old@merged(mem), mem, old(Live(g)));
    }

    /** What `tlsf_realloc` promises for a live block b and a request of `size`
        bytes, adjusted to n: NULL with nothing changed, or a live block of n to
        n + 31 bytes, at b or at a new place, that starts with the old contents as
        far as both reach; no other payload is touched. */
    twostate predicate Reallocated(b: int, size: nat, n: nat, p: int)
      requires b in old(Live(g))
      reads this
    {
      && (p == 0 ==> mem == old(mem) && ctl == old(ctl) && g == old(g) && Exhausted(g, n))
      && (p != 0 ==>
            && p - 16 in Live(g) && n <= Live(g)[p - 16] < n + HEADER && (p - 16 == b || p - 16 !in old(Live(g)))
            && Live(g) == (old(Live(g)) - {b})[p - 16 := Live(g)[p - 16]]
            && Copied(old(mem), mem, b + 16, p, Least(old(Live(g))[b], size, Live(g)[p - 16])))
      && KeepsBytes(old(mem), mem, old(Live(g)) - {b})
    }

    /** `tlsf_realloc` when it can stay in place. */
    method ReallocInPlace(b: int, size: nat, adjust: nat)
      requires Valid() && IsLive(g, b) && adjust % ALIGN_SIZE == 0 && BLOCK_MIN <= adjust
      requires adjust <= g[b].size || (Next(g, b) in g && IsFree(g, Next(g, b))
                                       && adjust <= g[b].size + g[Next(g, b)].size + OVERHEAD)
      modifies this`mem, this`ctl, this`g, this`st, this`clock
      ensures Valid() && ctl.nul == old(ctl).nul
      ensures Reallocated(b, size, adjust, b + 16)
    {
      assert BlockOk(g, pools, b) && HeaderOk(mem, g, PrevFreeSet(g), b);
      NotNull(g, pools, b);
      ghost var cur := g[b].size;
      if adjust > SizeOf(mem, b) {
        GrowInPlace(b);
      }
      ghost var m1 := mem;
      BlockTrimUsed(b, adjust);
      InPlaceComposes(old(mem), m1, mem, old(Live(g)), Live(g), b, Least(cur, size, Live(g)[b]));
    }

    /** `memcpy` from one live block to the start of another. */
    method CopyPayload(b: int, c: int, n: nat)
      requires Valid() && IsLive(g, b) && IsLive(g, c) && b != c && n <= g[b].size && n <= g[c].size
      modifies this`mem
      ensures Valid() && Copied(old(mem), mem, b + 16, c + 16, n)
      ensures KeepsBytes(old(mem), mem, Live(g) - {c})
    {
      assert BlockOk(g, pools, c) && Apart(g, b, c) && Apart(g, c, b);
      var m' := Memcpy(mem, c + 16, b + 16, n);
      ClientWrites(mem, m', ctl, g, pools, st, clock, c);
      mem := m';
    }

    /** Copy to a new block, then free the old one. */
    method MoveInto(b: int, c: int, n: nat)
      requires Valid() && IsLive(g, b) && IsLive(g, c) && b != c && n <= g[b].size && n <= g[c].size
      modifies this`mem, this`ctl, this`g, this`st, this`clock
      ensures Valid() && ctl.nul == old(ctl).nul && Live(g) == old(Live(g)) - {b}
      ensures Copied(old(mem), mem, b + 16, c + 16, n)
      ensures KeepsBytes(old(mem), mem, old(Live(g)) - {b} - {c})
    {
      NotNull(g, pools, b);
      assert BlockOk(g, pools, c);
      CopyPayload(b, c, n);
      KeepsBytesFewer(old(mem), mem, old(Live(g)) - {c}, old(Live(g)) - {b} - {c});
      label copied:
      Free(b + 16);
      assert Same(old@copied(mem), mem, c, Live(g)[c]);
      SameCopied(old@copied(mem), mem, c, Live(g)[c], n);
      KeepsBytesFewer(old@copied(mem), mem, Live(g), old(Live(g)) - {b} - {c});
      KeepsBytesTransitive(old(mem), old@copied(mem), mem, old(Live(g)) - {b} - {c});
    }

    /** The same, seen from before the new block was allocated. */
    method MoveAway(b: int, p: int, n: nat, ghost m0: Mem, ghost live: map<int, nat>)
      requires Valid() && IsLive(g, b) && b in live && p - 16 !in live && n <= live[b]
      requires p - 16 in Live(g) && n <= Live(g)[p - 16] && Live(g) == live[p - 16 := Live(g)[p - 16]]
      requires KeepsBytes(m0, mem, live)
      modifies this`mem, this`ctl, this`g, this`st, this`clock
      ensures Valid() && ctl.nul == old(ctl).nul
      ensures Live(g) == (live - {b})[p - 16 := old(Live(g))[p - 16]]
      ensures Copied(m0, mem, b + 16, p, n) && KeepsBytes(m0, mem, live - {b})
    {
      var c := p - 16;
      assert BlockOk(g, pools, b) && b in Live(g);
      LiveMoved(live, b, c, Live(g)[c]);
      MoveInto(b, c, n);
      MoveComposes(m0, old(mem), mem, live, b, c, n);
      assert c + 16 == p;
    }

    /** `tlsf_realloc` when it must move: allocate, copy, free. */
    method ReallocMove(b: int, size: nat, adjust: nat) returns (p: int)
      requires Valid() && IsLive(g, b) && g[b].size < adjust
      requires adjust % ALIGN_SIZE == 0 && BLOCK_MIN <= adjust < BLOCK_MAX
      modifies this`mem, this`ctl, this`g, this`st, this`clock
      ensures Valid() && ctl.nul == old(ctl).nul
      ensures Reallocated(b, size, adjust, p)
    {
      assert HeaderOk(mem, g, PrevFreeSet(g), b) && BlockOk(g, pools, b);
      var cursize := SizeOf(mem, b);
      ghost var live := Live(g);
      p := MallocAdjusted(adjust);
      ghost var m1 := mem;
      if p != 0 {
        var minsize := if cursize < size then cursize else size;
        assert b in Live(g);
        MoveAway(b, p, minsize, old(mem), live);
      } else {
        KeepsBytesFewer(old(mem), m1, live, live - {b});
      }
    }

    /** `tlsf_realloc` of a live block to a size the request limit accepts. */
    method Resize(ptr: int, size: nat) returns (p: int)
      requires Valid() && 0 < size < WORD_SPAN && IsLive(g, ptr - 16) && Request(size) != 0
      modifies this`mem, this`ctl, this`g, this`st, this`clock
      ensures Valid() && ctl.nul == old(ctl).nul
      ensures Reallocated(ptr - 16, size, Request(size), p)
      ensures Request(size) == BLOCK_MIN ==> p != 0
    {
      RequestCovers(size);
      var block := ptr - 16;
      assert BlockOk(g, pools, block) && HeaderOk(mem, g, PrevFreeSet(g), block);
      NotNull(g, pools, block);
      var next := NextOf(mem, block);
      assert HeaderOk(mem, g, PrevFreeSet(g), next);
      var cursize := SizeOf(mem, block);
      var combined := cursize + SizeOf(mem, next) + OVERHEAD;
      var adjust := Request(size);
      if adjust > cursize && (!mem(next + 8).bit0 || adjust > combined) {
        p := ReallocMove(block, size, adjust);
      } else {
        ReallocInPlace(block, size, adjust);
        p := ptr;
      }
    }

    /** `block_trim_used` to 0 bytes, which is what `tlsf_realloc` does with a size
        the request limit refuses.  A block of 24 bytes is left alone; a larger
        one loses its size and its payload goes to a free list. */
    method TrimToNothing(b: int)
      requires Valid() && IsLive(g, b)
      modifies this`mem, this`ctl
      ensures ctl.nul == old(ctl).nul
      ensures g[b].size < HEADER ==> mem == old(mem) && ctl == old(ctl)
      ensures g[b].size >= HEADER ==> PayloadLost(mem, ctl, b, g[b].size)
    {
      assert HeaderOk(mem, g, PrevFreeSet(g), b);
      if SizeOf(mem, b) >= HEADER {
        EmptyWrites(mem, g, pools, PrevFreeSet(g), b);
        FiledListed(g, st, clock);
        EmptiedLists(mem, TrimUsedMem(mem, b, 0), ctl, g, pools, PrevFreeSet(g), st, b);
        JoinedFits(g, pools, b);
        mem := TrimUsedMem(mem, b, 0);
        MergeEmptied(b);
      }
    }

    /** The rest of `block_trim_used`: merge the remaining block with the next one
        if that is free, and list it. */
    method MergeEmptied(b: int)
      requires Chain(g, pools) && NullApart(g, ctl.nul) && Lists(mem, ctl, st) && Filed(g, st, clock)
      requires st.Keys == FreeSet(g) && IsLive(g, b) && g[b].size >= HEADER && Next(g, b) in g
      requires g[b].size + g[Next(g, b)].size < BLOCK_MAX
      requires SizeOf(mem, b) == 0 && mem(b + 16) == HeaderWord(g[b].size - OVERHEAD, true, false)
      requires mem(Next(g, b) + 8) == HeaderWord(g[Next(g, b)].size, g[Next(g, b)].free, true)
      modifies this`mem, this`ctl
      ensures ctl.nul == old(ctl).nul && PayloadLost(mem, ctl, b, g[b].size)
    {
      FiledListed(g, st, clock);
      SpacedLists(g, pools, st, ctl.nul);
      var r := b + OVERHEAD;
      var next := NextOf(mem, r);
      ghost var left, n: nat := st, g[b].size - OVERHEAD;
      if mem(next + 8).bit0 {
        assert FiledAt(g, st, clock, next);
        AbsorbLists(mem, ctl, g, pools, st, b);
        RemoveFreeBlock(next, MappingInsert(SizeOf(mem, next)));
        left, n := st - {next}, g[b].size + g[next].size;
        mem := AbsorbMem(mem, r, next);
      }
      InsertGivesAway(mem, ctl, g, pools, left, b, n);
      InsertFreeBlock(r, MappingInsert(SizeOf(mem, r)));
    }

    /** The contract in the comment above `tlsf_realloc`: NULL leaves everything as
        it was, any other pointer has the size asked for and the old contents. */
    twostate predicate Documented(b: int, size: nat, p: int)
      requires b in old(Live(g))
      reads this
    {
      if p == 0 then mem == old(mem) && ctl == old(ctl)
      else
        && size <= SizeOf(mem, p - 16)
        && Copied(old(mem), mem, b + 16, p, Least(old(Live(g))[b], size, size))
    }

    /** `tlsf_realloc`, for every size.  It keeps its documented contract exactly
        when the request limit accepts the size and the rounding does not wrap. */
    method Realloc(ptr: int, size: nat) returns (p: int)
      requires Valid() && size < WORD_SPAN && (ptr != 0 ==> IsLive(g, ptr - 16))
      modifies this`mem, this`ctl, this`g, this`st, this`clock
      ensures ptr == 0 || size == 0 || Request(size) != 0 || old(g)[ptr - 16].size < HEADER ==> Valid()
      ensures ctl.nul == old(ctl).nul
      ensures ptr == 0 ==> Allocated(Request(size), Request(size), p)
      ensures ptr != 0 && size == 0 ==>
                p == 0 && Live(g) == old(Live(g)) - {ptr - 16} && KeepsBytes(old(mem), mem, Live(g))
      ensures ptr != 0 && size != 0 && Request(size) != 0 ==> Reallocated(ptr - 16, size, Request(size), p)
      ensures ptr != 0 && size != 0 && Request(size) == 0 ==> p == ptr && g == old(g)
      ensures ptr != 0 && size != 0 && Request(size) == 0 && g[ptr - 16].size < HEADER ==>
                mem == old(mem) && ctl == old(ctl)
      ensures ptr != 0 && size != 0 && Request(size) == 0 && g[ptr - 16].size >= HEADER ==>
                PayloadLost(mem, ctl, ptr - 16, g[ptr - 16].size)
      ensures ptr != 0 && size != 0 ==>
                (Documented(ptr - 16, size, p) <==> Request(size) != 0 && size <= WORD_SPAN - ALIGN_SIZE)
    {
      p := 0;
      RequestCovers(size);
      if ptr != 0 && size == 0 {
        Free(ptr);
      } else if ptr == 0 {
        p := Malloc(size);
      } else if Request(size) != 0 {
        p := Resize(ptr, size);
        if p != 0 { assert HeaderOk(mem, g, PrevFreeSet(g), p - 16); }
      } else {
        assert BlockOk(g, pools, ptr - 16) && HeaderOk(mem, g, PrevFreeSet(g), ptr - 16);
        TrimToNothing(ptr - 16);
        p := ptr;
      }
    }

    /** `tlsf_create`: an empty control structure whose block_null is at `nul`. */
    constructor (m: Mem, nul: int)
      requires nul != 0 && nul % ALIGN_SIZE == 0
      ensures Valid() && g == map[] && pools == [] && ctl.nul == nul
    {
      var sl: seq<nat>, heads: seq<seq<int>> := [], [];
      for i := 0 to FL_COUNT
        invariant |sl| == |heads| == i
        invariant forall f :: 0 <= f < i ==> sl[f] == 0 && |heads[f]| == SL_COUNT
        invariant forall f, t :: 0 <= f < i && 0 <= t < SL_COUNT ==> heads[f][t] == nul
      {
        var row: seq<int> := [];
        for j := 0 to SL_COUNT
          invariant |row| == j && forall t :: 0 <= t < j ==> row[t] == nul
        {
          row := row + [nul];
        }
        sl, heads := sl + [0], heads + [row];
      }
      forall i: nat ensures !Bit(0, i) { NoBitInZero(i); }
      mem := Put(Put(m, nul + 16, Ptr(nul)), nul + 24, Ptr(nul));
      ctl := Control(nul, 0, sl, heads);
      g, pools, st, clock := map[], [], map[], 0;
    }

    /** `block_set_size`, `block_set_free` or `block_set_used`, and
        `block_set_prev_free` or `block_set_prev_used`, on one header. */
    method LayHeader(b: int, size: nat, free: bool, prevFree: bool)
      modifies this`mem
      ensures mem(b + 8) == HeaderWord(size, free, prevFree)
      ensures forall a :: a != b + 8 ==> mem(a) == old(mem)(a)
    {
      mem := PutSize(mem, b, size);
      if free { mem := PutFree(mem, b); } else { mem := PutUsed(mem, b); }
      if prevFree { mem := PutPrevFree(mem, b); } else { mem := PutPrevUsed(mem, b); }
    }

    /** The first half of `tlsf_add_pool`: the header of the one free block, pushed
        on its list. */
    method LayFirstBlock(start: int, size: nat, c: Class)
      requires Valid() && PoolFits(g, ctl.nul, start, size) && c.InRange()
      modifies this`mem, this`ctl
      ensures ctl == PushHead(old(ctl), start, c) && mem(start + 8) == HeaderWord(size, true, false)
      ensures Headers(mem, g, PrevFreeSet(g)) && Linked(mem, g) && KeepsBytes(old(mem), mem, Live(g))
      ensures Lists(mem, ctl, st[start := Entry(c, clock)])
    {
      FiledListed(g, st, clock);
      LayHeader(start, size, true, false);
      VacantChange(old(mem), mem, ctl, g, pools, PrevFreeSet(g), st, start + 8, start + 24 + size);
      ghost var m1 := mem;
      PoolPushLists(mem, ctl, g, pools, st, clock, start, size, c);
      PoolPushHeaders(mem, ctl, g, pools, st, clock, start, size, c);
      InsertFreeBlock(start, c);
      KeepsLiveTransitive(old(mem), m1, mem, g);
      LiveBytes(old(mem), mem, g);
    }

    /** The second half: the zero-size sentinel behind it. */
    method LaySentinel(start: int, size: nat)
      requires size >= BLOCK_MIN && mem(start + 8) == HeaderWord(size, true, false)
      modifies this`mem
      ensures SentinelLaid(old(mem), mem, start, start + OVERHEAD + size)
    {
      mem := LinkNext(mem, start);
      LayHeader(start + OVERHEAD + size, 0, false, true);
    }

    /** `tlsf_add_pool` on a region it accepts. */
    method LayPool(start: int, size: nat)
      requires Valid() && PoolFits(g, ctl.nul, start, size)
      modifies this
      ensures Valid() && ctl.nul == old(ctl).nul
      ensures g == WithPool(old(g), old(pools), start, size)
      ensures pools == old(pools) + [Pool(start, start + OVERHEAD + size)]
      ensures Live(g) == old(Live(g)) && KeepsBytes(old(mem), mem, Live(g))
    {
      MappingInsertBounds(size);
      var c := MappingInsert(size);
      LayFirstBlock(start, size, c);
      ghost var m1 := mem;
      LaySentinel(start, size);
      LaidState(m1, mem, ctl, g, pools, st, clock, start, size, c);
      KeepsBytesTransitive(old(mem), m1, mem, Live(g));
      Adopt(WithPool(g, pools, start, size), pools + [Pool(start, start + OVERHEAD + size)], start, c);
    }

    /** The heap takes over a new chain and one more listed block. */
    ghost method Adopt(h: Heap, ps: seq<Pool>, b: int, c: Class)
      requires Chain(h, ps) && NullApart(h, ctl.nul) && Headers(mem, h, PrevFreeSet(h)) && Linked(mem, h)
      requires Lists(mem, ctl, st[b := Entry(c, clock)]) && Filed(h, st[b := Entry(c, clock)], clock + 1)
      requires Coalesced(h) && st[b := Entry(c, clock)].Keys == FreeSet(h)
      modifies this`st, this`clock, this`g, this`pools
      ensures Valid() && g == h && pools == ps
    {
      st, clock, g, pools := st[b := Entry(c, clock)], clock + 1, h, ps;
    }

    /** `tlsf_add_pool`: NULL, with nothing changed, unless the region is aligned and
        its usable part `n` is of an acceptable size.  The 2^32 bytes its test also
        lets through are excluded. */
    method AddPool(base: nat, bytes: nat, ghost n: int) returns (pool: int)
      requires Valid() && bytes < WORD_SPAN && HEADER <= base && base + bytes <= WORD_SPAN
      requires n == bytes - 2 * OVERHEAD - bytes % ALIGN_SIZE && n != BLOCK_MAX
      requires Vacant(g, base, base + bytes) && (ctl.nul + HEADER <= base || base + bytes <= ctl.nul)
      modifies this
      ensures Valid() && ctl.nul == old(ctl).nul
      ensures Live(g) == old(Live(g)) && KeepsBytes(old(mem), mem, Live(g))
      ensures pool == (if base % ALIGN_SIZE == 0 && BLOCK_MIN <= n < BLOCK_MAX then base else 0)
      ensures pool == 0 ==> mem == old(mem) && g == old(g) && pools == old(pools)
      ensures pool != 0 ==> g == WithPool(old(g), old(pools), base - OVERHEAD, n)
      ensures pool != 0 ==> pools == old(pools) + [Pool(base - OVERHEAD, base + n)]
    {
      pool := 0;
      var poolBytes := PoolSize(bytes);
      if base % ALIGN_SIZE == 0 && BLOCK_MIN <= poolBytes <= BLOCK_MAX {
        LayPool(base - OVERHEAD, poolBytes);
        pool := base;
      }
    }
  }

  /** Below 2^63 no block can be aligned to it. */
  lemma TopMisses(x: int, size: nat, n: nat, p: int, now: nat)
    requires Allocator.CutFrom(x, size, n, p, now) && 0 < x + 16 && 0 < size && x + 16 + size <= TOP
    ensures 0 < p < TOP
  {}

  lemma OnePool(start: int, size: nat, x: int)
    requires x in FreeSet(WithPool(map[], [], start, size))
    ensures x == start && WithPool(map[], [], start, size)[x].size == size
  {}

  /** A run that shows the alignment 2^63 missed: one small pool, one request. */
  method TopMissed(m: Mem) returns (p: int)
    ensures p != 0 && p % TOP != 0
  {
    var a := new Allocator(m, 1024);
    var pool := a.AddPool(64, 64, 48);
    RequestCovers(1);
    TopAlignment();
    ghost var g := a.g;
    assert 56 in FreeSet(g);
    ghost var searched, x;
    p, searched, x := a.Memalign(TOP, 1);
    OnePool(56, 48, x);
    TopMisses(x, g[x].size, Request(1), p, Live(a.g)[p - 16]);
  }
}

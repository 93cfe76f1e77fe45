/**
 `tlsf_add_pool`: laying one free block and a sentinel over a fresh region.
 */
module TlsfPool {
  import opened Bits
  import opened TlsfMapping
  import opened TlsfHeap
  import opened TlsfMemory
  import opened TlsfLists
  import opened TlsfBlocks
  import opened TlsfSteps

  /** `align_down(bytes - tlsf_pool_overhead(), ALIGN_SIZE)` in 64-bit arithmetic. */
  function PoolBytes(bytes: nat): nat {
    MaskFrom((bytes + WORD_SPAN - 2 * OVERHEAD) % WORD_SPAN, ALIGN_LOG2)
  }

  /** The usable bytes of a region; a region smaller than the overhead wraps to a
      size no pool may have. */
  method PoolSize(bytes: nat) returns (n: nat)
    requires bytes < WORD_SPAN
    ensures n % ALIGN_SIZE == 0
    ensures if bytes < 2 * OVERHEAD then n > BLOCK_MAX else n == bytes - 2 * OVERHEAD - bytes % ALIGN_SIZE
  {
    PoolRounding(bytes);
    n := PoolBytes(bytes);
    if bytes >= 2 * OVERHEAD { RoundedPool(bytes - 2 * OVERHEAD, n, bytes % ALIGN_SIZE); }
  }

  lemma RoundedPool(s: nat, n: nat, r: nat)
    requires n % 8 == 0 && n <= s < n + 8 && r == (s + 16) % 8
    ensures n == s - r
  {}

  /** The size test of `tlsf_add_pool` lets 2^32 usable bytes through, for which
      there is no list. */
  lemma TopClass()
    ensures PoolBytes(BLOCK_MAX + 2 * OVERHEAD) == BLOCK_MAX
    ensures MappingInsert(BLOCK_MAX).fl == FL_COUNT
  {
    PoolRounding(BLOCK_MAX + 2 * OVERHEAD);
    Pow2Table();
    FlsUnique(BLOCK_MAX, 32);
  }

  lemma PoolRounding(bytes: nat)
    requires bytes < WORD_SPAN
    ensures PoolBytes(bytes) % ALIGN_SIZE == 0
    ensures var s := (bytes + WORD_SPAN - 2 * OVERHEAD) % WORD_SPAN; PoolBytes(bytes) <= s < PoolBytes(bytes) + 8
    ensures bytes >= 2 * OVERHEAD ==> (bytes + WORD_SPAN - 2 * OVERHEAD) % WORD_SPAN == bytes - 2 * OVERHEAD
  {
    Pow2Table();
    MaskFromRounds((bytes + WORD_SPAN - 2 * OVERHEAD) % WORD_SPAN, 3);
    MultipleOf8(PoolBytes(bytes));
  }

  /** The pool as two blocks: the usable one, free, and the sentinel. */
  function WithPool(g: Heap, pools: seq<Pool>, start: int, size: nat): Heap {
    g[start := Block(size, true, NONE, |pools|)][start + OVERHEAD + size := Block(0, false, start, |pools|)]
  }

  /** No block has a word between lo and hi. */
  ghost predicate Vacant(g: Heap, lo: int, hi: int) {
    forall b :: b in g ==> b + 16 + g[b].size <= lo || hi <= b + 8
  }

  ghost predicate PoolFits(g: Heap, nul: int, start: int, size: nat) {
    && start % ALIGN_SIZE == 0 && start >= BLOCK_MIN && size % ALIGN_SIZE == 0 && BLOCK_MIN <= size < BLOCK_MAX
    && start + OVERHEAD + size + 16 <= WORD_SPAN
    && Vacant(g, start + 8, start + 24 + size)
    && (nul + HEADER <= start + 8 || start + 24 + size <= nul)
  }

  lemma WithPoolBlock(g: Heap, pools: seq<Pool>, nul: int, start: int, size: nat, b: int)
    requires Chain(g, pools) && PoolFits(g, nul, start, size) && b in WithPool(g, pools, start, size)
    ensures BlockOk(WithPool(g, pools, start, size), pools + [Pool(start, start + OVERHEAD + size)], b)
  {
    if b in g { assert BlockOk(g, pools, b); }
  }

  lemma WithPoolApart(g: Heap, pools: seq<Pool>, nul: int, start: int, size: nat, b: int, c: int)
    requires Chain(g, pools) && PoolFits(g, nul, start, size)
    requires b in WithPool(g, pools, start, size) && c in WithPool(g, pools, start, size)
    ensures Apart(WithPool(g, pools, start, size), b, c)
  {
    if b in g && c in g { assert Apart(g, b, c); }
    if b in g { assert BlockOk(g, pools, b); }
    if c in g { assert BlockOk(g, pools, c); }
  }

  lemma WithPoolChain(g: Heap, pools: seq<Pool>, nul: int, start: int, size: nat)
    requires Chain(g, pools) && NullApart(g, nul) && PoolFits(g, nul, start, size)
    ensures start !in g && start + OVERHEAD + size !in g
    ensures var h, end := WithPool(g, pools, start, size), start + OVERHEAD + size;
            Chain(h, pools + [Pool(start, end)]) && NullApart(h, nul)
  {
    var h, end := WithPool(g, pools, start, size), start + OVERHEAD + size;
    var ps := pools + [Pool(start, end)];
    forall b | b in h ensures BlockOk(h, ps, b) { WithPoolBlock(g, pools, nul, start, size, b); }
    forall i: nat | i < |ps| ensures PoolOk(h, ps, i) {
      if i < |pools| { assert PoolOk(g, pools, i); }
    }
    forall b, c | b in h && c in h ensures Apart(h, b, c) { WithPoolApart(g, pools, nul, start, size, b, c); }
  }

  lemma WithPoolSets(g: Heap, pools: seq<Pool>, nul: int, start: int, size: nat)
    requires Chain(g, pools) && Coalesced(g) && NullApart(g, nul) && PoolFits(g, nul, start, size)
    ensures var h, end := WithPool(g, pools, start, size), start + OVERHEAD + size;
            && FreeSet(h) == FreeSet(g) + {start} && PrevFreeSet(h) == PrevFreeSet(g) + {end}
            && Live(h) == Live(g) && Coalesced(h)
  {
    var h, end := WithPool(g, pools, start, size), start + OVERHEAD + size;
    WithPoolChain(g, pools, nul, start, size);
    forall c | c in g ensures PrevIsFree(h, c) <==> PrevIsFree(g, c) {
      if g[c].prev != NONE { PrevOk(g, pools, c); }
    }
    forall c | PrevIsFree(h, c) ensures !h[c].free { assert c in g ==> PrevIsFree(g, c); }
  }

  /** Changes inside a vacant region disturb nothing that exists. */
  lemma VacantHeaders(m: Mem, m': Mem, g: Heap, pools: seq<Pool>, p: set<int>, lo: int, hi: int)
    requires Chain(g, pools) && Headers(m, g, p) && Linked(m, g) && Vacant(g, lo, hi)
    requires forall a :: a < lo || hi <= a ==> m'(a) == m(a)
    ensures Headers(m', g, p) && Linked(m', g) && KeepsLive(m, m', g)
  {
    forall b | b in g ensures HeaderOk(m', g, p, b) && LinkOk(m', g, b) {
      assert HeaderOk(m, g, p, b) && LinkOk(m, g, b);
      if g[b].prev != NONE { PrevOk(g, pools, b); }
    }
    forall b | IsLive(g, b) ensures SamePayload(m, m', g, b) {}
  }

  lemma VacantChange(m: Mem, m': Mem, k: Control, g: Heap, pools: seq<Pool>, p: set<int>, st: Listed, lo: int, hi: int)
    requires Chain(g, pools) && Headers(m, g, p) && Linked(m, g) && Vacant(g, lo, hi)
    requires Lists(m, k, st) && ListedIn(g, st)
    requires forall a :: a < lo || hi <= a ==> m'(a) == m(a)
    ensures Headers(m', g, p) && Linked(m', g) && KeepsLive(m, m', g) && Lists(m', k, st)
  {
    VacantHeaders(m, m', g, pools, p, lo, hi);
    forall b | b in st ensures m'(b + 16) == m(b + 16) && m'(b + 24) == m(b + 24) { assert BlockOk(g, pools, b); }
    ListsFrame(m, m', k, st);
  }

  /** The headers of the old blocks and of the two new ones. */
  lemma WithPoolHeaders(m: Mem, g: Heap, pools: seq<Pool>, nul: int, start: int, size: nat)
    requires Chain(g, pools) && Coalesced(g) && NullApart(g, nul) && PoolFits(g, nul, start, size)
    requires Headers(m, g, PrevFreeSet(g)) && Linked(m, g)
    requires m(start + 8) == HeaderWord(size, true, false)
    requires var end := start + OVERHEAD + size; m(end) == Ptr(start) && m(end + 8) == HeaderWord(0, false, true)
    ensures var h := WithPool(g, pools, start, size); Headers(m, h, PrevFreeSet(h)) && Linked(m, h)
  {
    var h, end := WithPool(g, pools, start, size), start + OVERHEAD + size;
    WithPoolChain(g, pools, nul, start, size);
    WithPoolSets(g, pools, nul, start, size);
    forall c | c in h ensures HeaderOk(m, h, PrevFreeSet(h), c) && LinkOk(m, h, c) {
      if c in g {
        assert HeaderOk(m, g, PrevFreeSet(g), c) && LinkOk(m, g, c);
        if g[c].prev != NONE { PrevOk(g, pools, c); }
      }
    }
  }
}

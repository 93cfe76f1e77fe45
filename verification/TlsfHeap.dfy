/**
 The physical chain of the TLSF heap, as values: which blocks exist, how long
 they are, which are free and which block precedes which.  Headers, links and
 bitmaps are laid over this in TlsfMemory and TlsfLists.
 */
module TlsfHeap {
  import opened Bits
  import opened TlsfMapping

  /** The `prev` of the first block of a pool. */
  const NONE: int := -1

  /** A block; `size` excludes the header, 0 marks the sentinel of a pool.
      `prev` is the address of the block before it, `pool` the pool it is in. */
  datatype Block = Block(size: nat, free: bool, prev: int, pool: nat)

  /** The blocks by address.  A block at b keeps its size word at b + 8 and its
      payload from b + 16; the word at b belongs to the block before it. */
  type Heap = map<int, Block>

  /** A pool runs from its first block to its sentinel. */
  datatype Pool = Pool(start: int, end: int)

  function Next(g: Heap, b: int): int
    requires b in g
  {
    b + OVERHEAD + g[b].size
  }

  predicate IsFree(g: Heap, b: int) { b in g && g[b].free }

  /** In use by a client: neither free nor a sentinel. */
  predicate IsLive(g: Heap, b: int) { b in g && !g[b].free && g[b].size != 0 }

  predicate PrevIsFree(g: Heap, b: int) { b in g && g[b].prev != NONE && IsFree(g, g[b].prev) }

  ghost function FreeSet(g: Heap): set<int> { set b | b in g && g[b].free }

  ghost function PrevFreeSet(g: Heap): set<int> { set b | b in g && PrevIsFree(g, b) }

  predicate BlockOk(g: Heap, pools: seq<Pool>, b: int)
    requires b in g
  {
    && b % ALIGN_SIZE == 0 && g[b].size % ALIGN_SIZE == 0
    && g[b].pool < |pools|
    && pools[g[b].pool].start <= b <= pools[g[b].pool].end
    && (g[b].size == 0 <==> b == pools[g[b].pool].end)
    && (g[b].size == 0 ==> !g[b].free)
    && (g[b].size != 0 ==>
          && BLOCK_MIN <= g[b].size < BLOCK_MAX
          && Next(g, b) in g && g[Next(g, b)].prev == b && g[Next(g, b)].pool == g[b].pool
          && Next(g, b) <= pools[g[b].pool].end)
    && (g[b].prev == NONE <==> b == pools[g[b].pool].start)
    && (g[b].prev != NONE ==>
          && g[b].prev in g && g[g[b].prev].size != 0 && Next(g, g[b].prev) == b
          && g[g[b].prev].pool == g[b].pool)
  }

  predicate PoolOk(g: Heap, pools: seq<Pool>, i: nat)
    requires i < |pools|
  {
    && pools[i].start in g && pools[i].end in g
    && g[pools[i].start].pool == i && g[pools[i].end].pool == i
    && BLOCK_MIN <= pools[i].start && pools[i].end + 16 <= WORD_SPAN
    && BLOCK_MIN <= pools[i].end - pools[i].start - OVERHEAD < BLOCK_MAX
  }

  /** Two blocks do not overlap. */
  predicate Apart(g: Heap, b: int, c: int)
    requires b in g
  {
    b < c ==> Next(g, b) <= c
  }

  ghost predicate BlocksOk(g: Heap, pools: seq<Pool>) {
    forall b {:trigger BlockOk(g, pools, b)} :: b in g ==> BlockOk(g, pools, b)
  }

  ghost predicate PoolsOk(g: Heap, pools: seq<Pool>) {
    forall i: nat {:trigger PoolOk(g, pools, i)} :: i < |pools| ==> PoolOk(g, pools, i)
  }

  ghost predicate AllApart(g: Heap) {
    forall b, c {:trigger Apart(g, b, c)} :: b in g && c in g ==> Apart(g, b, c)
  }

  /** Blocks tile their pools: every block is followed by a block of the same
      pool up to the sentinel, preceded by one down to the start, and no two
      blocks overlap. */
  ghost predicate Chain(g: Heap, pools: seq<Pool>) {
    BlocksOk(g, pools) && PoolsOk(g, pools) && AllApart(g)
  }

  /** No two neighbours are both free. */
  ghost predicate Coalesced(g: Heap) {
    forall b {:trigger PrevIsFree(g, b)} :: PrevIsFree(g, b) ==> !g[b].free
  }

  // ---- the three changes the allocator makes to the chain

  function SetFree(g: Heap, b: int, free: bool): Heap
    requires b in g
  {
    g[b := g[b].(free := free)]
  }

  /** `block_split`: b keeps `size` bytes, the rest becomes a free block. */
  function Split(g: Heap, b: int, size: nat): Heap
    requires b in g && Next(g, b) in g && size + OVERHEAD <= g[b].size
  {
    var r, n := b + OVERHEAD + size, Next(g, b);
    g[b := g[b].(size := size)]
     [r := Block(g[b].size - size - OVERHEAD, true, b, g[b].pool)]
     [n := g[n].(prev := r)]
  }

  /** `block_absorb`: the block after p becomes part of p. */
  function Absorb(g: Heap, p: int): Heap
    requires p in g && Next(g, p) in g && Next(g, Next(g, p)) in g
  {
    var n := Next(g, p);
    var nn := Next(g, n);
    (g - {n})[p := g[p].(size := g[p].size + g[n].size + OVERHEAD)][nn := g[nn].(prev := p)]
  }

  lemma SetFreeChain(g: Heap, pools: seq<Pool>, b: int, free: bool)
    requires Chain(g, pools) && b in g && g[b].size != 0
    ensures Chain(SetFree(g, b, free), pools)
  {
    var h := SetFree(g, b, free);
    forall x | x in h ensures BlockOk(h, pools, x) { assert BlockOk(g, pools, x); }
    forall i: nat | i < |pools| ensures PoolOk(h, pools, i) { assert PoolOk(g, pools, i); }
    forall x, y | x in h && y in h ensures Apart(h, x, y) { assert Apart(g, x, y); }
  }

  lemma SplitChain(g: Heap, pools: seq<Pool>, b: int, size: nat)
    requires Chain(g, pools) && b in g && g[b].size != 0
    requires size % ALIGN_SIZE == 0 && BLOCK_MIN <= size && size + HEADER <= g[b].size
    ensures Next(g, b) in g
    ensures b + OVERHEAD + size !in g
    ensures Chain(Split(g, b, size), pools)
  {
    SplitPlace(g, pools, b, size);
    var h := Split(g, b, size);
    forall x | x in h ensures BlockOk(h, pools, x) { SplitBlock(g, pools, b, size, x); }
    forall i: nat | i < |pools| ensures PoolOk(h, pools, i) { SplitPool(g, pools, b, size, i); }
    forall x, y | x in h && y in h ensures Apart(h, x, y) { SplitApart(g, pools, b, size, x, y); }
  }

  /** There is no block yet where the new one will be. */
  lemma SplitPlace(g: Heap, pools: seq<Pool>, b: int, size: nat)
    requires Chain(g, pools) && b in g && g[b].size != 0 && BLOCK_MIN <= size && size + HEADER <= g[b].size
    ensures Next(g, b) in g && b + OVERHEAD + size !in g
  {
    assert BlockOk(g, pools, b) && BlockOk(g, pools, Next(g, b));
    assert b + OVERHEAD + size in g ==> Apart(g, b, b + OVERHEAD + size);
  }

  lemma SplitPool(g: Heap, pools: seq<Pool>, b: int, size: nat, i: nat)
    requires Chain(g, pools) && b in g && Next(g, b) in g && b + OVERHEAD + size !in g && i < |pools|
    requires BLOCK_MIN <= size && size + HEADER <= g[b].size
    ensures PoolOk(Split(g, b, size), pools, i)
  {
    assert PoolOk(g, pools, i) && BlockOk(g, pools, b) && BlockOk(g, pools, Next(g, b));
  }

  lemma SplitBlock(g: Heap, pools: seq<Pool>, b: int, size: nat, x: int)
    requires Chain(g, pools) && b in g && Next(g, b) in g
    requires size % ALIGN_SIZE == 0 && BLOCK_MIN <= size && size + HEADER <= g[b].size
    requires b + OVERHEAD + size !in g && x in Split(g, b, size)
    ensures BlockOk(Split(g, b, size), pools, x)
  {
    if x in g && x != b {
      assert BlockOk(g, pools, x) && BlockOk(g, pools, b);
    } else {
      SplitHalves(g, pools, b, size);
    }
  }

  lemma SplitHalves(g: Heap, pools: seq<Pool>, b: int, size: nat)
    requires Chain(g, pools) && b in g && Next(g, b) in g
    requires size % ALIGN_SIZE == 0 && BLOCK_MIN <= size && size + HEADER <= g[b].size
    requires b + OVERHEAD + size !in g
    ensures BlockOk(Split(g, b, size), pools, b)
    ensures BlockOk(Split(g, b, size), pools, b + OVERHEAD + size)
  {
    SplitFront(g, pools, b, size);
    SplitBack(g, pools, b, size);
  }

  lemma SplitFront(g: Heap, pools: seq<Pool>, b: int, size: nat)
    requires Chain(g, pools) && b in g && Next(g, b) in g && b + OVERHEAD + size !in g
    requires size % ALIGN_SIZE == 0 && BLOCK_MIN <= size && size + HEADER <= g[b].size
    ensures BlockOk(Split(g, b, size), pools, b)
  {
    assert BlockOk(g, pools, b) && b < b + OVERHEAD + size < Next(g, b);
    if g[b].prev != NONE { assert BlockOk(g, pools, g[b].prev); }
  }

  lemma SplitBack(g: Heap, pools: seq<Pool>, b: int, size: nat)
    requires Chain(g, pools) && b in g && Next(g, b) in g && b + OVERHEAD + size !in g
    requires size % ALIGN_SIZE == 0 && BLOCK_MIN <= size && size + HEADER <= g[b].size
    ensures BlockOk(Split(g, b, size), pools, b + OVERHEAD + size)
  {
    assert BlockOk(g, pools, b) && b < b + OVERHEAD + size < Next(g, b) && b + OVERHEAD + size != NONE;
    AlignedSum(b, size);
    AlignedRest(g[b].size, size);
    SplitBackOk(g, pools, b, size);
  }

  lemma SplitBackOk(g: Heap, pools: seq<Pool>, b: int, size: nat)
    requires b in g && Next(g, b) in g && b + OVERHEAD + size !in g && BlockOk(g, pools, b)
    requires BLOCK_MIN <= size && size + HEADER <= g[b].size && b + OVERHEAD + size != NONE
    requires (b + OVERHEAD + size) % ALIGN_SIZE == 0 && (g[b].size - size - OVERHEAD) % ALIGN_SIZE == 0
    ensures BlockOk(Split(g, b, size), pools, b + OVERHEAD + size)
  {}

  lemma AlignedRest(x: nat, y: nat)
    requires x % 8 == 0 && y % 8 == 0
    ensures (x - y - 8) % 8 == 0
  {
    assert x - y - 8 == 8 * (x / 8 - y / 8 - 1);
  }

  lemma AlignedSum(x: int, y: int)
    ensures x % 8 == 0 && y % 8 == 0 ==> (x + 8 + y) % 8 == 0
  {}

  lemma SplitApart(g: Heap, pools: seq<Pool>, b: int, size: nat, x: int, y: int)
    requires Chain(g, pools) && b in g && Next(g, b) in g
    requires size + HEADER <= g[b].size && b + OVERHEAD + size !in g
    requires x in Split(g, b, size) && y in Split(g, b, size)
    ensures Apart(Split(g, b, size), x, y)
  {
    if x !in g {
      if y in g { assert Apart(g, b, y); }
    } else if y !in g {
      assert Apart(g, x, b) && Apart(g, b, x);
    } else {
      assert Apart(g, x, y);
    }
  }

  lemma AbsorbChain(g: Heap, pools: seq<Pool>, p: int)
    requires Chain(g, pools) && p in g && g[p].size != 0
    requires Next(g, p) in g && g[Next(g, p)].size != 0
    ensures Next(g, Next(g, p)) in g
    ensures Chain(Absorb(g, p), pools)
  {
    var n := Next(g, p);
    assert BlockOk(g, pools, n);
    var h := Absorb(g, p);
    forall x | x in h ensures BlockOk(h, pools, x) { AbsorbBlock(g, pools, p, x); }
    forall i: nat | i < |pools| ensures PoolOk(h, pools, i) { AbsorbPool(g, pools, p, i); }
    forall x, y | x in h && y in h ensures Apart(h, x, y) { AbsorbApart(g, pools, p, x, y); }
  }

  lemma AbsorbPool(g: Heap, pools: seq<Pool>, p: int, i: nat)
    requires Chain(g, pools) && p in g && g[p].size != 0 && i < |pools|
    requires Next(g, p) in g && g[Next(g, p)].size != 0 && Next(g, Next(g, p)) in g
    ensures PoolOk(Absorb(g, p), pools, i)
  {
    assert PoolOk(g, pools, i) && BlockOk(g, pools, p) && BlockOk(g, pools, Next(g, p));
  }

  lemma AbsorbApart(g: Heap, pools: seq<Pool>, p: int, x: int, y: int)
    requires Chain(g, pools) && p in g && g[p].size != 0
    requires Next(g, p) in g && g[Next(g, p)].size != 0 && Next(g, Next(g, p)) in g
    requires x in Absorb(g, p) && y in Absorb(g, p)
    ensures Apart(Absorb(g, p), x, y)
  {
    assert Apart(g, x, y);
    if x == p { assert Apart(g, Next(g, p), y); }
  }

  lemma AbsorbBlock(g: Heap, pools: seq<Pool>, p: int, x: int)
    requires Chain(g, pools) && p in g && g[p].size != 0
    requires Next(g, p) in g && g[Next(g, p)].size != 0 && Next(g, Next(g, p)) in g
    requires x in Absorb(g, p)
    ensures BlockOk(Absorb(g, p), pools, x)
  {
    assert BlockOk(g, pools, p) && BlockOk(g, pools, Next(g, p));
    assert BlockOk(g, pools, x);
    assert PoolOk(g, pools, g[p].pool);
  }
}

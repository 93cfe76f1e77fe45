/**
 What `block_trim_used` writes when it is told to keep 0 bytes of a live block:
 `tlsf_realloc` does so for every size the request limit refuses.
 */
module TlsfRefused {
  import opened TlsfMapping
  import opened TlsfHeap
  import opened TlsfMemory
  import opened TlsfLists
  import opened TlsfBlocks

  /** The words after the split at 0: b has no payload left, and what was its
      payload is a free block 8 bytes later. */
  ghost predicate Emptied(m: Mem, m': Mem, g: Heap, p: set<int>, b: int)
    requires b in g && Next(g, b) in g && g[b].size >= OVERHEAD
  {
    var n := Next(g, b);
    && m'(b + 8) == HeaderWord(0, false, b in p)
    && m'(b + 16) == HeaderWord(g[b].size - OVERHEAD, true, false)
    && m'(n) == Ptr(b + 8) && m'(n + 8) == HeaderWord(g[n].size, g[n].free, true)
    && forall a :: a != b + 8 && a != b + 16 && a != n && a != n + 8 ==> m'(a) == m(a)
  }

  lemma EmptyWrites(m: Mem, g: Heap, pools: seq<Pool>, p: set<int>, b: int)
    requires Chain(g, pools) && Headers(m, g, p) && IsLive(g, b) && g[b].size >= HEADER
    ensures Next(g, b) in g && Emptied(m, TrimUsedMem(m, b, 0), g, p, b)
  {
    NextFar(g, pools, b);
    assert HeaderOk(m, g, p, b) && HeaderOk(m, g, p, Next(g, b));
  }

  /** No list link is kept in the headers of b, of what follows it, or in b. */
  predicate LinksAway(b: int, n: int, c: int) {
    (c + HEADER <= b + 8 || n + 8 <= c + 16) && c + 16 != n + 8 && c + 24 != n + 8
  }

  lemma Away(g: Heap, pools: seq<Pool>, nul: int, b: int, c: int)
    requires Chain(g, pools) && NullApart(g, nul) && IsLive(g, b) && (c == nul || IsFree(g, c))
    ensures Next(g, b) in g && LinksAway(b, Next(g, b), c)
  {
    NextFar(g, pools, b);
    var n := Next(g, b);
    if c != nul {
      assert BlockOk(g, pools, c) && Apart(g, b, c) && Apart(g, c, b) && Apart(g, c, n) && Apart(g, n, c);
    }
  }

  lemma EmptiedLists(m: Mem, m': Mem, k: Control, g: Heap, pools: seq<Pool>, p: set<int>, st: Listed, b: int)
    requires Chain(g, pools) && NullApart(g, k.nul) && IsLive(g, b) && g[b].size >= HEADER && ListedIn(g, st)
    requires Next(g, b) in g && Emptied(m, m', g, p, b) && Lists(m, k, st)
    ensures Lists(m', k, st)
  {
    forall c | c in st ensures m'(c + 16) == m(c + 16) && m'(c + 24) == m(c + 24) { Away(g, pools, k.nul, b, c); }
    ListsFrame(m, m', k, st);
  }

  /** Taking the block behind b off its list writes none of those headers. */
  lemma UnlinkAway(m: Mem, k: Control, g: Heap, pools: seq<Pool>, st: Listed, b: int)
    requires Chain(g, pools) && NullApart(g, k.nul) && IsLive(g, b) && ListedIn(g, st)
    requires Next(g, b) in st && Lists(m, k, st)
    ensures var m', n := Unlink(m, Next(g, b)), Next(g, b);
            m'(b + 8) == m(b + 8) && m'(b + 16) == m(b + 16) && m'(n + 8) == m(n + 8)
  {
    NextFar(g, pools, b);
    var n := Next(g, b);
    assert NodeOk(m, k, st, n);
    Away(g, pools, k.nul, b, PrevFree(m, n));
    Away(g, pools, k.nul, b, NextFree(m, n));
  }

  /** Absorbing it moves no list head. */
  lemma AbsorbHead(m: Mem, k: Control, g: Heap, pools: seq<Pool>, st: Listed, b: int, c: Class)
    requires Chain(g, pools) && NullApart(g, k.nul) && IsLive(g, b) && ListedIn(g, st)
    requires k.Shaped() && c.InRange() && Heads(m, k, st) && IsFree(g, Next(g, b)) && Next(g, b) !in st
    requires g[b].size >= OVERHEAD && m(b + 16) == HeaderWord(g[b].size - OVERHEAD, true, false)
    requires SizeOf(m, Next(g, b)) == g[Next(g, b)].size
    ensures HeadOk(AbsorbMem(m, b + OVERHEAD, Next(g, b)), k, st, c)
  {
    NextFar(g, pools, b);
    var n, h := Next(g, b), k.Head(c);
    assert BlockOk(g, pools, n);
    NextFar(g, pools, n);
    assert HeadOk(m, k, st, c);
    if h != k.nul {
      Away(g, pools, k.nul, b, h);
      assert BlockOk(g, pools, h) && Apart(g, h, n) && Apart(g, n, h);
    }
  }

  /** Unlinking and absorbing the block n behind b leaves lists of all the others,
      and behind b one free block of both sizes. */
  lemma AbsorbLists(m: Mem, k: Control, g: Heap, pools: seq<Pool>, st: Listed, b: int)
    requires Chain(g, pools) && NullApart(g, k.nul) && IsLive(g, b) && ListedIn(g, st)
    requires Next(g, b) in st && Lists(m, k, st) && Spaced(st, k.nul) && k.nul !in st
    requires g[b].size >= OVERHEAD && SizeOf(m, b) == 0 && m(b + 16) == HeaderWord(g[b].size - OVERHEAD, true, false)
    requires SizeOf(m, Next(g, b)) == g[Next(g, b)].size
    ensures st[Next(g, b)].cls.InRange()
    ensures var n := Next(g, b);
            var m', k' := AbsorbMem(Unlink(m, n), b + OVERHEAD, n), DropHead(k, n, NextFree(m, n), st[n].cls);
            && k'.Shaped() && k'.nul == k.nul && Heads(m', k', st - {n})
            && SizeOf(m', b) == 0 && m'(b + 16) == HeaderWord(g[b].size + g[n].size, true, false)
  {
    var n := Next(g, b);
    RemoveLists(m, k, st, n);
    var m1, k' := Unlink(m, n), DropHead(k, n, NextFree(m, n), st[n].cls);
    UnlinkAway(m, k, g, pools, st, b);
    forall c: Class | c.InRange() ensures HeadOk(AbsorbMem(m1, b + OVERHEAD, n), k', st - {n}, c) {
      AbsorbHead(m1, k', g, pools, st - {n}, b, c);
    }
  }

  /** The payload of b, but for its first word, has n bytes more behind it and
      heads a free list, while b itself has size 0. */
  ghost predicate GivenAway(m: Mem, k: Control, b: int, n: nat) {
    && SizeOf(m, b) == 0 && m(b + 16) == HeaderWord(n, true, false)
    && k.Shaped() && MappingInsert(n).InRange() && k.Head(MappingInsert(n)) == b + OVERHEAD
  }

  /** A block of that size has been given away while it was live. */
  ghost predicate PayloadLost(m: Mem, k: Control, b: int, size: nat) {
    exists n: nat :: size - OVERHEAD <= n && GivenAway(m, k, b, n)
  }

  lemma InsertGivesAway(m: Mem, k: Control, g: Heap, pools: seq<Pool>, st: Listed, b: int, n: nat)
    requires Chain(g, pools) && NullApart(g, k.nul) && IsLive(g, b) && ListedIn(g, st)
    requires k.Shaped() && Heads(m, k, st) && n < BLOCK_MAX
    requires SizeOf(m, b) == 0 && m(b + 16) == HeaderWord(n, true, false)
    ensures var c := MappingInsert(n);
            c.InRange() && GivenAway(LinkIn(m, k, b + OVERHEAD, c), PushHead(k, b + OVERHEAD, c), b, n)
  {
    MappingInsertBounds(n);
    var c := MappingInsert(n);
    assert HeadOk(m, k, st, c);
    Away(g, pools, k.nul, b, k.Head(c));
  }

  /** A block and the free block behind it fit in one size class. */
  lemma JoinedFits(g: Heap, pools: seq<Pool>, b: int)
    requires Chain(g, pools) && IsLive(g, b)
    ensures Next(g, b) in g && g[b].size + g[Next(g, b)].size < BLOCK_MAX
  {
    NextFar(g, pools, b);
    var n := Next(g, b);
    assert BlockOk(g, pools, b) && BlockOk(g, pools, n) && PoolOk(g, pools, g[b].pool);
  }
}

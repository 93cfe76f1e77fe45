/**
 The block_* functions of the TLSF heap that touch headers only, as functions on
 memory, and what each does to the chain: the flags and `prev_phys_block` links
 keep telling the truth about the neighbours.
 */
module TlsfBlocks {
  import opened TlsfMapping
  import opened TlsfHeap
  import opened TlsfMemory
  import opened TlsfLists

  function SizeOf(m: Mem, b: int): int { m(b + 8).base }

  /** `block_next`, from the size word alone. */
  function NextOf(m: Mem, b: int): int { b + OVERHEAD + SizeOf(m, b) }

  /** `block_link_next` */
  function LinkNext(m: Mem, b: int): Mem { Put(m, NextOf(m, b), Ptr(b)) }

  function PutSize(m: Mem, b: int, size: int): Mem { Put(m, b + 8, m(b + 8).(base := size)) }
  function PutFree(m: Mem, b: int): Mem { Put(m, b + 8, m(b + 8).(bit0 := true)) }
  function PutUsed(m: Mem, b: int): Mem { Put(m, b + 8, m(b + 8).(bit0 := false)) }
  function PutPrevFree(m: Mem, b: int): Mem { Put(m, b + 8, m(b + 8).(bit1 := true)) }
  function PutPrevUsed(m: Mem, b: int): Mem { Put(m, b + 8, m(b + 8).(bit1 := false)) }

  /** `block_mark_as_free` */
  function MarkFree(m: Mem, b: int): Mem { PutFree(PutPrevFree(LinkNext(m, b), NextOf(m, b)), b) }

  /** `block_mark_as_used` */
  function MarkUsed(m: Mem, b: int): Mem { PutUsed(PutPrevUsed(m, NextOf(m, b)), b) }

  /** `block_split`, whose remaining block starts at b + 8 + size.  Its size word
      is old payload, so both flags of it start out arbitrary. */
  function SplitMem(m: Mem, b: int, size: int): Mem {
    var r := b + OVERHEAD + size;
    var remain := SizeOf(m, b) - (size + OVERHEAD);
    MarkFree(PutSize(PutSize(m, r, remain), b, size), r)
  }

  /** `block_absorb` */
  function AbsorbMem(m: Mem, p: int, b: int): Mem {
    LinkNext(PutSize(m, p, SizeOf(m, p) + SizeOf(m, b) + OVERHEAD), p)
  }

  // ---- what is not written

  ghost predicate SameLinks(m: Mem, m': Mem, c: int) {
    m'(c + 16) == m(c + 16) && m'(c + 24) == m(c + 24)
  }

  /** Outside block x, no list link and no live payload word differs. */
  ghost predicate Quiet(m: Mem, m': Mem, g: Heap, st: Listed, x: int) {
    && (forall c {:trigger SameLinks(m, m', c)} :: c in st && c != x ==> SameLinks(m, m', c))
    && (forall c {:trigger SamePayload(m, m', g, c)} :: IsLive(g, c) && c != x ==> SamePayload(m, m', g, c))
  }

  /** Listed blocks are blocks of the heap, not live. */
  ghost predicate ListedIn(g: Heap, st: Listed) {
    forall c :: c in st ==> IsFree(g, c)
  }

  /** A block is at least 32 bytes after the start of the block before it. */
  lemma NextFar(g: Heap, pools: seq<Pool>, b: int)
    requires Chain(g, pools) && b in g && g[b].size != 0
    ensures Next(g, b) in g && Next(g, b) >= b + HEADER && g[Next(g, b)].prev == b != NONE
  {
    assert BlockOk(g, pools, b);
  }

  /** The `prev_phys_block` word of c is no size word. */
  lemma PhysWordApart(g: Heap, pools: seq<Pool>, c: int, x: int)
    requires Chain(g, pools) && c in g && x in g && g[c].prev != NONE
    ensures c != x + 8
  {
    assert BlockOk(g, pools, c);
    var p := g[c].prev;
    assert BlockOk(g, pools, p);
    assert Apart(g, p, x) && Apart(g, x, p);
  }

  // ---- the words each operation writes

  ghost predicate MarkedFree(m: Mem, m': Mem, g: Heap, p: set<int>, b: int)
    requires b in g && Next(g, b) in g
  {
    var n := Next(g, b);
    && m'(n) == Ptr(b)
    && m'(n + 8) == HeaderWord(g[n].size, g[n].free, true)
    && m'(b + 8) == HeaderWord(g[b].size, true, b in p)
    && forall a :: a != n && a != n + 8 && a != b + 8 ==> m'(a) == m(a)
  }

  ghost predicate MarkedUsed(m: Mem, m': Mem, g: Heap, p: set<int>, b: int)
    requires b in g && Next(g, b) in g
  {
    var n := Next(g, b);
    && m'(n + 8) == HeaderWord(g[n].size, g[n].free, false)
    && m'(b + 8) == HeaderWord(g[b].size, false, b in p)
    && forall a :: a != n + 8 && a != b + 8 ==> m'(a) == m(a)
  }

  ghost predicate Absorbed(m: Mem, m': Mem, g: Heap, p: set<int>, b: int)
    requires b in g && Next(g, b) in g && Next(g, Next(g, b)) in g
  {
    var n := Next(g, b);
    && m'(b + 8) == HeaderWord(g[b].size + g[n].size + OVERHEAD, g[b].free, b in p)
    && m'(Next(g, n)) == Ptr(b)
    && forall a :: a != b + 8 && a != Next(g, n) ==> m'(a) == m(a)
  }

  lemma MarkFreeWrites(m: Mem, g: Heap, pools: seq<Pool>, p: set<int>, b: int)
    requires Chain(g, pools) && Headers(m, g, p)
    requires b in g && g[b].size != 0
    ensures Next(g, b) in g && MarkedFree(m, MarkFree(m, b), g, p, b)
  {
    NextFar(g, pools, b);
    assert HeaderOk(m, g, p, b) && HeaderOk(m, g, p, Next(g, b));
  }

  lemma MarkUsedWrites(m: Mem, g: Heap, pools: seq<Pool>, p: set<int>, b: int)
    requires Chain(g, pools) && Headers(m, g, p)
    requires b in g && g[b].size != 0
    ensures Next(g, b) in g && MarkedUsed(m, MarkUsed(m, b), g, p, b)
  {
    NextFar(g, pools, b);
    assert HeaderOk(m, g, p, b) && HeaderOk(m, g, p, Next(g, b));
  }

  lemma AbsorbWrites(m: Mem, g: Heap, pools: seq<Pool>, p: set<int>, b: int)
    requires Chain(g, pools) && Headers(m, g, p)
    requires b in g && g[b].size != 0 && Next(g, b) in g && g[Next(g, b)].size != 0
    ensures Next(g, Next(g, b)) in g && Absorbed(m, AbsorbMem(m, b, Next(g, b)), g, p, b)
  {
    NextFar(g, pools, Next(g, b));
    assert HeaderOk(m, g, p, b) && HeaderOk(m, g, p, Next(g, b));
  }

  // ---- each keeps the headers true

  lemma MarkedFreeAt(m: Mem, m': Mem, g: Heap, pools: seq<Pool>, b: int, c: int)
    requires Chain(g, pools) && Headers(m, g, PrevFreeSet(g)) && Linked(m, g)
    requires b in g && g[b].size != 0 && Next(g, b) in g && c in g
    requires MarkedFree(m, m', g, PrevFreeSet(g), b)
    ensures HeaderOk(m', SetFree(g, b, true), PrevFreeSet(SetFree(g, b, true)), c)
    ensures LinkOk(m', SetFree(g, b, true), c)
  {
    var n := Next(g, b);
    NextFar(g, pools, b);
    PhysWordApart(g, pools, n, c);
    if g[c].prev != NONE { PhysWordApart(g, pools, c, b); PhysWordApart(g, pools, c, n); }
    assert HeaderOk(m, g, PrevFreeSet(g), c) && LinkOk(m, g, c) && BlockOk(g, pools, c);
  }

  lemma MarkedUsedAt(m: Mem, m': Mem, g: Heap, pools: seq<Pool>, p: set<int>, b: int, c: int)
    requires Chain(g, pools) && Headers(m, g, p) && Linked(m, g)
    requires b in g && g[b].size != 0 && Next(g, b) in g && c in g
    requires p - {Next(g, b)} == PrevFreeSet(SetFree(g, b, false))
    requires MarkedUsed(m, m', g, p, b)
    ensures HeaderOk(m', SetFree(g, b, false), PrevFreeSet(SetFree(g, b, false)), c)
    ensures LinkOk(m', SetFree(g, b, false), c)
  {
    if g[c].prev != NONE { PhysWordApart(g, pools, c, b); PhysWordApart(g, pools, c, Next(g, b)); }
    assert HeaderOk(m, g, p, c) && LinkOk(m, g, c) && BlockOk(g, pools, c);
    assert c in p - {Next(g, b)} <==> c in p && c != Next(g, b);
  }

  lemma AbsorbedAt(m: Mem, m': Mem, g: Heap, pools: seq<Pool>, p: set<int>, b: int, c: int)
    requires Chain(g, pools) && Headers(m, g, p) && Linked(m, g)
    requires b in g && g[b].size != 0 && Next(g, b) in g && g[Next(g, b)].size != 0 && Next(g, Next(g, b)) in g
    requires c in Absorb(g, b) && Absorbed(m, m', g, p, b)
    ensures HeaderOk(m', Absorb(g, b), p - {Next(g, b)}, c)
    ensures LinkOk(m', Absorb(g, b), c)
  {
    var n := Next(g, b);
    var nn := Next(g, n);
    NextFar(g, pools, n);
    PhysWordApart(g, pools, nn, c);
    if g[c].prev != NONE { PhysWordApart(g, pools, c, b); }
    assert HeaderOk(m, g, p, c) && LinkOk(m, g, c) && BlockOk(g, pools, c);
    assert BlockOk(g, pools, b);
  }

  lemma MarkFreeOk(m: Mem, g: Heap, pools: seq<Pool>, b: int)
    requires Chain(g, pools) && Headers(m, g, PrevFreeSet(g)) && Linked(m, g)
    requires b in g && g[b].size != 0
    ensures var h := SetFree(g, b, true);
            Headers(MarkFree(m, b), h, PrevFreeSet(h)) && Linked(MarkFree(m, b), h)
  {
    var h, m' := SetFree(g, b, true), MarkFree(m, b);
    MarkFreeWrites(m, g, pools, PrevFreeSet(g), b);
    forall c | c in h ensures HeaderOk(m', h, PrevFreeSet(h), c) && LinkOk(m', h, c) {
      MarkedFreeAt(m, m', g, pools, b, c);
    }
  }

  /** `p` may also hold the flag of the block after one just merged into b. */
  lemma MarkUsedOk(m: Mem, g: Heap, pools: seq<Pool>, p: set<int>, b: int)
    requires Chain(g, pools) && Headers(m, g, p) && Linked(m, g)
    requires b in g && g[b].size != 0
    requires p - {Next(g, b)} == PrevFreeSet(SetFree(g, b, false))
    ensures var h := SetFree(g, b, false);
            Headers(MarkUsed(m, b), h, PrevFreeSet(h)) && Linked(MarkUsed(m, b), h)
  {
    var h, m' := SetFree(g, b, false), MarkUsed(m, b);
    MarkUsedWrites(m, g, pools, p, b);
    forall c | c in h ensures HeaderOk(m', h, PrevFreeSet(h), c) && LinkOk(m', h, c) {
      MarkedUsedAt(m, m', g, pools, p, b, c);
    }
  }

  lemma AbsorbOk(m: Mem, g: Heap, pools: seq<Pool>, p: set<int>, b: int)
    requires Chain(g, pools) && Headers(m, g, p) && Linked(m, g)
    requires b in g && g[b].size != 0 && Next(g, b) in g && g[Next(g, b)].size != 0
    ensures Next(g, Next(g, b)) in g
    ensures var h, m' := Absorb(g, b), AbsorbMem(m, b, Next(g, b));
            Headers(m', h, p - {Next(g, b)}) && Linked(m', h)
  {
    AbsorbWrites(m, g, pools, p, b);
    var h, m' := Absorb(g, b), AbsorbMem(m, b, Next(g, b));
    forall c | c in h ensures HeaderOk(m', h, p - {Next(g, b)}, c) && LinkOk(m', h, c) {
      AbsorbedAt(m, m', g, pools, p, b, c);
    }
  }

  // ---- splitting

  /** `block_split` and then `block_link_next`, `block_set_prev_free`. */
  function TrimFreeMem(m: Mem, b: int, size: int): Mem {
    PutPrevFree(LinkNext(SplitMem(m, b, size), b), b + OVERHEAD + size)
  }

  /** The same three steps as `block_trim_free_leading` orders them. */
  function TrimLeadingMem(m: Mem, b: int, size: int): Mem {
    LinkNext(PutPrevFree(SplitMem(m, b, size), b + OVERHEAD + size), b)
  }

  /** `block_split` and then `block_set_prev_used`. */
  function TrimUsedMem(m: Mem, b: int, size: int): Mem {
    PutPrevUsed(SplitMem(m, b, size), b + OVERHEAD + size)
  }

  /** What all three leave behind: the header of the remaining block tells
      whether b is free, and links back to b if it is. */
  ghost predicate SplitDone(m: Mem, m': Mem, g: Heap, p: set<int>, b: int, size: nat)
    requires b in g && Next(g, b) in g && size + OVERHEAD <= g[b].size
  {
    var r, n := b + OVERHEAD + size, Next(g, b);
    && m'(b + 8) == HeaderWord(size, g[b].free, b in p)
    && m'(r + 8) == HeaderWord(g[b].size - size - OVERHEAD, true, g[b].free)
    && m'(r) == (if g[b].free then Ptr(b) else m(r))
    && m'(n) == Ptr(r)
    && m'(n + 8) == HeaderWord(g[n].size, g[n].free, true)
    && forall a :: a != b + 8 && a != r + 8 && a != r && a != n && a != n + 8 ==> m'(a) == m(a)
  }

  ghost predicate CanSplit(g: Heap, b: int, size: nat) {
    b in g && size % ALIGN_SIZE == 0 && BLOCK_MIN <= size && size + HEADER <= g[b].size
  }

  lemma TrimWrites(m: Mem, g: Heap, pools: seq<Pool>, p: set<int>, b: int, size: nat)
    requires Chain(g, pools) && Headers(m, g, p) && CanSplit(g, b, size)
    ensures Next(g, b) in g
    ensures g[b].free ==> SplitDone(m, TrimFreeMem(m, b, size), g, p, b, size)
    ensures g[b].free ==> SplitDone(m, TrimLeadingMem(m, b, size), g, p, b, size)
    ensures !g[b].free ==> SplitDone(m, TrimUsedMem(m, b, size), g, p, b, size)
  {
    NextFar(g, pools, b);
    assert HeaderOk(m, g, p, b) && HeaderOk(m, g, p, Next(g, b));
  }

  lemma SplitDoneAt(m: Mem, m': Mem, g: Heap, pools: seq<Pool>, b: int, size: nat, c: int)
    requires Chain(g, pools) && Headers(m, g, PrevFreeSet(g)) && Linked(m, g)
    requires CanSplit(g, b, size) && Next(g, b) in g && c in Split(g, b, size)
    requires SplitDone(m, m', g, PrevFreeSet(g), b, size)
    ensures HeaderOk(m', Split(g, b, size), PrevFreeSet(Split(g, b, size)), c)
    ensures LinkOk(m', Split(g, b, size), c)
  {
    var r, n := b + OVERHEAD + size, Next(g, b);
    NextFar(g, pools, b);
    SplitChain(g, pools, b, size);
    assert r != NONE by { assert BlockOk(g, pools, b); }
    if c != r {
      PhysWordApart(g, pools, n, c);
      assert Apart(g, b, c) && Apart(g, c, b);
      if g[c].prev != NONE { PhysWordApart(g, pools, c, b); PhysWordApart(g, pools, c, n); }
      assert HeaderOk(m, g, PrevFreeSet(g), c) && LinkOk(m, g, c) && BlockOk(g, pools, c);
    }
  }

  lemma SplitOk(m: Mem, m': Mem, g: Heap, pools: seq<Pool>, b: int, size: nat)
    requires Chain(g, pools) && Headers(m, g, PrevFreeSet(g)) && Linked(m, g)
    requires CanSplit(g, b, size) && Next(g, b) in g && SplitDone(m, m', g, PrevFreeSet(g), b, size)
    ensures var h := Split(g, b, size); Headers(m', h, PrevFreeSet(h)) && Linked(m', h)
  {
    var h := Split(g, b, size);
    forall c | c in h ensures HeaderOk(m', h, PrevFreeSet(h), c) && LinkOk(m', h, c) {
      SplitDoneAt(m, m', g, pools, b, size, c);
    }
  }

  // ---- what each leaves alone

  lemma MarkedFreeQuiet(m: Mem, m': Mem, g: Heap, pools: seq<Pool>, p: set<int>, st: Listed, b: int)
    requires Chain(g, pools) && ListedIn(g, st) && b in g && g[b].size != 0 && Next(g, b) in g
    requires MarkedFree(m, m', g, p, b)
    ensures Quiet(m, m', g, st, b)
  {
    var n := Next(g, b);
    forall y | y in st && y != b ensures SameLinks(m, m', y) {
      assert Apart(g, y, b) && Apart(g, b, y) && Apart(g, y, n) && Apart(g, n, y) && BlockOk(g, pools, y);
    }
    forall y | IsLive(g, y) && y != b ensures SamePayload(m, m', g, y) {
      assert Apart(g, y, b) && Apart(g, b, y) && Apart(g, y, n) && Apart(g, n, y);
    }
  }

  lemma MarkedUsedQuiet(m: Mem, m': Mem, g: Heap, pools: seq<Pool>, p: set<int>, st: Listed, b: int)
    requires Chain(g, pools) && ListedIn(g, st) && b in g && g[b].size != 0 && Next(g, b) in g
    requires MarkedUsed(m, m', g, p, b)
    ensures Quiet(m, m', g, st, NONE)
  {
    var n := Next(g, b);
    forall y | y in st ensures SameLinks(m, m', y) {
      assert Apart(g, y, b) && Apart(g, b, y) && Apart(g, y, n) && Apart(g, n, y) && BlockOk(g, pools, y);
    }
    forall y | IsLive(g, y) ensures SamePayload(m, m', g, y) {
      assert Apart(g, y, b) && Apart(g, b, y) && Apart(g, y, n) && Apart(g, n, y);
    }
  }

  lemma AbsorbedQuiet(m: Mem, m': Mem, g: Heap, pools: seq<Pool>, p: set<int>, st: Listed, b: int)
    requires Chain(g, pools) && ListedIn(g, st) && b in g && g[b].size != 0
    requires Next(g, b) in g && g[Next(g, b)].size != 0 && Next(g, Next(g, b)) in g
    requires Next(g, b) !in st && Absorbed(m, m', g, p, b)
    ensures Quiet(m, m', g, st, Next(g, b))
  {
    var n := Next(g, b);
    forall y | y in st && y != n ensures SameLinks(m, m', y) {
      assert Apart(g, y, b) && Apart(g, b, y) && Apart(g, y, n) && Apart(g, n, y) && BlockOk(g, pools, y);
    }
    forall y | IsLive(g, y) && y != n ensures SamePayload(m, m', g, y) {
      assert Apart(g, y, b) && Apart(g, b, y) && Apart(g, y, n) && Apart(g, n, y);
    }
  }

  lemma SplitQuiet(m: Mem, m': Mem, g: Heap, pools: seq<Pool>, p: set<int>, st: Listed, b: int, size: nat)
    requires Chain(g, pools) && ListedIn(g, st) && CanSplit(g, b, size) && Next(g, b) in g
    requires SplitDone(m, m', g, p, b, size)
    ensures Quiet(m, m', g, st, b)
    ensures !g[b].free ==> forall a :: b + 16 <= a < b + 16 + size ==> m'(a) == m(a)
  {
    var n := Next(g, b);
    forall y | y in st && y != b ensures SameLinks(m, m', y) {
      assert Apart(g, y, b) && Apart(g, b, y) && Apart(g, y, n) && Apart(g, n, y) && BlockOk(g, pools, y);
    }
    forall y | IsLive(g, y) && y != b ensures SamePayload(m, m', g, y) {
      assert Apart(g, y, b) && Apart(g, b, y) && Apart(g, y, n) && Apart(g, n, y);
    }
  }
}

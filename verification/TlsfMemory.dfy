/**
 Memory under the TLSF heap: 64-bit words by byte address.  A block header is
 one word, size and flags packed together; the word before it, `prev_phys_block`,
 is the last payload word of the block before.
 */
module TlsfMemory {
  import opened TlsfMapping
  import opened TlsfHeap

  /** A 64-bit word as the two flag bits at its low end and the rest, `base`,
      which is the word with those two bits cleared. */
  datatype Word = Word(base: int, bit0: bool, bit1: bool) {
    function Value(): int { base + (if bit0 then 1 else 0) + (if bit1 then 2 else 0) }
  }

  /** A stored pointer: addresses are multiples of 8. */
  function Ptr(a: int): Word { Word(a, false, false) }

  /** The address space, one word at every 8-aligned address. */
  type Mem = int -> Word

  /** A store. */
  function Put(m: Mem, a: int, v: Word): Mem { x => if x == a then v else m(x) }

  /** A size word: bit 0 says the block is free, bit 1 that the one before is. */
  function HeaderWord(size: nat, free: bool, prevFree: bool): Word { Word(size, free, prevFree) }

  /** The size word of b holds its size and flags; the set `p` says for which
      blocks the previous-free flag is up. */
  predicate HeaderOk(m: Mem, g: Heap, p: set<int>, b: int)
    requires b in g
  {
    m(b + 8) == HeaderWord(g[b].size, g[b].free, b in p)
  }

  /** Behind a free block, `prev_phys_block` points to it. */
  predicate LinkOk(m: Mem, g: Heap, b: int)
    requires b in g
  {
    PrevIsFree(g, b) ==> m(b) == Ptr(g[b].prev)
  }

  ghost predicate Headers(m: Mem, g: Heap, p: set<int>) {
    forall b {:trigger HeaderOk(m, g, p, b)} :: b in g ==> HeaderOk(m, g, p, b)
  }

  ghost predicate Linked(m: Mem, g: Heap) {
    forall b {:trigger LinkOk(m, g, b)} :: b in g ==> LinkOk(m, g, b)
  }

  // ---- what a client sees

  /** The payload of c is the same in both memories. */
  ghost predicate SamePayload(m: Mem, m': Mem, g: Heap, c: int)
    requires c in g
  {
    forall a :: c + 16 <= a < c + 16 + g[c].size ==> m'(a) == m(a)
  }

  /** No word of a live payload differs. */
  ghost predicate KeepsLive(m: Mem, m': Mem, g: Heap) {
    forall c {:trigger SamePayload(m, m', g, c)} :: IsLive(g, c) ==> SamePayload(m, m', g, c)
  }

  /** The block_null of the control structure lies outside every block. */
  ghost predicate NullApart(g: Heap, nul: int) {
    && nul != 0 && nul % ALIGN_SIZE == 0
    && forall b :: b in g ==> nul + HEADER <= b + 8 || b + 16 + g[b].size <= nul
  }

  /** Every write the allocator makes goes to the size word of some block or
      into the payload of a block that is not live; such a write changes no live
      payload. */
  lemma WriteKeepsLive(m: Mem, g: Heap, pools: seq<Pool>, c: int, a: int, v: Word)
    requires Chain(g, pools) && c in g && c + 8 <= a < c + 16 + g[c].size
    requires a == c + 8 || !IsLive(g, c)
    ensures KeepsLive(m, Put(m, a, v), g)
  {
    forall x | IsLive(g, x) ensures SamePayload(m, Put(m, a, v), g, x) {
      assert Apart(g, x, c) && Apart(g, c, x);
    }
  }

  lemma NullWriteKeepsLive(m: Mem, g: Heap, nul: int, a: int, v: Word)
    requires NullApart(g, nul) && nul <= a < nul + HEADER
    ensures KeepsLive(m, Put(m, a, v), g)
  {
    forall x | IsLive(g, x) ensures SamePayload(m, Put(m, a, v), g, x) {}
  }

  lemma KeepsLiveTransitive(m: Mem, m': Mem, m'': Mem, g: Heap)
    requires KeepsLive(m, m', g) && KeepsLive(m', m'', g)
    ensures KeepsLive(m, m'', g)
  {
    forall x | IsLive(g, x) ensures SamePayload(m, m'', g, x) {
      assert SamePayload(m, m', g, x) && SamePayload(m', m'', g, x);
    }
  }

  /** The two list links of a block are payload words no header or
      `prev_phys_block` overlaps. */
  lemma LinkWriteKeepsHeaders(m: Mem, g: Heap, pools: seq<Pool>, p: set<int>, c: int, a: int, v: Word)
    requires Chain(g, pools) && Headers(m, g, p) && Linked(m, g)
    requires c in g && g[c].size != 0 && (a == c + 16 || a == c + 24)
    ensures Headers(Put(m, a, v), g, p) && Linked(Put(m, a, v), g)
  {
    assert BlockOk(g, pools, c);
    forall b | b in g ensures HeaderOk(Put(m, a, v), g, p, b) && LinkOk(Put(m, a, v), g, b) {
      assert HeaderOk(m, g, p, b) && LinkOk(m, g, b);
      assert Apart(g, b, c) && Apart(g, c, b);
    }
  }

  lemma NullWriteKeepsHeaders(m: Mem, g: Heap, pools: seq<Pool>, p: set<int>, nul: int, a: int, v: Word)
    requires Chain(g, pools) && Headers(m, g, p) && Linked(m, g)
    requires NullApart(g, nul) && nul + 8 < a < nul + HEADER
    ensures Headers(Put(m, a, v), g, p) && Linked(Put(m, a, v), g)
  {
    forall b | b in g ensures HeaderOk(Put(m, a, v), g, p, b) && LinkOk(Put(m, a, v), g, b) {
      assert HeaderOk(m, g, p, b) && LinkOk(m, g, b);
      assert BlockOk(g, pools, b);
    }
  }

  // ---- payloads by address and length

  ghost predicate Same(m: Mem, m': Mem, c: int, n: nat) {
    forall a :: c + 16 <= a < c + 16 + n ==> m'(a) == m(a)
  }

  /** No payload of the blocks in `live` differs. */
  ghost predicate KeepsBytes(m: Mem, m': Mem, live: map<int, nat>) {
    forall c {:trigger Same(m, m', c, live[c])} :: c in live ==> Same(m, m', c, live[c])
  }

  lemma KeepsBytesTransitive(m: Mem, m': Mem, m'': Mem, live: map<int, nat>)
    requires KeepsBytes(m, m', live) && KeepsBytes(m', m'', live)
    ensures KeepsBytes(m, m'', live)
  {
    forall c | c in live ensures Same(m, m'', c, live[c]) {
      assert Same(m, m', c, live[c]) && Same(m', m'', c, live[c]);
    }
  }

  lemma KeepsBytesFewer(m: Mem, m': Mem, live: map<int, nat>, less: map<int, nat>)
    requires KeepsBytes(m, m', live)
    requires forall c :: c in less ==> c in live && less[c] <= live[c]
    ensures KeepsBytes(m, m', less)
  {
    forall c | c in less ensures Same(m, m', c, less[c]) { assert Same(m, m', c, live[c]); }
  }
}

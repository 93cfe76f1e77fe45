/**
 Whole runs of the TLSF heap.  Clients see independent byte arrays: whatever
 they request, store, resize and release, in any order, every byte they stored
 is still there.
 */
module TlsfRun {
  import opened Bits
  import opened TlsfMapping
  import opened TlsfHeap
  import opened TlsfMemory
  import opened TlsfAlign
  import opened TlsfBlocks
  import opened TlsfSteps
  import opened TlsfBytes
  import opened TlsfPool
  import opened TlsfWalk
  import opened Tlsf
  import opened TlsfAudit

  datatype Option<+T> = None | Some(value: T)

  /** A byte of an allocation: unknown until the client stores one. */
  type Cell = Option<nat>

  /** The reference model: each pointer owns an array of the requested length. */
  type Arrays = map<int, seq<Cell>>

  datatype Op =
    | AddPool(base: nat, bytes: nat)
    | Malloc(size: nat)
    | Memalign(align: nat, size: nat)
    | Free(ptr: int)
    | Realloc(ptr: int, size: nat)
    | Store(ptr: int, index: nat, byte: nat)

  /** The requests after which the heap is still a heap: a new pool lies in the address
      space beside the others, an alignment passes the test for powers of two, a
      resize is not refused, and pointers are ones the heap gave out. */
  predicate Legal(op: Op, arrays: Arrays, pools: seq<Pool>, nul: int) {
    match op
    case AddPool(base, bytes) =>
      && bytes < WORD_SPAN && HEADER <= base && base + bytes <= WORD_SPAN
      && bytes - 2 * OVERHEAD - bytes % ALIGN_SIZE != BLOCK_MAX
      && (nul + HEADER <= base || base + bytes <= nul)
      && forall i :: 0 <= i < |pools| ==> pools[i].end + 16 <= base || base + bytes <= pools[i].start + 8
    case Malloc(size) => size < WORD_SPAN
    case Memalign(align, size) => align < WORD_SPAN && Alignment(align) && size < WORD_SPAN
    case Free(ptr) => ptr == 0 || ptr in arrays
    case Realloc(ptr, size) =>
      size < WORD_SPAN && (ptr == 0 || (ptr in arrays && (size == 0 || Request(size) != 0)))
    case Store(ptr, index, byte) => ptr in arrays && index < |arrays[ptr]| && byte < 256
  }

  function Fresh(n: nat): (s: seq<Cell>)
    ensures |s| == n && forall i :: 0 <= i < n ==> s[i] == None
  {
    seq(n, _ => None)
  }

  /** The bytes a request can count on: those asked for, except that within 7 bytes of
      2^64 the size wraps and the smallest block comes out. */
  function Granted(size: nat): nat { if size > WORD_SPAN - ALIGN_SIZE then BLOCK_MIN else size }

  lemma GrantedFits(size: nat)
    requires size < WORD_SPAN
    ensures Request(size) != 0 ==> Granted(size) <= Request(size) && Granted(size) <= size
  {
    RequestCovers(size);
  }

  /** The array after `realloc`: cut off or extended by unknown bytes. */
  function Resized(s: seq<Cell>, n: nat): (r: seq<Cell>)
    ensures |r| == n
  {
    if n <= |s| then s[..n] else s + Fresh(n - |s|)
  }

  /** The memory at ptr holds the known bytes of the array. */
  ghost predicate Holds(m: Mem, ptr: int, s: seq<Cell>) {
    forall i :: 0 <= i < |s| && s[i].Some? ==> Byte(m, ptr + i) == s[i].value
  }

  ghost predicate ArrayOk(m: Mem, live: map<int, nat>, ptr: int, s: seq<Cell>) {
    ptr - 16 in live && |s| <= live[ptr - 16] && Holds(m, ptr, s)
  }

  /** The heap implements the arrays: they are its live blocks, large enough and
      with the stored bytes in place. */
  ghost predicate Implements(m: Mem, live: map<int, nat>, arrays: Arrays) {
    && (forall p {:trigger ArrayOk(m, live, p, arrays[p])} :: p in arrays ==> ArrayOk(m, live, p, arrays[p]))
    && (forall b {:trigger b in live} :: b in live ==> b + 16 in arrays)
  }

  /** Every array is 8-aligned and inside a pool. */
  lemma ArrayPlaced(a: Allocator, arrays: Arrays, p: int)
    requires a.Valid() && Implements(a.mem, Live(a.g), arrays) && p in arrays
    ensures p % ALIGN_SIZE == 0
    ensures exists i :: 0 <= i < |a.pools| && a.pools[i].start + 16 <= p && p + |arrays[p]| <= a.pools[i].end + 8
  {
    assert ArrayOk(a.mem, Live(a.g), p, arrays[p]);
    assert BlockOk(a.g, a.pools, p - 16);
  }

  /** Distinct arrays never share a byte. */
  lemma ArraysApart(a: Allocator, arrays: Arrays, p: int, q: int)
    requires a.Valid() && Implements(a.mem, Live(a.g), arrays) && p in arrays && q in arrays && p != q
    ensures p + |arrays[p]| <= q || q + |arrays[q]| <= p
  {
    assert ArrayOk(a.mem, Live(a.g), p, arrays[p]) && ArrayOk(a.mem, Live(a.g), q, arrays[q]);
    assert Apart(a.g, p - 16, q - 16) && Apart(a.g, q - 16, p - 16);
  }

  // ---- how each kind of change keeps the implementation

  ghost predicate AlignedBlocks(live: map<int, nat>) {
    forall b {:trigger b in live} :: b in live ==> b % 8 == 0
  }

  lemma LiveAligned(g: Heap, pools: seq<Pool>)
    requires Chain(g, pools)
    ensures AlignedBlocks(Live(g))
  {
    forall b | b in Live(g) ensures b % 8 == 0 { assert BlockOk(g, pools, b); }
  }

  lemma HoldsKept(m: Mem, m': Mem, b: int, n: nat, s: seq<Cell>)
    requires b % 8 == 0 && |s| <= n && Same(m, m', b, n) && Holds(m, b + 16, s)
    ensures Holds(m', b + 16, s)
  {
    SameCopied(m, m', b, n, |s|);
    forall i | 0 <= i < |s| && s[i].Some? ensures Byte(m', b + 16 + i) == s[i].value {
      assert Byte(m', b + 16 + i) == Byte(m, b + 16 + i);
    }
  }

  lemma ArrayKept(m: Mem, m': Mem, live: map<int, nat>, p: int, s: seq<Cell>)
    requires ArrayOk(m, live, p, s) && AlignedBlocks(live) && KeepsBytes(m, m', live)
    ensures ArrayOk(m', live, p, s)
  {
    assert Same(m, m', p - 16, live[p - 16]);
    HoldsKept(m, m', p - 16, live[p - 16], s);
  }

  lemma Kept(m: Mem, m': Mem, live: map<int, nat>, arrays: Arrays)
    requires Implements(m, live, arrays) && AlignedBlocks(live) && KeepsBytes(m, m', live)
    ensures Implements(m', live, arrays)
  {
    forall p | p in arrays ensures ArrayOk(m', live, p, arrays[p]) {
      assert ArrayOk(m, live, p, arrays[p]);
      ArrayKept(m, m', live, p, arrays[p]);
    }
  }

  /** One more block, holding a given array; the rest as before. */
  lemma Added(m: Mem, live: map<int, nat>, arrays: Arrays, p: int, n: nat, s: seq<Cell>)
    requires Implements(m, live, arrays) && p - 16 !in live && |s| <= n && Holds(m, p, s)
    ensures p !in arrays && Implements(m, live[p - 16 := n], arrays[p := s])
  {
    assert p in arrays ==> ArrayOk(m, live, p, arrays[p]);
    var arrays', live' := arrays[p := s], live[p - 16 := n];
    forall q | q in arrays' ensures ArrayOk(m, live', q, arrays'[q]) {
      if q != p { assert ArrayOk(m, live, q, arrays[q]); }
    }
  }

  lemma Dropped(m: Mem, live: map<int, nat>, arrays: Arrays, p: int)
    requires Implements(m, live, arrays)
    ensures Implements(m, live - {p - 16}, arrays - {p})
  {
    var arrays', live' := arrays - {p}, live - {p - 16};
    forall q | q in arrays' ensures ArrayOk(m, live', q, arrays'[q]) {
      assert ArrayOk(m, live, q, arrays[q]);
    }
  }

  lemma FreshHolds(m: Mem, p: int, n: nat)
    ensures Holds(m, p, Fresh(n))
  {}

  // ---- the operations against the reference

  /** What a request does to the arrays when it returns p. */
  ghost predicate Step(op: Op, arrays: Arrays, p: int, arrays': Arrays) {
    match op
    case AddPool(_, _) => arrays' == arrays
    case Malloc(size) => Obtained(Granted(size), arrays, p, arrays')
    case Memalign(align, size) => ObtainedAt(align, Granted(size), arrays, p, arrays')
    case Free(ptr) => arrays' == arrays - {ptr}
    case Realloc(ptr, size) =>
      if ptr == 0 then Obtained(Granted(size), arrays, p, arrays')
      else if ptr !in arrays then false
      else if size == 0 then p == 0 && arrays' == arrays - {ptr}
      else if p == 0 then arrays' == arrays
      else (p == ptr || p !in arrays) && arrays' == (arrays - {ptr})[p := Resized(arrays[ptr], Granted(size))]
    case Store(ptr, index, byte) =>
      ptr in arrays && index < |arrays[ptr]| && arrays' == arrays[ptr := arrays[ptr][index := Some(byte)]]
  }

  ghost predicate Obtained(size: nat, arrays: Arrays, p: int, arrays': Arrays) {
    if p == 0 then arrays' == arrays else p !in arrays && arrays' == arrays[p := Fresh(size)]
  }

  /** The same on a boundary.  At 2^63 neither the boundary nor the length is kept; at
      least the smallest block comes out. */
  ghost predicate ObtainedAt(align: nat, size: nat, arrays: Arrays, p: int, arrays': Arrays) {
    if align != TOP then Obtained(size, arrays, p, arrays') && (p != 0 && align != 0 ==> p > 0 && p % align == 0)
    else ObtainedSome(size, arrays, p, arrays')
  }

  ghost predicate ObtainedSome(size: nat, arrays: Arrays, p: int, arrays': Arrays) {
    if p == 0 then arrays' == arrays
    else
      && p !in arrays && p in arrays' && arrays' == arrays[p := Fresh(|arrays'[p]|)]
      && (|arrays'[p]| == size || BLOCK_MIN <= |arrays'[p]| < size)
  }

  /** The arrays after an allocation. */
  function Obtain(size: nat, arrays: Arrays, p: int): Arrays {
    if p == 0 then arrays else arrays[p := Fresh(size)]
  }

  lemma ObtainStep(m: Mem, m': Mem, live: map<int, nat>, live': map<int, nat>, arrays: Arrays, size: nat, p: int)
    requires Implements(m, live, arrays) && AlignedBlocks(live) && KeepsBytes(m, m', live)
    requires p == 0 ==> live' == live
    requires p != 0 ==> p - 16 !in live && p - 16 in live' && size <= live'[p - 16]
    requires p != 0 ==> live' == live[p - 16 := live'[p - 16]]
    ensures Implements(m', live', Obtain(size, arrays, p)) && Obtained(size, arrays, p, Obtain(size, arrays, p))
  {
    Kept(m, m', live, arrays);
    if p != 0 {
      FreshHolds(m', p, size);
      Added(m', live, arrays, p, live'[p - 16], Fresh(size));
    }
  }

  method DoMalloc(a: Allocator, size: nat, arrays: Arrays) returns (p: int, arrays': Arrays)
    requires a.Valid() && Implements(a.mem, Live(a.g), arrays) && size < WORD_SPAN
    modifies a`mem, a`ctl, a`g, a`st, a`clock
    ensures a.Valid() && a.ctl.nul == old(a.ctl).nul && Implements(a.mem, Live(a.g), arrays')
    ensures Obtained(Granted(size), arrays, p, arrays')
  {
    LiveAligned(a.g, a.pools);
    ghost var m, live := a.mem, Live(a.g);
    p := a.Malloc(size);
    GrantedFits(size);
    ObtainStep(m, a.mem, live, Live(a.g), arrays, Granted(size), p);
    arrays' := Obtain(Granted(size), arrays, p);
  }

  method DoMemalign(a: Allocator, align: nat, size: nat, arrays: Arrays) returns (p: int, arrays': Arrays)
    requires a.Valid() && Implements(a.mem, Live(a.g), arrays)
    requires align < WORD_SPAN && Alignment(align) && size < WORD_SPAN
    modifies a`mem, a`ctl, a`g, a`st, a`clock
    ensures a.Valid() && a.ctl.nul == old(a.ctl).nul && Implements(a.mem, Live(a.g), arrays')
    ensures ObtainedAt(align, Granted(size), arrays, p, arrays')
  {
    LiveAligned(a.g, a.pools);
    ghost var m, live := a.mem, Live(a.g);
    ghost var searched, x;
    p, searched, x := a.Memalign(align, size);
    GrantedFits(size);
    var n := Granted(size);
    if p != 0 && align == TOP {
      n := PayloadLength(a, p, n);
    }
    ObtainStep(m, a.mem, live, Live(a.g), arrays, n, p);
    arrays' := Obtain(n, arrays, p);
  }

  /** The bytes of a live block, as far as a client asked for them. */
  method PayloadLength(a: Allocator, p: int, n: nat) returns (k: nat)
    requires a.Valid() && p - 16 in Live(a.g)
    ensures k == if n <= Live(a.g)[p - 16] then n else Live(a.g)[p - 16]
  {
    assert HeaderOk(a.mem, a.g, PrevFreeSet(a.g), p - 16);
    k := if n <= SizeOf(a.mem, p - 16) then n else SizeOf(a.mem, p - 16);
  }

  method DoFree(a: Allocator, ptr: int, arrays: Arrays) returns (arrays': Arrays)
    requires a.Valid() && Implements(a.mem, Live(a.g), arrays) && (ptr == 0 || ptr in arrays)
    modifies a`mem, a`ctl, a`g, a`st, a`clock
    ensures a.Valid() && a.ctl.nul == old(a.ctl).nul && Implements(a.mem, Live(a.g), arrays')
    ensures arrays' == arrays - {ptr}
  {
    LiveAligned(a.g, a.pools);
    ghost var m, live := a.mem, Live(a.g);
    assert ptr in arrays ==> ArrayOk(m, live, ptr, arrays[ptr]);
    if ptr == 0 {
      NullFree(a, arrays);
      arrays' := arrays;
    } else {
      a.Free(ptr);
      Dropped(m, live, arrays, ptr);
      Kept(m, a.mem, live - {ptr - 16}, arrays - {ptr});
      arrays' := arrays - {ptr};
    }
  }

  lemma NullFree(a: Allocator, arrays: Arrays)
    requires a.Valid() && Implements(a.mem, Live(a.g), arrays)
    ensures arrays - {0} == arrays
  {
    if 0 in arrays {
      assert ArrayOk(a.mem, Live(a.g), 0, arrays[0]);
      NotNull(a.g, a.pools, -16);
    }
  }

  /** The resized array is in place when the common part was copied. */
  lemma ResizedHolds(m: Mem, m': Mem, src: int, dst: int, s: seq<Cell>, n: nat, k: nat)
    requires Holds(m, src, s) && Copied(m, m', src, dst, k) && (|s| <= k || n <= k)
    ensures Holds(m', dst, Resized(s, n))
  {
    var r := Resized(s, n);
    forall i | 0 <= i < |r| && r[i].Some? ensures Byte(m', dst + i) == r[i].value {
      assert i < |s| && r[i] == s[i];
      assert Byte(m', dst + i) == Byte(m, (dst + i) - dst + src);
      assert Byte(m, src + i) == s[i].value;
    }
  }

  lemma ResizeStep(m: Mem, m': Mem, live: map<int, nat>, live': map<int, nat>, arrays: Arrays, ptr: int, n: nat,
                   k: nat, p: int)
    requires Implements(m, live, arrays) && AlignedBlocks(live) && ptr in arrays && ptr - 16 in live
    requires p - 16 in live' && n <= live'[p - 16] && (p == ptr || p - 16 !in live)
    requires live' == (live - {ptr - 16})[p - 16 := live'[p - 16]] && KeepsBytes(m, m', live - {ptr - 16})
    requires Copied(m, m', ptr, p, k) && (live[ptr - 16] <= k || n <= k)
    ensures p == ptr || p !in arrays
    ensures Implements(m', live', (arrays - {ptr})[p := Resized(arrays[ptr], n)])
  {
    assert ArrayOk(m, live, ptr, arrays[ptr]);
    ResizedHolds(m, m', ptr, p, arrays[ptr], n, k);
    Dropped(m, live, arrays, ptr);
    Kept(m, m', live - {ptr - 16}, arrays - {ptr});
    Added(m', live - {ptr - 16}, arrays - {ptr}, p, live'[p - 16], Resized(arrays[ptr], n));
  }

  method DoResize(a: Allocator, ptr: int, size: nat, arrays: Arrays) returns (p: int, arrays': Arrays)
    requires a.Valid() && Implements(a.mem, Live(a.g), arrays) && ptr in arrays
    requires 0 < size < WORD_SPAN && Request(size) != 0
    modifies a`mem, a`ctl, a`g, a`st, a`clock
    ensures a.Valid() && a.ctl.nul == old(a.ctl).nul && Implements(a.mem, Live(a.g), arrays')
    ensures if p == 0 then arrays' == arrays
            else (p == ptr || p !in arrays) && arrays' == (arrays - {ptr})[p := Resized(arrays[ptr], Granted(size))]
  {
    LiveAligned(a.g, a.pools);
    ghost var m, live := a.mem, Live(a.g);
    assert ArrayOk(m, live, ptr, arrays[ptr]);
    NotNull(a.g, a.pools, ptr - 16);
    GrantedFits(size);
    p := a.Realloc(ptr, size);
    if p == 0 {
      arrays' := arrays;
    } else {
      ghost var k := Least(live[ptr - 16], size, Live(a.g)[p - 16]);
      ResizeStep(m, a.mem, live, Live(a.g), arrays, ptr, Granted(size), k, p);
      arrays' := (arrays - {ptr})[p := Resized(arrays[ptr], Granted(size))];
    }
  }

  method DoRealloc(a: Allocator, ptr: int, size: nat, arrays: Arrays) returns (p: int, arrays': Arrays)
    requires a.Valid() && Implements(a.mem, Live(a.g), arrays)
    requires size < WORD_SPAN && (ptr == 0 || (ptr in arrays && (size == 0 || Request(size) != 0)))
    modifies a`mem, a`ctl, a`g, a`st, a`clock
    ensures a.Valid() && a.ctl.nul == old(a.ctl).nul && Implements(a.mem, Live(a.g), arrays')
    ensures Step(Realloc(ptr, size), arrays, p, arrays')
  {
    if ptr == 0 {
      LiveAligned(a.g, a.pools);
      ghost var m, live := a.mem, Live(a.g);
      p := a.Realloc(0, size);
      GrantedFits(size);
      ObtainStep(m, a.mem, live, Live(a.g), arrays, Granted(size), p);
      arrays' := Obtain(Granted(size), arrays, p);
    } else if size == 0 {
      LiveAligned(a.g, a.pools);
      ghost var m, live := a.mem, Live(a.g);
      assert ArrayOk(m, live, ptr, arrays[ptr]);
      p := a.Realloc(ptr, 0);
      Dropped(m, live, arrays, ptr);
      Kept(m, a.mem, live - {ptr - 16}, arrays - {ptr});
      arrays' := arrays - {ptr};
    } else {
      p, arrays' := DoResize(a, ptr, size, arrays);
    }
  }

  lemma StoreHolds(m: Mem, m': Mem, ptr: int, s: seq<Cell>, index: nat, byte: nat)
    requires index < |s| && Holds(m, ptr, s) && Byte(m', ptr + index) == byte
    requires forall c :: c != ptr + index ==> Byte(m', c) == Byte(m, c)
    ensures Holds(m', ptr, s[index := Some(byte)])
  {
    var r := s[index := Some(byte)];
    forall i | 0 <= i < |r| && r[i].Some? ensures Byte(m', ptr + i) == r[i].value {
      assert i != index ==> ptr + i != ptr + index;
    }
  }

  /** A client stores a byte of its own block b. */
  method StoreInBlock(a: Allocator, b: int, at: int, byte: nat)
    requires a.Valid() && IsLive(a.g, b) && b + 16 <= at < b + 16 + a.g[b].size && byte < 256
    modifies a`mem
    ensures a.Valid() && KeepsBytes(old(a.mem), a.mem, Live(a.g) - {b})
    ensures Byte(a.mem, at) == byte && forall c :: c != at ==> Byte(a.mem, c) == Byte(old(a.mem), c)
  {
    assert BlockOk(a.g, a.pools, b);
    var m' := StoreByte(a.mem, at, byte);
    assert b + 16 <= WordAt(at) < b + 16 + a.g[b].size;
    ClientWrites(a.mem, m', a.ctl, a.g, a.pools, a.st, a.clock, b);
    a.mem := m';
  }

  lemma StoreStep(m: Mem, m': Mem, live: map<int, nat>, arrays: Arrays, ptr: int, index: nat, byte: nat)
    requires Implements(m, live, arrays) && AlignedBlocks(live) && ptr in arrays && index < |arrays[ptr]|
    requires KeepsBytes(m, m', live - {ptr - 16}) && Byte(m', ptr + index) == byte
    requires forall c :: c != ptr + index ==> Byte(m', c) == Byte(m, c)
    ensures Implements(m', live, arrays[ptr := arrays[ptr][index := Some(byte)]])
  {
    var b, s := ptr - 16, arrays[ptr][index := Some(byte)];
    assert ArrayOk(m, live, ptr, arrays[ptr]);
    StoreHolds(m, m', ptr, arrays[ptr], index, byte);
    Dropped(m, live, arrays, ptr);
    Kept(m, m', live - {b}, arrays - {ptr});
    Added(m', live - {b}, arrays - {ptr}, ptr, live[b], s);
    assert (live - {b})[b := live[b]] == live;
    assert (arrays - {ptr})[ptr := s] == arrays[ptr := s];
  }

  method DoStore(a: Allocator, ptr: int, index: nat, byte: nat, arrays: Arrays) returns (arrays': Arrays)
    requires a.Valid() && Implements(a.mem, Live(a.g), arrays)
    requires ptr in arrays && index < |arrays[ptr]| && byte < 256
    modifies a`mem
    ensures a.Valid() && Implements(a.mem, Live(a.g), arrays')
    ensures arrays' == arrays[ptr := arrays[ptr][index := Some(byte)]]
  {
    LiveAligned(a.g, a.pools);
    ghost var m := a.mem;
    assert ArrayOk(m, Live(a.g), ptr, arrays[ptr]);
    StoreInBlock(a, ptr - 16, ptr + index, byte);
    StoreStep(m, a.mem, Live(a.g), arrays, ptr, index, byte);
    arrays' := arrays[ptr := arrays[ptr][index := Some(byte)]];
  }

  lemma RegionVacant(g: Heap, pools: seq<Pool>, base: int, end: int)
    requires Chain(g, pools)
    requires forall i :: 0 <= i < |pools| ==> pools[i].end + 16 <= base || end <= pools[i].start + 8
    ensures Vacant(g, base, end)
  {
    forall b | b in g ensures b + 16 + g[b].size <= base || end <= b + 8 { assert BlockOk(g, pools, b); }
  }

  /** A region that is aligned and of a size the heap can hold becomes a pool. */
  ghost predicate PoolAdded(base: nat, bytes: nat, pool: int, pools: seq<Pool>, pools': seq<Pool>) {
    var n := bytes - 2 * OVERHEAD - bytes % ALIGN_SIZE;
    if base % ALIGN_SIZE == 0 && BLOCK_MIN <= n < BLOCK_MAX then
      pool == base && pools' == pools + [Pool(base - OVERHEAD, base + n)]
    else pool == 0 && pools' == pools
  }

  ghost predicate PoolStep(op: Op, p: int, pools: seq<Pool>, pools': seq<Pool>) {
    if op.AddPool? then PoolAdded(op.base, op.bytes, p, pools, pools') else pools' == pools
  }

  method DoAddPool(a: Allocator, base: nat, bytes: nat, arrays: Arrays, pools: seq<Pool>)
    returns (pool: int, pools': seq<Pool>)
    requires a.Valid() && Implements(a.mem, Live(a.g), arrays) && pools == a.pools
    requires Legal(AddPool(base, bytes), arrays, pools, a.ctl.nul)
    modifies a
    ensures a.Valid() && a.ctl.nul == old(a.ctl).nul && Implements(a.mem, Live(a.g), arrays) && pools' == a.pools
    ensures PoolAdded(base, bytes, pool, pools, pools')
  {
    LiveAligned(a.g, a.pools);
    ghost var m, live := a.mem, Live(a.g);
    RegionVacant(a.g, a.pools, base, base + bytes);
    var n := bytes - 2 * OVERHEAD - bytes % ALIGN_SIZE;
    pool := a.AddPool(base, bytes, n);
    Kept(m, a.mem, live, arrays);
    pools' := if pool == 0 then pools else pools + [Pool(base - OVERHEAD, base + n)];
  }

  /** One request. */
  method Perform(a: Allocator, op: Op, arrays: Arrays, pools: seq<Pool>)
    returns (p: int, arrays': Arrays, pools': seq<Pool>)
    requires a.Valid() && Implements(a.mem, Live(a.g), arrays) && pools == a.pools
    requires Legal(op, arrays, pools, a.ctl.nul)
    modifies a
    ensures a.Valid() && a.ctl.nul == old(a.ctl).nul && Implements(a.mem, Live(a.g), arrays') && pools' == a.pools
    ensures Step(op, arrays, p, arrays') && PoolStep(op, p, pools, pools')
  {
    p, arrays', pools' := 0, arrays, pools;
    match op
    case AddPool(base, bytes) => p, pools' := DoAddPool(a, base, bytes, arrays, pools);
    case Malloc(size) => p, arrays' := DoMalloc(a, size, arrays);
    case Memalign(align, size) => p, arrays' := DoMemalign(a, align, size, arrays);
    case Free(ptr) => arrays' := DoFree(a, ptr, arrays);
    case Realloc(ptr, size) => p, arrays' := DoRealloc(a, ptr, size, arrays);
    case Store(ptr, index, byte) => arrays' := DoStore(a, ptr, index, byte, arrays);
  }

  datatype World = World(arrays: Arrays, pools: seq<Pool>)

  /** One turn of the reference model: a legal request takes its step, any other
      is skipped. */
  ghost predicate Turn(op: Op, w: World, p: int, w': World, nul: int) {
    if Legal(op, w.arrays, w.pools, nul) then
      Step(op, w.arrays, p, w'.arrays) && PoolStep(op, p, w.pools, w'.pools)
    else p == 0 && w' == w
  }

  ghost predicate Trace(ops: seq<Op>, returned: seq<int>, worlds: seq<World>, nul: int) {
    && |returned| == |ops| && |worlds| == |ops| + 1 && worlds[0] == World(map[], [])
    && forall i :: 0 <= i < |ops| ==> Turn(ops[i], worlds[i], returned[i], worlds[i + 1], nul)
  }

  lemma TraceTurn(ops: seq<Op>, returned: seq<int>, worlds: seq<World>, nul: int, op: Op, p: int, w: World)
    requires Trace(ops, returned, worlds, nul) && Turn(op, worlds[|ops|], p, w, nul)
    ensures Trace(ops + [op], returned + [p], worlds + [w], nul)
  {
  }

  /** A run of any length from an empty heap: every request that is legal when its
      turn comes is performed, the others are skipped.  The heap stays valid and the
      arrays, which follow the reference model step by step, stay implemented. */
  method Run(m: Mem, nul: int, ops: seq<Op>) returns (a: Allocator, returned: seq<int>, worlds: seq<World>)
    requires nul != 0 && nul % ALIGN_SIZE == 0
    ensures a.Valid() && Trace(ops, returned, worlds, nul)
    ensures a.pools == worlds[|ops|].pools && Implements(a.mem, Live(a.g), worlds[|ops|].arrays)
    ensures worlds[|ops|].arrays == map[] ==> AllRestored(a.g, a.pools)
  {
    a := new Allocator(m, nul);
    var w := World(map[], []);
    returned, worlds := [], [w];
    for i := 0 to |ops|
      invariant fresh(a) && a.Valid() && a.ctl.nul == nul && w.pools == a.pools
      invariant Trace(ops[..i], returned, worlds, nul) && w == worlds[i]
      invariant Implements(a.mem, Live(a.g), w.arrays)
    {
      var p, arrays, pools := 0, w.arrays, w.pools;
      if Legal(ops[i], arrays, pools, nul) {
        p, arrays, pools := Perform(a, ops[i], arrays, pools);
      }
      TraceTurn(ops[..i], returned, worlds, nul, ops[i], p, World(arrays, pools));
      w := World(arrays, pools);
      returned, worlds := returned + [p], worlds + [w];
      assert ops[..i + 1] == ops[..i] + [ops[i]];
    }
    assert ops[..|ops|] == ops;
    if w.arrays == map[] { NothingLive(a); }
  }

  /** Every pool is one free block again, of the size it began with. */
  ghost predicate AllRestored(g: Heap, pools: seq<Pool>) {
    forall i: nat :: i < |pools| ==> Restored(g, pools[i], i)
  }

  ghost predicate Restored(g: Heap, pool: Pool, i: nat) {
    && IsFree(g, pool.start) && g[pool.start].size == pool.end - pool.start - OVERHEAD
    && forall c :: c in g && g[c].pool == i ==> c == pool.start || c == pool.end
  }

  lemma NothingLive(a: Allocator)
    requires a.Valid() && Implements(a.mem, Live(a.g), map[])
    ensures AllRestored(a.g, a.pools)
  {
    forall i: nat | i < |a.pools| ensures Restored(a.g, a.pools[i], i) {
      forall c ensures !IsLive(a.g, c) { assert c in Live(a.g) <==> IsLive(a.g, c); }
      PoolRestored(a.g, a.pools, i);
    }
  }

  /** After any run the built-in checkers find nothing, in the lists or in any pool. */
  method RunChecked(m: Mem, nul: int, ops: seq<Op>)
    returns (returned: seq<int>, worlds: seq<World>, status: int, poolStatus: seq<int>)
    requires nul != 0 && nul % ALIGN_SIZE == 0
    ensures Trace(ops, returned, worlds, nul) && |poolStatus| == |worlds[|ops|].pools|
    ensures status == 0 && forall i :: 0 <= i < |poolStatus| ==> poolStatus[i] == 0
  {
    var a;
    a, returned, worlds := Run(m, nul, ops);
    status := Check(a);
    poolStatus := [];
    var pools := worlds[|ops|].pools;
    for i := 0 to |pools|
      invariant a.Valid() && a.pools == pools && |poolStatus| == i
      invariant forall j :: 0 <= j < i ==> poolStatus[j] == 0
    {
      var s, visited := CheckPool(a, pools[i].start + OVERHEAD, i);
      poolStatus := poolStatus + [s];
    }
  }
}

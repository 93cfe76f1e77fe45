/**
 The arithmetic of `tlsf_memalign`: the padded request and the alignment gap.
 */
module TlsfAlign {
  import opened Bits
  import opened TlsfMapping

  lemma Pow2Span()
    ensures Pow2(64) == WORD_SPAN
    ensures Pow2(63) == 0x8000_0000_0000_0000 && Pow2(62) == 0x4000_0000_0000_0000
    ensures Pow2(3) == 8 && Pow2(4) == 16 && Pow2(5) == 32
  {
    Pow2Table();
    Pow2Add(32, 32);
    assert Pow2(64) == 2 * Pow2(63) && Pow2(63) == 2 * Pow2(62);
    assert Pow2(4) == 2 * Pow2(3);
  }

  lemma MultipleBy8(x: nat, e: nat)
    requires Multiple(x, e) && e >= 3
    ensures x % 8 == 0
  {
    MultipleOfLess(x, e, 3);
    MultipleOf8(x);
  }

  /** `align_ptr` to 2^e, where the rounding does not leave the address space. */
  method AlignPtr(ptr: nat, e: nat) returns (a: nat)
    requires ptr + Pow2(e) <= WORD_SPAN
    ensures ptr <= a < ptr + Pow2(e) && Multiple(a, e)
  {
    AlignUpSpec(ptr, e);
    a := AlignUp(ptr, e);
  }

  /** What a padded request is: the request itself up to 8-byte alignment, else less
      than two alignments and a header more, and 0 only if that may be no block size. */
  ghost predicate Padded(adjust: nat, e: nat, s: nat) {
    && (adjust == 0 || e <= 3 ==> s == adjust)
    && (s != 0 ==> s < adjust + 2 * Pow2(e) + HEADER)
    && (s == 0 && adjust != 0 ==> adjust + 2 * Pow2(e) + HEADER > BLOCK_MAX)
  }

  /** The size `tlsf_memalign` searches for: the request alone up to 8-byte
      alignment, else with room for the alignment and one block header; 0 when
      that is no longer a block size.  */
  method AlignedSize(adjust: nat, e: nat) returns (s: nat)
    requires adjust == 0 || (adjust % ALIGN_SIZE == 0 && BLOCK_MIN <= adjust < BLOCK_MAX)
    requires e <= 62
    ensures s % ALIGN_SIZE == 0 && Padded(adjust, e, s)
    ensures adjust != 0 && e > 3 && s != 0 ==> adjust + Pow2(e) + HEADER <= s
  {
    Pow2Span();
    Pow2Monotone(e, 62);
    var x := adjust + Pow2(e) + HEADER;
    AlignUpSpec(x, e);
    var sizeWithGap := AdjustRequest(x, e);
    if e > 3 {
      Pow2Monotone(4, e);
      MultipleBy8(AlignUp(x, e), e);
    } else {
      Pow2Monotone(e, 3);
    }
    s := if adjust != 0 && Pow2(e) > ALIGN_SIZE then sizeWithGap else adjust;
  }

  /** At an alignment of 2^63 the padded request wraps: 24 bytes are asked for,
      whatever is needed. */
  lemma PaddedRequestWraps(adjust: nat)
    requires BLOCK_MIN <= adjust < BLOCK_MAX
    ensures AdjustRequest(adjust + TOP + HEADER, 63) == BLOCK_MIN
  {
    Pow2Span();
    var s := (adjust + Pow2(63) + HEADER + (Pow2(63) - 1)) % WORD_SPAN;
    assert s == adjust + HEADER - 1;
    MaskFromRounds(s, 63);
    MaskFromRounds(0, 63);
    if MaskFrom(s, 63) != 0 {
      MultiplesApart(0, MaskFrom(s, 63), 63);
    }
  }

  /** The alignment 2^63. */
  const TOP: nat := 0x8000_0000_0000_0000

  /** Rounding down to 2^63 leaves the top bit. */
  lemma TopMask(s: nat)
    requires s < WORD_SPAN
    ensures MaskFrom(s, 63) == if s < TOP then 0 else TOP
  {
    Pow2Span();
    var m := MaskFrom(s, 63);
    MaskFromRounds(s, 63);
    MaskFromRounds(0, 63);
    MultipleOfPow2(63, 63);
    if m != 0 { MultiplesApart(0, m, 63); }
    if m > TOP { MultiplesApart(TOP, m, 63); }
  }

  /** The next boundary is 2^63, or address 0 by wrapping. */
  lemma TopAlign(ptr: nat)
    requires ptr < WORD_SPAN
    ensures AlignUp(ptr, 63) == if 0 < ptr <= TOP then TOP else 0
  {
    Pow2Span();
    var s := (ptr + (TOP - 1)) % WORD_SPAN;
    assert s == if ptr <= TOP then ptr + TOP - 1 else ptr - TOP - 1;
    TopMask(s);
  }

  /** A pointer subtraction in 64 bits. */
  function Minus(a: nat, b: nat): nat
    requires a < WORD_SPAN && b < WORD_SPAN
  {
    if b <= a then a - b else a + WORD_SPAN - b
  }

  /** The gap `tlsf_memalign` computes at an alignment of 2^63: up to 2^63 or past
      the end of the address space. */
  method TopGap(ptr: nat) returns (gap: nat)
    requires ptr % ALIGN_SIZE == 0 && 0 < ptr && ptr + HEADER <= WORD_SPAN
    ensures gap % ALIGN_SIZE == 0 && (gap == 0 || HEADER <= gap)
    ensures ptr + gap == if ptr == TOP || ptr + HEADER <= TOP then TOP else WORD_SPAN
  {
    Pow2Span();
    TopAlign(ptr);
    TopAlign(0);
    var aligned := AlignUp(ptr, 63);
    gap := Minus(aligned, ptr);
    if gap != 0 && gap < HEADER {
      var gapRemain := HEADER - gap;
      var offset := if gapRemain > TOP then gapRemain else TOP;
      assert (aligned + offset) % WORD_SPAN == 0;
      aligned := AlignUp((aligned + offset) % WORD_SPAN, 63);
      gap := Minus(aligned, ptr);
    }
    EighthsApart(ptr, ptr + gap);
  }

  /** A free block of so many bytes at b can be cut so that a payload starts at 2^63. */
  predicate TopCut(b: int, size: nat) { b + 16 + HEADER <= TOP && TOP - (b + 16) + HEADER <= size }

  /** Where the payload then starts: at 2^63, or else where the block's own does. */
  function TopPayload(b: int, size: nat): int { if TopCut(b, size) then TOP else b + 16 }

  /** The located block gives n bytes at an address divisible by 2^63. */
  predicate TopServes(b: int, size: nat, n: nat) {
    TopPayload(b, size) == TOP && n <= size - (TOP - 16 - b)
  }

  lemma TopMultiple(p: nat)
    requires 0 < p < WORD_SPAN
    ensures p % TOP == 0 <==> p == TOP
  {
    Pow2Span();
  }

  /** What `0 == (align & (align - 1))` lets through. */
  predicate Alignment(align: nat) { align == 0 || And(align, align - 1) == 0 }

  lemma AlignmentPower(align: nat)
    requires 0 < align < WORD_SPAN
    ensures Alignment(align) ==> align == Pow2(Fls(align)) && Fls(align) <= 63 && (align == TOP <==> Fls(align) == 63)
  {
    Pow2Span();
    PowerTest(align);
    if Fls(align) >= 64 { Pow2Monotone(64, Fls(align)); }
    if Fls(align) <= 62 { Pow2Monotone(Fls(align), 62); }
  }

  lemma TopAlignment()
    ensures Alignment(TOP)
  {
    Pow2Span();
    FlsUnique(TOP, 63);
    PowerTest(TOP);
  }

  /** `align_ptr` to 0: the mask `~(0 - 1)` leaves nothing. */
  function AlignZero(ptr: nat): nat { And((ptr + (WORD_SPAN - 1)) % WORD_SPAN, 0) }

  lemma SmallAlignment(ptr: nat, e: nat)
    requires e <= 3 && ptr % 8 == 0
    ensures Pow2(e) <= 8 && Multiple(ptr, e)
  {
    Pow2Span();
    Pow2Monotone(e, 3);
    MultipleOf8(ptr);
    MultipleOfLess(ptr, 3, e);
  }

  /** When the first boundary leaves too small a gap: how far the next one is. */
  lemma SecondBoundary(ptr: nat, first: nat, e: nat)
    requires 5 <= e <= 62 && ptr % 8 == 0 && first % 8 == 0 && Multiple(first, e) && 0 < first - ptr < HEADER
    requires ptr + Pow2(e) + HEADER + BLOCK_MIN <= WORD_SPAN
    ensures Pow2(e) >= HEADER && first + 2 * Pow2(e) <= WORD_SPAN
    ensures forall a: nat :: Multiple(a, e) && first + Pow2(e) <= a < first + 2 * Pow2(e) ==> a == first + Pow2(e)
  {
    Pow2Span();
    Pow2Monotone(5, e);
    var second := first + Pow2(e);
    MultipleOfPow2(e, e);
    MultipleAdd(first, Pow2(e), e);
    MultipleOfPow2(e, 64);
    MultiplesApart(second, WORD_SPAN, e);
    forall a: nat | Multiple(a, e) && second <= a < first + 2 * Pow2(e) ensures a == second {
      if second < a { MultiplesApart(second, a, e); }
    }
  }

  lemma SecondBoundary16(first: nat, a: nat)
    requires Multiple(first, 4) && Multiple(a, 4) && first + 24 <= a < first + 40
    ensures a == first + 32
  {
    Pow2Span();
    MultipleOfPow2(4, 4);
    MultipleAdd(first, 16, 4);
    MultipleAdd(first + 16, 16, 4);
    MultiplesApart(first + 16, a, 4);
    if a > first + 32 { MultiplesApart(first + 32, a, 4); }
  }

  /** The first rounding: up to 8-byte alignment it leaves the pointer alone. */
  method FirstBoundary(ptr: nat, e: nat) returns (aligned: nat)
    requires ptr % ALIGN_SIZE == 0 && ptr + ALIGN_SIZE <= WORD_SPAN && (e > 3 ==> ptr + Pow2(e) <= WORD_SPAN)
    ensures Multiple(aligned, e) && aligned % ALIGN_SIZE == 0
    ensures if e <= 3 then aligned == ptr else ptr <= aligned < ptr + Pow2(e)
  {
    if e <= 3 { SmallAlignment(ptr, e); }
    aligned := AlignPtr(ptr, e);
    if e <= 3 {
      if ptr < aligned { MultiplesApart(ptr, aligned, e); }
    } else {
      MultipleBy8(aligned, e);
    }
  }

  lemma EighthsApart(x: nat, y: nat)
    requires x % 8 == 0 && y % 8 == 0 && x <= y
    ensures (y - x) % 8 == 0
  {
    assert y - x == 8 * (y / 8 - x / 8);
  }

  /** The aligned address `tlsf_memalign` picks in a block whose payload starts at
      `ptr`: the gap is 0 or can hold a block, and stays below the alignment plus
      one header. */
  method PickBoundary(ptr: nat, e: nat) returns (aligned: nat)
    requires ptr % ALIGN_SIZE == 0 && e <= 62 && ptr + ALIGN_SIZE <= WORD_SPAN
    requires e > 3 ==> ptr + Pow2(e) + HEADER + BLOCK_MIN <= WORD_SPAN
    ensures Multiple(aligned, e) && aligned >= ptr && (aligned - ptr) % ALIGN_SIZE == 0
    ensures aligned == ptr || (e > 3 && ptr + HEADER <= aligned <= ptr + Pow2(e) + BLOCK_MIN)
  {
    aligned := FirstBoundary(ptr, e);
    var gap := aligned - ptr;
    if gap != 0 && gap < HEADER {
      aligned := NextBoundary(ptr, aligned, e);
    }
    EighthsApart(ptr, aligned);
  }

  /** How far the second rounding looks: one alignment, except that 16-byte
      alignment needs 24 bytes to clear a header. */
  lemma OffsetFits(ptr: nat, first: nat, e: nat, offset: nat)
    requires 4 <= e <= 62 && ptr % 8 == 0 && first % 8 == 0 && Multiple(first, e)
    requires 0 < first - ptr < HEADER && first - ptr < Pow2(e)
    requires ptr + Pow2(e) + HEADER + BLOCK_MIN <= WORD_SPAN
    requires offset == if HEADER - (first - ptr) > Pow2(e) then HEADER - (first - ptr) else Pow2(e)
    ensures first + offset + Pow2(e) <= WORD_SPAN
    ensures if e == 4 then first - ptr == 8 && Pow2(e) == 16 && offset == 24 else offset == Pow2(e)
  {
    if e == 4 { Pow2Span(); Eighths(ptr, first); } else { SecondBoundary(ptr, first, e); }
  }

  lemma BoundaryReached(ptr: nat, first: nat, e: nat, offset: nat, a: nat)
    requires 4 <= e <= 62 && ptr % 8 == 0 && first % 8 == 0 && Multiple(first, e)
    requires 0 < first - ptr < HEADER && ptr + Pow2(e) + HEADER + BLOCK_MIN <= WORD_SPAN
    requires if e == 4 then first - ptr == 8 && Pow2(e) == 16 && offset == 24 else offset == Pow2(e)
    requires Multiple(a, e) && first + offset <= a < first + offset + Pow2(e)
    ensures a % 8 == 0 && ptr + HEADER <= a <= ptr + Pow2(e) + BLOCK_MIN
  {
    MultipleBy8(a, e);
    if e == 4 {
      SecondBoundary16(first, a);
    } else {
      SecondBoundary(ptr, first, e);
      Eighths4(ptr, first);
    }
  }

  /** A gap below 32 bytes is at most 24. */
  lemma Eighths4(ptr: nat, first: nat)
    requires ptr % 8 == 0 && first % 8 == 0 && 0 < first - ptr < HEADER
    ensures first - ptr <= BLOCK_MIN
  {
    EighthsApart(ptr, first);
  }

  method NextBoundary(ptr: nat, first: nat, e: nat) returns (aligned: nat)
    requires 4 <= e <= 62 && ptr % 8 == 0 && first % 8 == 0 && Multiple(first, e)
    requires 0 < first - ptr < HEADER && first - ptr < Pow2(e)
    requires ptr + Pow2(e) + HEADER + BLOCK_MIN <= WORD_SPAN
    ensures Multiple(aligned, e) && aligned % ALIGN_SIZE == 0
    ensures ptr + HEADER <= aligned <= ptr + Pow2(e) + BLOCK_MIN
  {
    var gapRemain := HEADER - (first - ptr);
    var offset := if gapRemain > Pow2(e) then gapRemain else Pow2(e);
    OffsetFits(ptr, first, e, offset);
    aligned := AlignPtr(first + offset, e);
    BoundaryReached(ptr, first, e, offset, aligned);
  }

  /** Within 16 bytes the gap to the first boundary can only be 8. */
  lemma Eighths(ptr: nat, first: nat)
    requires ptr % 8 == 0 && first % 8 == 0 && 0 < first - ptr < 16
    ensures first - ptr == 8
  {
    EighthsApart(ptr, first);
  }
}

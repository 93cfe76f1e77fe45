/**
 Size classes of the TLSF heap: the arithmetic of request adjustment and of
 the two-level index, for the 64-bit build (8-byte alignment, 25 x 32 lists).
 */
module TlsfMapping {
  import opened Bits

  const ALIGN_SIZE: nat := 8
  const SL_COUNT: nat := 32
  const FL_COUNT: nat := 25
  const SMALL_BLOCK: nat := 256
  const BLOCK_MIN: nat := 24
  const BLOCK_MAX: nat := 0x1_0000_0000
  const HEADER: nat := 32
  const OVERHEAD: nat := 8

  datatype Class = Class(fl: nat, sl: nat) {
    /** Position in the row-major order of the lists. */
    function Index(): nat { fl * SL_COUNT + sl }

    predicate InRange() { fl < FL_COUNT && sl < SL_COUNT }

    /** The smallest size of the class, and the smallest size above it. */
    function Lo(): nat {
      if fl == 0 then 8 * sl else Shl(32 + sl, fl + 2)
    }
    function Hi(): nat {
      if fl == 0 then 8 * (sl + 1) else Shl(33 + sl, fl + 2)
    }
  }

  /** The bounds in plain arithmetic. */
  lemma ClassBounds(c: Class)
    requires c.fl > 0
    ensures c.Lo() == (32 + c.sl) * Pow2(c.fl + 2) && c.Hi() == (33 + c.sl) * Pow2(c.fl + 2)
  {
    ShlTimes(32 + c.sl, c.fl + 2);
    ShlTimes(33 + c.sl, c.fl + 2);
  }

  /** `v ^ (1 << 5)` */
  function FlipBit5(v: nat): nat {
    if Bit(v, 5) && v >= 32 then v - 32 else v + 32
  }

  /** Sizes from 256 on have their highest bit at 8 or above. */
  lemma LargeFls(size: nat)
    requires size >= SMALL_BLOCK
    ensures Fls(size) >= 8
  {
    assert Pow2(8) == 256;
    if Fls(size) < 8 { Pow2Monotone(Fls(size) + 1, 8); }
  }

  /** `mapping_insert`: the list a block of this size belongs to. */
  function MappingInsert(size: nat): Class {
    if size < SMALL_BLOCK then
      Class(0, size / (SMALL_BLOCK / SL_COUNT))
    else
      var e := Fls(size);
      LargeFls(size);
      Class(e - 7, FlipBit5(Shr(size, e - 5)))
  }

  /** `mapping_search`: the first list all of whose blocks satisfy the request. */
  function MappingSearch(size: nat): Class {
    MappingInsert(SearchSize(size))
  }

  /** The size `mapping_search` looks up: rounded up by just under one step. */
  function SearchSize(size: nat): nat {
    if size >= SMALL_BLOCK then
      LargeFls(size);
      size + (Pow2(Fls(size) - 5) - 1)
    else size
  }

  /** `align_up` to 2^e, with 64-bit wrap-around: `(x + (align - 1)) & ~(align - 1)`. */
  function AlignUp(x: nat, e: nat): nat {
    MaskFrom((x + (Pow2(e) - 1)) % WORD_SPAN, e)
  }

  /** `adjust_request_size` */
  function AdjustRequest(size: nat, e: nat): nat {
    if size == 0 then 0
    else
      var aligned := AlignUp(size, e);
      if aligned < BLOCK_MAX then (if aligned > BLOCK_MIN then aligned else BLOCK_MIN) else 0
  }

  lemma FlipBit5Value(v: nat)
    requires 32 <= v < 64
    ensures FlipBit5(v) == v - 32
  {
    assert v / 2 / 2 / 2 / 2 / 2 == 1;
    assert Bit(v, 5) == Bit(v / 2, 4) == Bit(v / 2 / 2, 3) == Bit(v / 2 / 2 / 2, 2)
        == Bit(v / 2 / 2 / 2 / 2, 1) == Bit(v / 2 / 2 / 2 / 2 / 2, 0);
  }

  lemma Pow2Table()
    ensures Pow2(3) == 8 && Pow2(5) == 32 && Pow2(8) == 256
    ensures Pow2(32) == BLOCK_MAX
  {
    assert Pow2(8) == 256;
    Pow2Add(8, 8);
    Pow2Add(16, 16);
  }

  /** Above the small-block threshold the exponent is at least 8, and its power
      splits into 32 second-level steps. */
  lemma LargeExponent(size: nat)
    requires size >= SMALL_BLOCK
    ensures Fls(size) >= 8
    ensures Fls(size) < 32 <==> size < BLOCK_MAX
  {
    Pow2Table();
    LargeFls(size);
    LargeWidth(size, Fls(size));
  }

  /** A power of two from 2^8 on is 32 second-level steps, its double 64. */
  lemma Steps(e: nat)
    requires e >= 8
    ensures Shl(32, e - 5) == Pow2(e) && Shl(64, e - 5) == 2 * Pow2(e)
  {
    Pow2Table();
    ShlPow2(5, e - 5);
    ShlAdd(32, 32, e - 5);
  }

  lemma LargeWidth(size: nat, e: nat)
    requires Pow2(e) <= size < 2 * Pow2(e) && Pow2(32) == BLOCK_MAX
    ensures e < 32 <==> size < BLOCK_MAX
  {
    if e < 32 { Pow2Monotone(e + 1, 32); } else { Pow2Monotone(32, e); }
  }

  lemma LargeClass(size: nat, e: nat)
    requires size >= SMALL_BLOCK && e >= 8 && Fls(size) == e
    ensures MappingInsert(size).fl == e - 7 && MappingInsert(size).sl < SL_COUNT
    ensures MappingInsert(size).Lo() <= size < MappingInsert(size).Hi()
  {
    var q := Shr(size, e - 5);
    Steps(e);
    ShrBetween(size, e - 5, 32, 64);
    ShrBracket(size, e - 5);
    FlipBit5Value(q);
    assert MappingInsert(size) == Class(e - 7, q - 32);
  }

  /** The classes partition the sizes: a size lies in the class `MappingInsert`
      names, whose bounds are `Lo` and `Hi`; the class has a list exactly when
      the size is below 2^32. */
  lemma MappingInsertBounds(size: nat)
    ensures MappingInsert(size).sl < SL_COUNT
    ensures MappingInsert(size).Lo() <= size < MappingInsert(size).Hi()
    ensures MappingInsert(size).fl < FL_COUNT <==> size < BLOCK_MAX
  {
    if size >= SMALL_BLOCK {
      LargeExponent(size);
      LargeClass(size, Fls(size));
    } else {
      assert MappingInsert(size) == Class(0, size / 8);
    }
  }

  /** Adjoining classes meet: one ends where the next starts. */
  lemma ClassAdjoin(fl: nat)
    ensures Class(fl, 31).Hi() == Class(fl + 1, 0).Lo()
  {
    if fl == 0 {
      Steps(8);
      Pow2Table();
    } else {
      ShlAdd(32, 32, fl + 2);
    }
  }

  lemma ClassWidth(fl: nat, s: nat, t: nat)
    requires s < t
    ensures Class(fl, s).Lo() < Class(fl, s).Hi() <= Class(fl, t).Lo()
  {
    ShlNext(32 + s, fl + 2);
    ShlLe(33 + s, 32 + t, fl + 2);
  }

  lemma {:induction false} ClassRows(f: nat, g: nat)
    requires f < g
    ensures Class(f, 31).Hi() <= Class(g, 0).Lo()
    decreases g
  {
    ClassAdjoin(g - 1);
    if f < g - 1 {
      ClassRows(f, g - 1);
      ClassWidth(g - 1, 0, 31);
      ClassWidth(g - 1, 31, 32);
    }
  }

  lemma ClassRow(fl: nat, s: nat, t: nat)
    requires s <= t
    ensures Class(fl, s).Lo() <= Class(fl, t).Lo() && Class(fl, s).Hi() <= Class(fl, t).Hi()
  {
    ShlLe(32 + s, 32 + t, fl + 2);
    ShlLe(33 + s, 33 + t, fl + 2);
  }

  /** Row-major order of the classes is the order of their sizes. */
  lemma ClassOrder(c: Class, d: Class)
    requires c.sl < SL_COUNT && d.sl < SL_COUNT
    requires c.Index() < d.Index()
    ensures c.Hi() <= d.Lo()
  {
    if c.fl == d.fl {
      ClassWidth(c.fl, c.sl, d.sl);
    } else {
      ClassRow(c.fl, c.sl, 31);
      ClassRows(c.fl, d.fl);
      ClassRow(d.fl, 0, d.sl);
    }
  }

  /** A size determines its class: the bounds leave room for no other. */
  lemma MappingInsertUnique(size: nat, c: Class)
    requires c.sl < SL_COUNT && c.Lo() <= size < c.Hi()
    ensures MappingInsert(size) == c
  {
    var d := MappingInsert(size);
    MappingInsertBounds(size);
    ClassOfSize(c, d, size);
  }

  lemma ClassOfSize(c: Class, d: Class, size: nat)
    requires c.sl < SL_COUNT && d.sl < SL_COUNT && c.Lo() <= size < c.Hi() && d.Lo() <= size < d.Hi()
    ensures c == d
  {
    var lo, hi, i := c.Lo(), c.Hi(), c.Index();
    var lo', hi', j := d.Lo(), d.Hi(), d.Index();
    if i < j { ClassOrder(c, d); }
    if j < i { ClassOrder(d, c); }
    SameIndex(c, d);
  }

  lemma SameIndex(c: Class, d: Class)
    requires c.sl < SL_COUNT && d.sl < SL_COUNT && c.Index() == d.Index()
    ensures c == d
  {
    assert SL_COUNT * c.fl + c.sl == SL_COUNT * d.fl + d.sl;
  }

  /** Larger blocks never sit in an earlier list. */
  lemma MappingInsertMonotone(a: nat, b: nat)
    requires a <= b
    ensures MappingInsert(a).Index() <= MappingInsert(b).Index()
  {
    MappingInsertBounds(a);
    MappingInsertBounds(b);
    if MappingInsert(b).Index() < MappingInsert(a).Index() {
      ClassOrder(MappingInsert(b), MappingInsert(a));
    }
  }

  /** One second-level step at this size: how much larger than a request a
      missed block may be. */
  function SearchStep(size: nat): (r: nat)
    ensures r > 0
  {
    if size < SMALL_BLOCK then 1 else LargeExponent(size); Pow2(Fls(size) - 5)
  }

  /** The list `mapping_search` names starts at or above the request, and less
      than one second-level step above it. */
  lemma MappingSearchBounds(size: nat)
    requires size % ALIGN_SIZE == 0
    ensures MappingSearch(size).sl < SL_COUNT
    ensures size <= MappingSearch(size).Lo() < size + SearchStep(size)
  {
    if size < SMALL_BLOCK {
      assert MappingSearch(size) == Class(0, size / 8);
    } else {
      LargeExponent(size);
      RoundedUp(size, SearchSize(size), Fls(size));
    }
  }

  lemma RoundedUp(size: nat, n: nat, e: nat)
    requires size >= SMALL_BLOCK && e >= 8 && Pow2(e) <= size < 2 * Pow2(e)
    requires n == size + (Pow2(e - 5) - 1)
    ensures MappingInsert(n).sl < SL_COUNT && size <= MappingInsert(n).Lo() <= n
  {
    if n < 2 * Pow2(e) { RoundedInside(size, n, e); } else { RoundedOver(size, n, e); }
  }

  lemma RoundedInside(size: nat, n: nat, e: nat)
    requires size >= SMALL_BLOCK && e >= 8
    requires Pow2(e) <= size && n == size + (Pow2(e - 5) - 1) < 2 * Pow2(e)
    ensures MappingInsert(n).sl < SL_COUNT
    ensures size <= MappingInsert(n).Lo() <= n
  {
    FlsUnique(n, e);
    LargeClass(n, e);
    StepWidth(MappingInsert(n));
  }

  /** Rounding past the power of two lands in the first class after it. */
  lemma RoundedOver(size: nat, n: nat, e: nat)
    requires size >= SMALL_BLOCK && e >= 8
    requires size < 2 * Pow2(e) <= n == size + (Pow2(e - 5) - 1)
    ensures MappingInsert(n).sl < SL_COUNT
    ensures size <= MappingInsert(n).Lo() <= n
  {
    var first := Class(e - 6, 0);
    Steps(e + 1);
    Pow2Monotone(e - 5, e);
    FlsUnique(n, e + 1);
    LargeClass(n, e + 1);
    ClassRow(e - 6, 0, MappingInsert(n).sl);
    assert first.Lo() == Pow2(e + 1) == 2 * Pow2(e);
  }

  lemma StepWidth(c: Class)
    requires c.fl > 0
    ensures c.Hi() == c.Lo() + Pow2(c.fl + 2)
  {
    ShlNext(32 + c.sl, c.fl + 2);
  }

  /** Good fit: every block filed at or after the searched list is large enough. */
  lemma GoodFit(request: nat, size: nat)
    requires request % ALIGN_SIZE == 0
    requires MappingInsert(size).Index() >= MappingSearch(request).Index()
    ensures size >= request
  {
    MappingSearchBounds(request);
    MappingInsertBounds(size);
    ClassStarts(MappingSearch(request), MappingInsert(size));
  }

  lemma ClassStarts(c: Class, d: Class)
    requires c.sl < SL_COUNT && d.sl < SL_COUNT
    requires c.Index() <= d.Index()
    ensures c.Lo() <= d.Lo()
  {
    if c.Index() != d.Index() {
      ClassOrder(c, d);
      ClassWidth(c.fl, c.sl, c.sl + 1);
    }
  }

  /** Completeness: a block filed before the searched list is smaller than the
      request plus one second-level step; below 256 bytes it is smaller than
      the request itself. */
  lemma MissBound(request: nat, size: nat)
    requires request % ALIGN_SIZE == 0
    requires MappingInsert(size).Index() < MappingSearch(request).Index()
    ensures size < request + SearchStep(request)
    ensures request < SMALL_BLOCK ==> size < request
  {
    MappingSearchBounds(request);
    MappingInsertBounds(size);
    ClassOrder(MappingInsert(size), MappingSearch(request));
  }

  // ---- requests

  const ALIGN_LOG2: nat := 3

  function Request(size: nat): nat { AdjustRequest(size, ALIGN_LOG2) }

  lemma AlignUpSpec(x: nat, e: nat)
    requires x + Pow2(e) <= WORD_SPAN
    ensures x <= AlignUp(x, e) < x + Pow2(e) && Multiple(AlignUp(x, e), e)
  {
    var s := x + (Pow2(e) - 1);
    assert s % WORD_SPAN == s;
    MaskFromRounds(s, e);
  }

  lemma Mod8(x: nat, c: nat, r: nat)
    requires x == 8 * c + r && r < 8
    ensures x % 8 == r
  {}

  /** Three halvings, as numbers. */
  lemma EvenThrice(x: nat, a: nat, b: nat, c: nat, i: nat, j: nat, k: nat)
    requires x == 2 * a + i && a == 2 * b + j && b == 2 * c + k && i < 2 && j < 2 && k < 2
    ensures x % 8 == 0 <==> i == 0 && j == 0 && k == 0
  {
    Mod8(x, c, i + 2 * j + 4 * k);
  }

  lemma MultipleOf8(x: nat)
    ensures Multiple(x, 3) <==> x % 8 == 0
  {
    EvenThrice(x, x / 2, x / 2 / 2, x / 2 / 2 / 2, x % 2, x / 2 % 2, x / 2 / 2 % 2);
    MultipleHalf(x, 3);
    MultipleHalf(x / 2, 2);
    MultipleHalf(x / 2 / 2, 1);
  }

  /** An adjusted request is 0 or a block size that covers the request, except
      that within 8 bytes of 2^64 the rounding wraps and 24 comes out. */
  lemma RequestCovers(size: nat)
    requires size < WORD_SPAN
    ensures Request(size) == 0 <==> size == 0 || BLOCK_MAX - ALIGN_SIZE < size <= WORD_SPAN - ALIGN_SIZE
    ensures Request(size) != 0 ==> Request(size) % ALIGN_SIZE == 0 && BLOCK_MIN <= Request(size) < BLOCK_MAX
    ensures Request(size) != 0 ==> (Request(size) >= size <==> size <= WORD_SPAN - ALIGN_SIZE)
    ensures Request(size) > BLOCK_MIN ==> Request(size) < size + ALIGN_SIZE
    ensures size > WORD_SPAN - ALIGN_SIZE ==> Request(size) == BLOCK_MIN
  {
    Pow2Table();
    if size != 0 {
      if size <= WORD_SPAN - ALIGN_SIZE {
        AlignUpSpec(size, 3);
        MultipleOf8(AlignUp(size, 3));
      } else {
        assert (size + 7) % WORD_SPAN == size + 7 - WORD_SPAN;
        MaskFromRounds(size + 7 - WORD_SPAN, 3);
      }
    }
  }
}

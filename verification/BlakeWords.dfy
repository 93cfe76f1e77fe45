/**
 64-bit words and bytes of blake2-impl.h: or, xor, shifts, rotation and
 little-endian loads and stores, by recursion on binary digits.
 */
module BlakeWords {
  import opened Bits

  type Word = x: int | 0 <= x < WORD_SPAN
  type Byte = x: int | 0 <= x < 256

  function Zeros(n: nat): (z: seq<Byte>)
    ensures |z| == n
  {
    seq(n, i => 0)
  }

  function Or(a: nat, b: nat): nat
    decreases a + b
  {
    if a == 0 && b == 0 then 0
    else (if a % 2 == 1 || b % 2 == 1 then 1 else 0) + 2 * Or(a / 2, b / 2)
  }

  function Xor(a: nat, b: nat): nat
    decreases a + b
  {
    if a == 0 && b == 0 then 0
    else (if a % 2 != b % 2 then 1 else 0) + 2 * Xor(a / 2, b / 2)
  }

  /** The low k bits of w. */
  function Low(w: nat, k: nat): nat { if k == 0 then 0 else w % 2 + 2 * Low(w / 2, k - 1) }

  lemma {:induction false} XorBound(a: nat, b: nat, k: nat)
    requires a < Pow2(k) && b < Pow2(k)
    ensures Xor(a, b) < Pow2(k)
  {
    if k != 0 { XorBound(a / 2, b / 2, k - 1); }
  }

  lemma {:induction false} LowBound(w: nat, k: nat)
    ensures Low(w, k) < Pow2(k)
  {
    if k != 0 { LowBound(w / 2, k - 1); }
  }

  lemma {:induction false} ShrBound(w: nat, c: nat, k: nat)
    requires w < Pow2(c + k)
    ensures Shr(w, c) < Pow2(k)
  {
    if c != 0 { ShrBound(w / 2, c - 1, k); }
  }

  lemma {:induction false} ShlBound(w: nat, c: nat, k: nat)
    requires w < Pow2(c)
    ensures Shl(w, k) + Pow2(k) <= Pow2(c + k)
  {
    if k != 0 { ShlBound(w, c, k - 1); } else { assert Pow2(0) == 1; }
  }

  lemma WordSpan()
    ensures Pow2(64) == WORD_SPAN
  {
    PowByte(0);
    PowByte(8);
    PowByte(16);
    PowByte(24);
    PowByte(32);
    PowByte(40);
    PowByte(48);
    PowByte(56);
  }

  function Xor64(a: Word, b: Word): Word {
    WordSpan();
    XorBound(a, b, 64);
    Xor(a, b)
  }

  lemma {:induction false} XorZero(a: nat)
    ensures Xor(a, 0) == a
  {
    if a != 0 { XorZero(a / 2); }
  }

  lemma {:induction false} XorAssoc(a: nat, b: nat, c: nat)
    ensures Xor(Xor(a, b), c) == Xor(a, Xor(b, c))
    decreases a + b + c
  {
    if a + b + c != 0 { XorAssoc(a / 2, b / 2, c / 2); }
  }

  lemma {:induction false} OrZero(b: nat)
    ensures Or(0, b) == b && Xor(0, b) == b
  {
    if b != 0 { OrZero(b / 2); }
  }

  /** Where no bit is in both, or and xor are sums. */
  lemma {:induction false} OrApart(a: nat, b: nat, k: nat)
    requires a < Pow2(k)
    ensures Or(a, Shl(b, k)) == a + Shl(b, k) == Xor(a, Shl(b, k))
  {
    if k == 0 {
      OrZero(b);
    } else {
      OrApart(a / 2, b, k - 1);
      OrStep(a, Shl(b, k - 1));
    }
  }

  lemma OrStep(a: nat, q: nat)
    ensures Or(a, 2 * q) == a % 2 + 2 * Or(a / 2, q) && Xor(a, 2 * q) == a % 2 + 2 * Xor(a / 2, q)
  {}

  // ---- rotation

  /** rotr64 as written: two shifts, truncated to 64 bits, and an or. */
  function Rotr(w: Word, c: nat): nat
    requires c < 64
  {
    Or(Shr(w, c), Low(Shl(w, 64 - c), 64))
  }

  /** Rotation right: the low c bits become the high ones. */
  function Rotation(w: Word, c: nat): (r: Word)
    requires c < 64
  {
    WordSpan();
    ShrBound(w, c, 64 - c);
    LowBound(w, c);
    ShlBound(Low(w, c), c, 64 - c);
    Shr(w, c) + Shl(Low(w, c), 64 - c)
  }

  lemma {:induction false} LowShl(w: nat, m: nat, j: nat)
    ensures Low(Shl(w, j), m + j) == Shl(Low(w, m), j)
  {
    if j != 0 { LowShl(w, m, j - 1); }
  }

  lemma RotrRotates(w: Word, c: nat)
    requires c < 64
    ensures Rotr(w, c) == Rotation(w, c)
  {
    LowShl(w, c, 64 - c);
    WordSpan();
    ShrBound(w, c, 64 - c);
    OrApart(Shr(w, c), Low(w, c), 64 - c);
  }

  // ---- little-endian loads and stores

  /** The value of bytes, least significant first. */
  function LittleEndian(p: seq<Byte>): nat {
    if p == [] then 0 else p[0] as int + 256 * LittleEndian(p[1..])
  }

  function LeBytes(w: nat, n: nat): seq<Byte> { seq(n, i requires 0 <= i => ByteOf(w, i)) }

  /** load64 as written: eight shifts and ors. */
  function Load64(p: seq<Byte>): nat
    requires |p| == 8
  {
    Or(Or(Or(Or(Or(Or(Or(p[0], Shl(p[1], 8)), Shl(p[2], 16)), Shl(p[3], 24)), Shl(p[4], 32)), Shl(p[5], 40)),
          Shl(p[6], 48)), Shl(p[7], 56))
  }

  /** store64 as written: each byte is a shift, truncated. */
  function StoreByte(w: Word, i: nat): (b: Byte)
    requires i < 8
  {
    ByteStep(Shr(w, 8 * i));
    Low(Shr(w, 8 * i), 8)
  }

  lemma ShlByte(b: nat, k: nat)
    ensures Shl(b, k + 8) == 256 * Shl(b, k)
  {
    assert Shl(b, k + 2) == 4 * Shl(b, k);
    assert Shl(b, k + 4) == 4 * Shl(b, k + 2);
    assert Shl(b, k + 6) == 4 * Shl(b, k + 4);
  }

  lemma CrumbStep(w: nat, k: nat)
    ensures Shr(w, k + 2) == Shr(w / 4, k) && Low(w, k + 2) == w % 4 + 4 * Low(w / 4, k)
  {
    assert w / 2 / 2 == w / 4 && w % 2 + 2 * (w / 2 % 2) == w % 4;
    assert Low(w, k + 2) == w % 2 + 2 * Low(w / 2, k + 1);
  }

  lemma ByteStep(w: nat)
    ensures Shr(w, 8) == w / 256 && Low(w, 8) == w % 256
  {
    var a := w / 4;
    var b := a / 4;
    var c := b / 4;
    CrumbStep(w, 6);
    CrumbStep(a, 4);
    CrumbStep(b, 2);
    CrumbStep(c, 0);
    FourCrumbs(w, a, b, c, c / 4);
  }

  lemma FourCrumbs(w: nat, a: nat, b: nat, c: nat, d: nat)
    requires a == w / 4 && b == a / 4 && c == b / 4 && d == c / 4
    ensures w / 256 == d && w % 256 == w % 4 + 4 * (a % 4 + 4 * (b % 4 + 4 * (c % 4)))
  {
    assert w == 256 * d + (w % 4 + 4 * (a % 4 + 4 * (b % 4 + 4 * (c % 4))));
  }

  lemma {:induction false} ShrAdd(w: nat, i: nat, j: nat)
    ensures Shr(w, i + j) == Shr(Shr(w, i), j)
  {
    if i != 0 { ShrAdd(w / 2, i - 1, j); }
  }

  lemma {:induction false} LeBound(p: seq<Byte>)
    ensures LittleEndian(p) < Pow2(8 * |p|)
  {
    if p != [] {
      LeBound(p[1..]);
      assert Pow2(8) == 256;
      PowByte(8 * |p| - 8);
    } else {
      assert Pow2(0) == 1;
    }
  }

  lemma PowByte(k: nat)
    ensures Pow2(k + 8) == 256 * Pow2(k)
  {
    assert Pow2(k + 2) == 4 * Pow2(k);
    assert Pow2(k + 4) == 4 * Pow2(k + 2);
    assert Pow2(k + 6) == 4 * Pow2(k + 4);
  }

  lemma {:induction false} LeSnoc(p: seq<Byte>, b: Byte)
    ensures LittleEndian(p + [b]) == LittleEndian(p) + Shl(b, 8 * |p|)
  {
    if p == [] {
      assert LittleEndian([b]) == b as int + 256 * LittleEndian([]);
    } else {
      assert (p + [b])[1..] == p[1..] + [b];
      LeSnoc(p[1..], b);
      ShlByte(b, 8 * |p| - 8);
    }
  }

  /** Or-ing in the next byte extends the value. */
  lemma OrNext(p: seq<Byte>, i: nat)
    requires i < |p|
    ensures Or(LittleEndian(p[..i]), Shl(p[i], 8 * i)) == LittleEndian(p[..i + 1])
  {
    LeBound(p[..i]);
    OrApart(LittleEndian(p[..i]), p[i], 8 * i);
    LeSnoc(p[..i], p[i]);
    assert p[..i] + [p[i]] == p[..i + 1];
  }

  /** load64 reads eight bytes, least significant first. */
  lemma LoadLittleEndian(p: seq<Byte>)
    requires |p| == 8
    ensures Load64(p) == LittleEndian(p) < WORD_SPAN
  {
    LoadLow(p);
    OrNext(p, 4);
    OrNext(p, 5);
    OrNext(p, 6);
    OrNext(p, 7);
    assert p[..8] == p;
    LeBound(p);
    WordSpan();
  }

  lemma LoadLow(p: seq<Byte>)
    requires |p| == 8
    ensures Or(Or(Or(p[0], Shl(p[1], 8)), Shl(p[2], 16)), Shl(p[3], 24)) == LittleEndian(p[..4])
  {
    assert LittleEndian(p[..1]) == p[0] by { LeSnoc([], p[0]); assert [] + [p[0]] == p[..1]; }
    OrNext(p, 1);
    OrNext(p, 2);
    OrNext(p, 3);
  }

  lemma {:induction false} LeByteAt(w: nat, n: nat, i: nat)
    requires i < n
    ensures LeBytes(w, n)[i] == Shr(w, 8 * i) % 256
  {
    if i != 0 {
      LeByteAt(w / 256, n - 1, i - 1);
      ByteStep(w);
      ShrAdd(w, 8, 8 * (i - 1));
    }
  }

  /** store64 writes eight bytes, least significant first. */
  lemma StoreLittleEndian(w: Word, i: nat)
    requires i < 8
    ensures StoreByte(w, i) == LeBytes(w, 8)[i]
  {
    LeByteAt(w, 8, i);
    ByteStep(Shr(w, 8 * i));
  }

  /** What store64 writes, load64 reads. */
  lemma {:induction false} LeRoundTrip(w: nat, n: nat)
    requires w < Pow2(8 * n)
    ensures LittleEndian(LeBytes(w, n)) == w
  {
    if n != 0 {
      PowByte(8 * n - 8);
      LeRoundTrip(w / 256, n - 1);
      assert LeBytes(w, n)[1..] == LeBytes(w / 256, n - 1);
    }
  }
}

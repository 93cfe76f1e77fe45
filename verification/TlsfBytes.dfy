/**
 Memory by the byte: little-endian bytes of the words, and `memcpy`.
 */
module TlsfBytes {
  import opened Bits
  import opened TlsfMemory

  /** A word with byte i replaced. */
  function SetByte(x: int, i: nat, v: nat): int
    decreases i
  {
    if i == 0 then x - x % 256 + v else 256 * SetByte(x / 256, i - 1, v) + x % 256
  }

  lemma {:induction false} ByteOfSet(x: int, i: nat, v: nat, j: nat)
    requires v < 256
    ensures ByteOf(SetByte(x, i, v), j) == if i == j then v else ByteOf(x, j)
    decreases i
  {
    if i != 0 {
      assert SetByte(x, i, v) / 256 == SetByte(x / 256, i - 1, v);
      if j != 0 { ByteOfSet(x / 256, i - 1, v, j - 1); }
    } else if j != 0 {
      assert SetByte(x, i, v) / 256 == x / 256;
    }
  }

  function FromValue(v: int): (w: Word)
    ensures w.Value() == v
  {
    Word(v - v % 4, v % 2 == 1, v % 4 >= 2)
  }

  function WordAt(a: int): int { a - a % 8 }

  function Byte(m: Mem, a: int): nat { ByteOf(m(WordAt(a)).Value(), a % 8) }

  function PutByte(m: Mem, a: int, v: nat): Mem {
    Put(m, WordAt(a), FromValue(SetByte(m(WordAt(a)).Value(), a % 8, v)))
  }

  lemma ByteOfPut(m: Mem, a: int, v: nat, c: int)
    requires v < 256
    ensures Byte(PutByte(m, a, v), c) == if c == a then v else Byte(m, c)
  {
    if WordAt(c) == WordAt(a) {
      ByteOfSet(m(WordAt(a)).Value(), a % 8, v, c % 8);
    }
  }

  /** The n bytes at dst in the new memory are the n bytes at src in the old. */
  ghost predicate Copied(m: Mem, m': Mem, src: int, dst: int, n: nat) {
    forall c :: dst <= c < dst + n ==> Byte(m', c) == Byte(m, c - dst + src)
  }

  /** A store of one byte. */
  method StoreByte(m: Mem, a: int, v: nat) returns (m': Mem)
    requires v < 256
    ensures Byte(m', a) == v && forall c :: c != a ==> Byte(m', c) == Byte(m, c)
    ensures forall w :: w != WordAt(a) ==> m'(w) == m(w)
  {
    m' := PutByte(m, a, v);
    forall c ensures Byte(m', c) == if c == a then v else Byte(m, c) { ByteOfPut(m, a, v, c); }
  }

  method LoadByte(m: Mem, a: int) returns (v: nat)
    ensures v == Byte(m, a) && v < 256
  {
    v := Byte(m, a);
  }

  lemma WordInside(dst: int, c: int)
    requires dst % 8 == 0 && dst <= c
    ensures dst <= WordAt(c) <= c
  {}

  /** One byte of `memcpy`. */
  method CopyByte(m: Mem, dst: int, src: int, i: nat) returns (m': Mem)
    requires dst % 8 == 0
    ensures Byte(m', dst + i) == Byte(m, src + i) && forall c :: c != dst + i ==> Byte(m', c) == Byte(m, c)
    ensures forall a :: a < dst || dst + i < a ==> m'(a) == m(a)
  {
    var v := LoadByte(m, src + i);
    m' := StoreByte(m, dst + i, v);
    WordInside(dst, dst + i);
  }

  /** `memcpy` to an aligned address, between ranges that do not overlap. */
  method Memcpy(m: Mem, dst: int, src: int, n: nat) returns (m': Mem)
    requires dst % 8 == 0 && (dst + n <= src || src + n <= dst)
    ensures Copied(m, m', src, dst, n)
    ensures forall a :: a < dst || dst + n <= a ==> m'(a) == m(a)
  {
    m' := m;
    for i := 0 to n
      invariant forall c :: dst <= c < dst + i ==> Byte(m', c) == Byte(m, c - dst + src)
      invariant forall c :: c < dst || dst + i <= c ==> Byte(m', c) == Byte(m, c)
      invariant forall a :: a < dst || dst + n <= a ==> m'(a) == m(a)
    {
      m' := CopyByte(m', dst, src, i);
    }
  }

  /** Equal words are equal bytes. */
  lemma SameCopied(m: Mem, m': Mem, b: int, n: nat, k: nat)
    requires b % 8 == 0 && k <= n && Same(m, m', b, n)
    ensures Copied(m, m', b + 16, b + 16, k)
  {
    forall c | b + 16 <= c < b + 16 + k ensures Byte(m', c) == Byte(m, c) {
      assert b + 16 <= WordAt(c) <= c;
    }
  }

  /** Allocating, then moving block b into the new block c, as seen by clients. */
  lemma MoveComposes(m0: Mem, m1: Mem, m2: Mem, live: map<int, nat>, b: int, c: int, k: nat)
    requires b % 8 == 0 && b in live && c !in live && k <= live[b]
    requires KeepsBytes(m0, m1, live) && KeepsBytes(m1, m2, live - {b})
    requires Copied(m1, m2, b + 16, c + 16, k)
    ensures Copied(m0, m2, b + 16, c + 16, k)
    ensures KeepsBytes(m0, m2, live - {b})
  {
    assert Same(m0, m1, b, live[b]);
    SameCopied(m0, m1, b, live[b], k);
    KeepsBytesFewer(m0, m1, live, live - {b});
    KeepsBytesTransitive(m0, m1, m2, live - {b});
  }

  /** Growing, then trimming block b in place, as seen by clients. */
  lemma InPlaceComposes(m0: Mem, m1: Mem, m2: Mem, live: map<int, nat>, live2: map<int, nat>, b: int, k: nat)
    requires b % 8 == 0 && b in live && b in live2 && live2 == live[b := live2[b]] && k <= live[b] && k <= live2[b]
    requires KeepsBytes(m0, m1, live) && KeepsBytes(m1, m2, live2)
    ensures Copied(m0, m2, b + 16, b + 16, k)
    ensures KeepsBytes(m0, m2, live - {b}) && live2 == (live - {b})[b := live2[b]]
  {
    var less := live[b := k];
    KeepsBytesFewer(m0, m1, live, less);
    KeepsBytesFewer(m1, m2, live2, less);
    KeepsBytesTransitive(m0, m1, m2, less);
    assert Same(m0, m2, b, less[b]);
    SameCopied(m0, m2, b, k, k);
    KeepsBytesFewer(m0, m2, less, live - {b});
  }
}

/**
 BLAKE2b as RFC 7693 defines it: the compression function F of section 3.2 and
 the hash of section 3.3.
 */
module Rfc7693 {
  import opened Bits
  import opened BlakeWords

  const BLOCK := 128

  /** Section 2.6. */
  const IV: seq<Word> := [
    0x6a09e667f3bcc908, 0xbb67ae8584caa73b, 0x3c6ef372fe94f82b, 0xa54ff53a5f1d36f1,
    0x510e527fade682d1, 0x9b05688c2b3e6c1f, 0x1f83d9abfb41bd6b, 0x5be0cd19137e2179]

  /** Section 2.7. */
  const SIGMA: seq<seq<nat>> := [
    [0, 1, 2, 3, 4, 5, 6, 7, 8, 9, 10, 11, 12, 13, 14, 15],
    [14, 10, 4, 8, 9, 15, 13, 6, 1, 12, 0, 2, 11, 7, 5, 3],
    [11, 8, 12, 0, 5, 2, 15, 13, 10, 14, 3, 6, 7, 1, 9, 4],
    [7, 9, 3, 1, 13, 12, 11, 14, 2, 6, 5, 10, 4, 0, 15, 8],
    [9, 0, 5, 7, 2, 4, 10, 15, 14, 1, 11, 12, 6, 8, 3, 13],
    [2, 12, 6, 10, 0, 11, 8, 3, 4, 13, 7, 5, 15, 14, 1, 9],
    [12, 5, 1, 15, 14, 13, 4, 10, 0, 7, 6, 3, 9, 2, 8, 11],
    [13, 11, 7, 14, 12, 1, 3, 9, 5, 0, 15, 4, 8, 6, 2, 10],
    [6, 15, 14, 9, 11, 3, 0, 8, 12, 2, 13, 7, 1, 4, 10, 5],
    [10, 2, 8, 4, 7, 6, 1, 5, 15, 11, 9, 14, 3, 12, 13, 0]]

  function Add(a: Word, b: Word): Word { (a as int + b as int) % WORD_SPAN }

  /** Section 3.1: mixing x and y into the words a, b, c and d of v. */
  function G(v: seq<Word>, a: nat, b: nat, c: nat, d: nat, x: Word, y: Word): (r: seq<Word>)
    requires |v| == 16 && a < 16 && b < 16 && c < 16 && d < 16
    ensures |r| == 16
  {
    var a1 := Add(Add(v[a], v[b]), x);
    var d1 := Rotation(Xor64(v[d], a1), 32);
    var c1 := Add(v[c], d1);
    var b1 := Rotation(Xor64(v[b], c1), 24);
    var a2 := Add(Add(a1, b1), y);
    var d2 := Rotation(Xor64(d1, a2), 16);
    var c2 := Add(c1, d2);
    var b2 := Rotation(Xor64(b1, c2), 63);
    v[a := a2][b := b2][c := c2][d := d2]
  }

  /** The four column mixings of a round, with the message words in the order s. */
  function Columns(v: seq<Word>, m: seq<Word>, s: seq<nat>): (r: seq<Word>)
    requires |v| == 16 && |m| == 16 && Schedule(s)
    ensures |r| == 16
  {
    var v1 := G(v, 0, 4, 8, 12, m[s[0]], m[s[1]]);
    var v2 := G(v1, 1, 5, 9, 13, m[s[2]], m[s[3]]);
    var v3 := G(v2, 2, 6, 10, 14, m[s[4]], m[s[5]]);
    G(v3, 3, 7, 11, 15, m[s[6]], m[s[7]])
  }

  /** The four diagonal mixings. */
  function Diagonals(v: seq<Word>, m: seq<Word>, s: seq<nat>): (r: seq<Word>)
    requires |v| == 16 && |m| == 16 && Schedule(s)
    ensures |r| == 16
  {
    var v1 := G(v, 0, 5, 10, 15, m[s[8]], m[s[9]]);
    var v2 := G(v1, 1, 6, 11, 12, m[s[10]], m[s[11]]);
    var v3 := G(v2, 2, 7, 8, 13, m[s[12]], m[s[13]]);
    G(v3, 3, 4, 9, 14, m[s[14]], m[s[15]])
  }

  function Round(v: seq<Word>, m: seq<Word>, s: seq<nat>): (r: seq<Word>)
    requires |v| == 16 && |m| == 16 && Schedule(s)
    ensures |r| == 16
  {
    Diagonals(Columns(v, m, s), m, s)
  }

  predicate Schedule(s: seq<nat>) { |s| == 16 && forall i :: 0 <= i < 16 ==> s[i] < 16 }

  lemma SigmaSchedule(i: nat)
    requires i < 10
    ensures Schedule(SIGMA[i])
  {}

  /** One round for each schedule. */
  function Rounds(v: seq<Word>, m: seq<Word>, ss: seq<seq<nat>>): (r: seq<Word>)
    requires |v| == 16 && |m| == 16 && forall i :: 0 <= i < |ss| ==> Schedule(ss[i])
    ensures |r| == 16
  {
    if ss == [] then v
    else Round(Rounds(v, m, ss[..|ss| - 1]), m, ss[|ss| - 1])
  }

  /** The twelve rounds of BLAKE2b; round i uses row i mod 10. */
  function Schedules(): (ss: seq<seq<nat>>)
    ensures |ss| == 12 && forall i :: 0 <= i < 12 ==> Schedule(ss[i])
  {
    seq(12, i requires 0 <= i < 12 => ScheduleOf(i))
  }

  function ScheduleOf(i: nat): (s: seq<nat>)
    ensures Schedule(s)
  {
    SigmaSchedule(i % 10);
    SIGMA[i % 10]
  }

  /** The last step of F: both halves of v are folded into h. */
  function Fold(h: seq<Word>, v: seq<Word>): (r: seq<Word>)
    requires |h| == 8 && |v| == 16
    ensures |r| == 8
  {
    seq(8, i requires 0 <= i < 8 => Xor64(Xor64(h[i], v[i]), v[i + 8]))
  }

  /** The work vector with both counter words and both finalization words. */
  function Vector(h: seq<Word>, t0: Word, t1: Word, f0: Word, f1: Word): (v: seq<Word>)
    requires |h| == 8
    ensures |v| == 16
  {
    h + IV[..4] + [Xor64(IV[4], t0), Xor64(IV[5], t1), Xor64(IV[6], f0), Xor64(IV[7], f1)]
  }

  function Compression(h: seq<Word>, m: seq<Word>, t0: Word, t1: Word, f0: Word, f1: Word): (r: seq<Word>)
    requires |h| == 8 && |m| == 16
    ensures |r| == 8
  {
    Fold(h, Rounds(Vector(h, t0, t1, f0, f1), m, Schedules()))
  }

  /** The work vector of section 3.2, for byte offset t. */
  function Initial(h: seq<Word>, t: nat, last: bool): (v: seq<Word>)
    requires |h| == 8
    ensures |v| == 16
  {
    var v := h + IV;
    var v1 := v[12 := Xor64(v[12], t % WORD_SPAN)][13 := Xor64(v[13], (t / WORD_SPAN) % WORD_SPAN)];
    if last then v1[14 := Xor64(v1[14], WORD_SPAN - 1)] else v1
  }

  /** Section 3.2: compressing the block words m at byte offset t. */
  function F(h: seq<Word>, m: seq<Word>, t: nat, last: bool): (r: seq<Word>)
    requires |h| == 8 && |m| == 16
    ensures |r| == 8
  {
    Fold(h, Rounds(Initial(h, t, last), m, Schedules()))
  }

  /** F is the compression with the flag word all ones or zero. */
  lemma FCompression(h: seq<Word>, m: seq<Word>, t: nat, last: bool)
    requires |h| == 8 && |m| == 16
    ensures F(h, m, t, last) ==
            Compression(h, m, t % WORD_SPAN, (t / WORD_SPAN) % WORD_SPAN, if last then WORD_SPAN - 1 else 0, 0)
  {
    InitialVector(h, t, t % WORD_SPAN, (t / WORD_SPAN) % WORD_SPAN, last);
  }

  lemma InitialVector(h: seq<Word>, t: nat, t0: Word, t1: Word, last: bool)
    requires |h| == 8 && t0 == t % WORD_SPAN && t1 == (t / WORD_SPAN) % WORD_SPAN
    ensures Initial(h, t, last) == Vector(h, t0, t1, if last then WORD_SPAN - 1 else 0, 0)
  {
    XorZero(IV[6]);
    XorZero(IV[7]);
  }

  /** Word i of a block. */
  function WordAt(block: seq<Byte>, i: nat): Word
    requires |block| == BLOCK && i < 16
  {
    LoadLittleEndian(block[8 * i..8 * i + 8]);
    LittleEndian(block[8 * i..8 * i + 8])
  }

  function Words(block: seq<Byte>): (r: seq<Word>)
    requires |block| == BLOCK
    ensures |r| == 16
  {
    seq(16, i requires 0 <= i < 16 => WordAt(block, i))
  }

  // ---- section 3.3

  /** The padded key, if any, and the message. */
  function Data(key: seq<Byte>, msg: seq<Byte>): (d: seq<Byte>)
    requires |key| <= 64
  {
    if key == [] then msg else key + Zeros(BLOCK - |key|) + msg
  }

  /** The number of blocks dd; an empty message still has one. */
  function Blocks(n: nat): nat { if n == 0 then 1 else (n + 127) / 128 }

  /** Block i of the data, padded with zeros. */
  function BlockAt(d: seq<Byte>, i: nat): (b: seq<Byte>)
    ensures |b| == BLOCK
  {
    seq(BLOCK, j requires 0 <= j < BLOCK => if 128 * i + j < |d| then d[128 * i + j] else 0)
  }

  type Hasher = (seq<Word>, seq<Byte>, nat, bool) -> seq<Word>

  /** F on the bytes of a block. */
  function FBytes(h: seq<Word>, block: seq<Byte>, t: nat, last: bool): (r: seq<Word>)
    ensures |h| == 8 ==> |r| == 8
  {
    if |h| == 8 && |block| == BLOCK then F(h, Words(block), t, last) else h
  }

  /** h after the first i blocks, none of them the last. */
  function Chain(f: Hasher, h: seq<Word>, d: seq<Byte>, i: nat): (r: seq<Word>) {
    if i == 0 then h else f(Chain(f, h, d, i - 1), BlockAt(d, i - 1), 128 * i, false)
  }

  /** h after all data of ll bytes. */
  function HashWith(f: Hasher, h: seq<Word>, d: seq<Byte>, ll: nat): (r: seq<Word>) {
    var last := Blocks(|d|) - 1;
    f(Chain(f, h, d, last), BlockAt(d, last), ll, true)
  }

  /** h before the first block: the parameters are mixed into the first word. */
  function Start(kk: nat, nn: nat): (h: seq<Word>)
    requires kk <= 64 && nn <= 64
    ensures |h| == 8
  {
    IV[0 := Xor64(Xor64(Xor64(IV[0], 0x01010000), Shl8(kk)), nn)]
  }

  function Shl8(k: nat): (w: Word)
    requires k <= 64
  {
    ShlByte(k, 0);
    Shl(k, 8)
  }

  /** The words of h as bytes, least significant first. */
  function Output(h: seq<Word>): (r: seq<Byte>)
    requires |h| == 8
    ensures |r| == 64
  {
    seq(64, j requires 0 <= j < 64 => LeBytes(h[j / 8], 8)[j % 8])
  }

  ghost predicate Keeps(f: Hasher) {
    forall h, b, t, last {:trigger f(h, b, t, last)} :: |h| == 8 ==> |f(h, b, t, last)| == 8
  }

  lemma {:induction false} ChainLength(f: Hasher, h: seq<Word>, d: seq<Byte>, i: nat)
    requires Keeps(f) && |h| == 8
    ensures |Chain(f, h, d, i)| == 8
    decreases i
  {
    if i != 0 { ChainLength(f, h, d, i - 1); }
  }

  lemma HashLength(h: seq<Word>, d: seq<Byte>, ll: nat)
    requires |h| == 8
    ensures |HashWith(FBytes, h, d, ll)| == 8
  {
    ChainLength(FBytes, h, d, Blocks(|d|) - 1);
  }

  /** The hash of nn bytes. */
  function Blake2b(key: seq<Byte>, msg: seq<Byte>, nn: nat): (r: seq<Byte>)
    requires |key| <= 64 && 1 <= nn <= 64
    ensures |r| == nn
  {
    var d, h, ll := Data(key, msg), Start(|key|, nn), if key == [] then |msg| else |msg| + BLOCK;
    HashLength(h, d, ll);
    Output(HashWith(FBytes, h, d, ll))[..nn]
  }
}

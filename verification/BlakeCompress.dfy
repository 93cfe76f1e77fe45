/**
 blake2b_compress on its work arrays, against F of RFC 7693.
 */
module BlakeCompress {
  import opened BlakeWords
  import opened Rfc7693

  /** blake2b_sigma: twelve rows, so that no row number need be reduced. */
  const BLAKE2B_SIGMA: seq<seq<nat>> := [
    [0, 1, 2, 3, 4, 5, 6, 7, 8, 9, 10, 11, 12, 13, 14, 15],
    [14, 10, 4, 8, 9, 15, 13, 6, 1, 12, 0, 2, 11, 7, 5, 3],
    [11, 8, 12, 0, 5, 2, 15, 13, 10, 14, 3, 6, 7, 1, 9, 4],
    [7, 9, 3, 1, 13, 12, 11, 14, 2, 6, 5, 10, 4, 0, 15, 8],
    [9, 0, 5, 7, 2, 4, 10, 15, 14, 1, 11, 12, 6, 8, 3, 13],
    [2, 12, 6, 10, 0, 11, 8, 3, 4, 13, 7, 5, 15, 14, 1, 9],
    [12, 5, 1, 15, 14, 13, 4, 10, 0, 7, 6, 3, 9, 2, 8, 11],
    [13, 11, 7, 14, 12, 1, 3, 9, 5, 0, 15, 4, 8, 6, 2, 10],
    [6, 15, 14, 9, 11, 3, 0, 8, 12, 2, 13, 7, 1, 4, 10, 5],
    [10, 2, 8, 4, 7, 6, 1, 5, 15, 11, 9, 14, 3, 12, 13, 0],
    [0, 1, 2, 3, 4, 5, 6, 7, 8, 9, 10, 11, 12, 13, 14, 15],
    [14, 10, 4, 8, 9, 15, 13, 6, 1, 12, 0, 2, 11, 7, 5, 3]]

  lemma SigmaRow(r: nat)
    requires r < 12
    ensures BLAKE2B_SIGMA[r] == Schedules()[r]
  {}

  /** The table is SIGMA, its rows taken modulo ten. */
  lemma SigmaTable()
    ensures BLAKE2B_SIGMA == Schedules() && Table(BLAKE2B_SIGMA)
  {
    forall r | 0 <= r < 12 ensures BLAKE2B_SIGMA[r] == Schedules()[r] { SigmaRow(r); }
  }

  /** `rotr64(x ^ y, c)` */
  method XorRotate(x: Word, y: Word, c: nat) returns (r: Word)
    requires c < 64
    ensures r == Rotation(Xor64(x, y), c)
  {
    RotrRotates(Xor64(x, y), c);
    r := Rotr(Xor64(x, y), c);
  }

  /** The macro G, in place on v. */
  method Mix(v: array<Word>, a: nat, b: nat, c: nat, d: nat, x: Word, y: Word)
    requires v.Length == 16 && a < 16 && b < 16 && c < 16 && d < 16
    requires a != b && a != c && a != d && b != c && b != d && c != d
    modifies v
    ensures v[..] == G(old(v[..]), a, b, c, d, x, y)
  {
    var r;
    v[a] := Add(Add(v[a], v[b]), x);
    r := XorRotate(v[d], v[a], 32);
    v[d] := r;
    v[c] := Add(v[c], v[d]);
    r := XorRotate(v[b], v[c], 24);
    v[b] := r;
    v[a] := Add(Add(v[a], v[b]), y);
    r := XorRotate(v[d], v[a], 16);
    v[d] := r;
    v[c] := Add(v[c], v[d]);
    r := XorRotate(v[b], v[c], 63);
    v[b] := r;
  }

  /** The macro ROUND: columns, then diagonals. */
  method MixColumns(v: array<Word>, m: seq<Word>, s: seq<nat>)
    requires v.Length == 16 && |m| == 16 && Schedule(s)
    modifies v
    ensures v[..] == Columns(old(v[..]), m, s)
  {
    Mix(v, 0, 4, 8, 12, m[s[0]], m[s[1]]);
    Mix(v, 1, 5, 9, 13, m[s[2]], m[s[3]]);
    Mix(v, 2, 6, 10, 14, m[s[4]], m[s[5]]);
    Mix(v, 3, 7, 11, 15, m[s[6]], m[s[7]]);
  }

  method MixDiagonals(v: array<Word>, m: seq<Word>, s: seq<nat>)
    requires v.Length == 16 && |m| == 16 && Schedule(s)
    modifies v
    ensures v[..] == Diagonals(old(v[..]), m, s)
  {
    Mix(v, 0, 5, 10, 15, m[s[8]], m[s[9]]);
    Mix(v, 1, 6, 11, 12, m[s[10]], m[s[11]]);
    Mix(v, 2, 7, 8, 13, m[s[12]], m[s[13]]);
    Mix(v, 3, 4, 9, 14, m[s[14]], m[s[15]]);
  }

  ghost predicate Table(sigma: seq<seq<nat>>) { |sigma| == 12 && forall i :: 0 <= i < 12 ==> Schedule(sigma[i]) }

  /** ROUND(r): the next round of the schedule. */
  method MixRound(v: array<Word>, m: seq<Word>, sigma: seq<seq<nat>>, r: nat, ghost v0: seq<Word>)
    requires v.Length == 16 && |m| == 16 && |v0| == 16 && r < 12 && Table(sigma) && v[..] == Rounds(v0, m, sigma[..r])
    modifies v
    ensures v[..] == Rounds(v0, m, sigma[..r + 1])
  {
    ghost var sr := sigma[..r + 1];
    assert sr[..|sr| - 1] == sigma[..r] && sr[|sr| - 1] == sigma[r];
    MixColumns(v, m, sigma[r]);
    MixDiagonals(v, m, sigma[r]);
  }

  /** The words of a block. */
  method LoadBlock(block: seq<Byte>) returns (m: array<Word>)
    requires |block| == 128
    ensures fresh(m) && m[..] == Words(block)
  {
    m := new Word[16];
    var i := 0;
    while i < 16
      invariant 0 <= i <= 16
      invariant forall j :: 0 <= j < i ==> m[j] == WordAt(block, j)
    {
      LoadLittleEndian(block[8 * i..8 * i + 8]);
      m[i] := Load64(block[8 * i..8 * i + 8]);
      i := i + 1;
    }
  }

  /** The work vector. */
  method LoadVector(h: array<Word>, t0: Word, t1: Word, f0: Word, f1: Word) returns (v: array<Word>)
    requires h.Length == 8
    ensures fresh(v) && v.Length == 16 && v[..] == Vector(h[..], t0, t1, f0, f1)
  {
    v := new Word[16];
    var i := 0;
    while i < 8
      invariant 0 <= i <= 8
      invariant forall j :: 0 <= j < i ==> v[j] == h[j]
    {
      v[i] := h[i];
      i := i + 1;
    }
    v[8] := IV[0];
    v[9] := IV[1];
    v[10] := IV[2];
    v[11] := IV[3];
    v[12] := Xor64(IV[4], t0);
    v[13] := Xor64(IV[5], t1);
    v[14] := Xor64(IV[6], f0);
    v[15] := Xor64(IV[7], f1);
  }

  /** ROUND(0) to ROUND(11). */
  method MixRounds(v: array<Word>, m: seq<Word>, sigma: seq<seq<nat>>)
    requires v.Length == 16 && |m| == 16 && Table(sigma)
    modifies v
    ensures v[..] == Rounds(old(v[..]), m, sigma)
  {
    ghost var v0 := v[..];
    assert sigma[..0] == [] && sigma[..12] == sigma;
    for r := 0 to 12
      invariant v[..] == Rounds(v0, m, sigma[..r])
    {
      MixRound(v, m, sigma, r, v0);
    }
  }

  /** Both halves of v are folded into h. */
  method FoldInto(h: array<Word>, v: array<Word>)
    requires h.Length == 8 && v.Length == 16 && h != v
    modifies h
    ensures h[..] == Fold(old(h[..]), v[..])
  {
    var i := 0;
    while i < 8
      invariant 0 <= i <= 8
      invariant v[..] == old(v[..])
      invariant forall j :: i <= j < 8 ==> h[j] == old(h[j])
      invariant forall j :: 0 <= j < i ==> h[j] == Xor64(Xor64(old(h[j]), v[j]), v[j + 8])
    {
      h[i] := Xor64(Xor64(h[i], v[i]), v[i + 8]);
      i := i + 1;
    }
  }

  /** blake2b_compress: h becomes F of the block. */
  method CompressBlock(h: array<Word>, block: seq<Byte>, t0: Word, t1: Word, f0: Word, f1: Word)
    requires h.Length == 8 && |block| == 128
    modifies h
    ensures h[..] == Compression(old(h[..]), Words(block), t0, t1, f0, f1)
  {
    var m := LoadBlock(block);
    var v := LoadVector(h, t0, t1, f0, f1);
    SigmaTable();
    MixRounds(v, m[..], BLAKE2B_SIGMA);
    FoldInto(h, v);
  }
}

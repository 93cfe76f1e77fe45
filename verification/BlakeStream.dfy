/**
 A streaming hash state fed one byte at a time, over any compression function:
 the reference for what blake2b_update and blake2b_final do with whole chunks.
 */
module BlakeStream {
  import opened Bits
  import opened BlakeWords
  import Rfc7693

  const BLOCK := 128
  const COUNT_SPAN: nat := WORD_SPAN * WORD_SPAN

  /** Chain value, block, byte counter and finalization words to chain value. */
  type Compressor = (seq<Word>, seq<Byte>, nat, Word, Word) -> seq<Word>

  /** Chain value, byte counter, finalization words, bytes not yet compressed. */
  datatype Stream = Stream(h: seq<Word>, t: nat, f0: Word, f1: Word, tail: seq<Byte>)

  /** Counting n bytes and compressing a block. */
  function Compress(c: Compressor, s: Stream, n: nat, block: seq<Byte>): (r: Stream)
    ensures r.tail == []
  {
    var t := (s.t + n) % COUNT_SPAN;
    Stream(c(s.h, block, t, s.f0, s.f1), t, s.f0, s.f1, [])
  }

  /** One more byte: a full buffer is compressed only now that more has come. */
  function FeedByte(c: Compressor, s: Stream, b: Byte): (r: Stream)
    ensures |r.tail| <= BLOCK
  {
    if |s.tail| < BLOCK then s.(tail := s.tail + [b])
    else Compress(c, s, BLOCK, s.tail).(tail := [b])
  }

  function Feed(c: Compressor, s: Stream, d: seq<Byte>): (r: Stream)
    ensures |s.tail| <= BLOCK ==> |r.tail| <= BLOCK
  {
    if d == [] then s else FeedByte(c, Feed(c, s, d[..|d| - 1]), d[|d| - 1])
  }

  /** Only the concatenation matters. */
  lemma {:induction false} FeedConcat(c: Compressor, s: Stream, a: seq<Byte>, b: seq<Byte>)
    ensures Feed(c, s, a + b) == Feed(c, Feed(c, s, a), b)
  {
    if b == [] {
      assert a + b == a;
    } else {
      FeedConcat(c, s, a, b[..|b| - 1]);
      assert (a + b)[..|a + b| - 1] == a + b[..|b| - 1];
    }
  }

  /** What fits is buffered. */
  lemma {:induction false} FeedFits(c: Compressor, s: Stream, d: seq<Byte>)
    requires |s.tail| + |d| <= BLOCK
    ensures Feed(c, s, d) == s.(tail := s.tail + d)
  {
    if d == [] {
      assert s.tail + d == s.tail;
    } else {
      FeedFits(c, s, d[..|d| - 1]);
      assert s.tail + d == (s.tail + d[..|d| - 1]) + [d[|d| - 1]];
    }
  }

  /** A full buffer may be compressed at once if more is known to come. */
  lemma {:induction false} FeedFull(c: Compressor, s: Stream, d: seq<Byte>)
    requires |s.tail| == BLOCK && d != []
    ensures Feed(c, s, d) == Feed(c, Compress(c, s, BLOCK, s.tail), d)
  {
    if |d| == 1 {
      assert d[..0] == [];
      assert Feed(c, s, d) == FeedByte(c, Feed(c, s, []), d[0]);
      assert [] + [d[0]] == [d[0]];
    } else {
      FeedFull(c, s, d[..|d| - 1]);
    }
  }

  /** One step of the block loop. */
  lemma FeedBlock(c: Compressor, s: Stream, a: seq<Byte>, b: seq<Byte>)
    requires |s.tail| + |a| == BLOCK && b != []
    ensures Feed(c, s, a + b) == Feed(c, Compress(c, s, BLOCK, s.tail + a), b)
  {
    FeedConcat(c, s, a, b);
    FeedFits(c, s, a);
    FeedFull(c, s.(tail := s.tail + a), b);
  }

  // ---- the state after some data

  /** Blocks compressed while n bytes were fed: all but the last one. */
  function Done(n: nat): nat { Rfc7693.Blocks(n) - 1 }

  /** The chain value after the first i blocks of d. */
  function Chain(c: Compressor, h: seq<Word>, d: seq<Byte>, i: nat): (r: seq<Word>) {
    if i == 0 then h else c(Chain(c, h, d, i - 1), Rfc7693.BlockAt(d, i - 1), (128 * i) % COUNT_SPAN, 0, 0)
  }

  ghost predicate Fed(c: Compressor, s: Stream, h: seq<Word>, d: seq<Byte>) {
    && s.h == Chain(c, h, d, Done(|d|)) && s.t == (128 * Done(|d|)) % COUNT_SPAN && s.f0 == 0 && s.f1 == 0
    && 128 * Done(|d|) <= |d| && s.tail == d[128 * Done(|d|)..]
  }

  lemma {:induction false} ChainPrefix(c: Compressor, h: seq<Word>, d: seq<Byte>, e: seq<Byte>, i: nat)
    requires 128 * i <= |d|
    ensures Chain(c, h, d + e, i) == Chain(c, h, d, i)
  {
    if i != 0 {
      ChainPrefix(c, h, d, e, i - 1);
      assert Rfc7693.BlockAt(d + e, i - 1) == Rfc7693.BlockAt(d, i - 1);
    }
  }

  lemma DoneSteps(n: nat)
    ensures 128 * Done(n) <= n
    ensures Done(n + 1) == if n - 128 * Done(n) == 128 then Done(n) + 1 else Done(n)
    ensures n - 128 * Done(n) <= 128 && (n > 0 ==> n > 128 * Done(n))
  {}

  /** Whatever the cuts, the state is that of the data fed so far. */
  lemma {:induction false} FeedChain(c: Compressor, h: seq<Word>, d: seq<Byte>)
    ensures Fed(c, Feed(c, Stream(h, 0, 0, 0, []), d), h, d)
  {
    var s0 := Stream(h, 0, 0, 0, []);
    if d == [] {
      assert d[0..] == [];
    } else {
      var e, b := d[..|d| - 1], d[|d| - 1];
      FeedChain(c, h, e);
      FedByte(c, Feed(c, s0, e), h, e, b);
      assert d == e + [b];
    }
  }

  lemma FedByte(c: Compressor, s: Stream, h: seq<Word>, e: seq<Byte>, b: Byte)
    requires Fed(c, s, h, e)
    ensures Fed(c, FeedByte(c, s, b), h, e + [b])
  {
    var k := Done(|e|);
    DoneSteps(|e|);
    ChainPrefix(c, h, e, [b], k);
    if |s.tail| < BLOCK {
      assert (e + [b])[128 * k..] == e[128 * k..] + [b];
    } else {
      assert Rfc7693.BlockAt(e, k) == s.tail;
      CountStep(k);
      ChainPrefix(c, h, e, [b], k + 1);
      assert (e + [b])[128 * (k + 1)..] == [b];
    }
  }

  lemma CountStep(k: nat)
    ensures ((128 * k) % COUNT_SPAN + 128) % COUNT_SPAN == (128 * (k + 1)) % COUNT_SPAN
  {}

  /** The last step: count the tail, mark it last, pad it with zeros. */
  function Finish(c: Compressor, s: Stream, f1: Word): (r: Stream)
    requires |s.tail| <= BLOCK
  {
    Compress(c, s.(f0 := WORD_SPAN - 1, f1 := f1), |s.tail|, s.tail + Zeros(BLOCK - |s.tail|))
  }

  /** Finishing compresses the last block with the count of all bytes. */
  lemma FinishFed(c: Compressor, s: Stream, h: seq<Word>, d: seq<Byte>)
    requires Fed(c, s, h, d)
    ensures |s.tail| <= BLOCK
    ensures Finish(c, s, 0).h == c(Chain(c, h, d, Done(|d|)), Rfc7693.BlockAt(d, Done(|d|)), |d| % COUNT_SPAN,
                                   WORD_SPAN - 1, 0)
  {
    DoneSteps(|d|);
    var k := Done(|d|);
    CountRest(128 * k, |d| - 128 * k);
    assert s.tail + Zeros(BLOCK - |s.tail|) == Rfc7693.BlockAt(d, k);
  }

  lemma CountRest(a: nat, b: nat)
    ensures (a % COUNT_SPAN + b) % COUNT_SPAN == (a + b) % COUNT_SPAN
  {}
}

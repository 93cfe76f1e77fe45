/**
 The streaming hash of blake2b.c: init, update in chunks of any size, final.
 */
module Blake2b {
  import opened Bits
  import opened BlakeWords
  import opened BlakeStream
  import opened BlakeCompress
  import Rfc7693

  const OUTBYTES := 64
  const KEYBYTES := 64

  /** blake2b_compress as a compression function of the stream. */
  function Comp(h: seq<Word>, block: seq<Byte>, t: nat, f0: Word, f1: Word): seq<Word> {
    if |h| == 8 && |block| == BLOCK && t < COUNT_SPAN
    then Rfc7693.Compression(h, Rfc7693.Words(block), t % WORD_SPAN, t / WORD_SPAN, f0, f1)
    else h
  }

  ghost predicate IsBlake(c: Compressor) {
    forall h, block, t, f0, f1 {:trigger Comp(h, block, t, f0, f1)} ::
      c(h, block, t, f0, f1) == Comp(h, block, t, f0, f1)
  }

  /** A compression function equal to it. */
  type Blake = c: Compressor | IsBlake(c) ghost witness Comp

  ghost function TheBlake(): Blake { Comp }

  // ---- against RFC 7693

  /** The two words of a counter modulo 2^128. */
  lemma CountWords(n: nat)
    ensures n % COUNT_SPAN < COUNT_SPAN && (n % COUNT_SPAN) % WORD_SPAN == n % WORD_SPAN
    ensures (n % COUNT_SPAN) / WORD_SPAN == (n / WORD_SPAN) % WORD_SPAN
  {}

  /** One compression is F of the RFC. */
  lemma CompF(c: Blake, h: seq<Word>, block: seq<Byte>, n: nat, last: bool)
    ensures Comp(h, block, n % COUNT_SPAN, if last then WORD_SPAN - 1 else 0, 0) == Rfc7693.FBytes(h, block, n, last)
  {
    CountWords(n);
    if |h| == 8 && |block| == BLOCK {
      Rfc7693.FCompression(h, Rfc7693.Words(block), n, last);
    }
  }

  /** c does what f does, with the flag as a word. */
  ghost predicate Agree(c: Compressor, f: Rfc7693.Hasher) {
    && (forall h, block, n: nat {:trigger f(h, block, n, false)} ::
          c(h, block, n % COUNT_SPAN, 0, 0) == f(h, block, n, false))
    && (forall h, block, n: nat {:trigger f(h, block, n, true)} ::
          c(h, block, n % COUNT_SPAN, WORD_SPAN - 1, 0) == f(h, block, n, true))
  }

  lemma BlakeAgrees(c: Blake)
    ensures Agree(c, Rfc7693.FBytes)
  {
    forall h: seq<Word>, block: seq<Byte>, n: nat
      ensures c(h, block, n % COUNT_SPAN, 0, 0) == Rfc7693.FBytes(h, block, n, false)
      ensures c(h, block, n % COUNT_SPAN, WORD_SPAN - 1, 0) == Rfc7693.FBytes(h, block, n, true)
    {
      CompF(c, h, block, n, false);
      CompF(c, h, block, n, true);
    }
  }

  lemma {:induction false} ChainF(c: Compressor, f: Rfc7693.Hasher, h: seq<Word>, d: seq<Byte>, i: nat)
    requires Agree(c, f)
    ensures Chain(c, h, d, i) == Rfc7693.Chain(f, h, d, i)
    decreases i
  {
    if i != 0 { ChainF(c, f, h, d, i - 1); }
  }

  /** Finishing what has been fed hashes it. */
  lemma FinishHash(c: Compressor, f: Rfc7693.Hasher, s: Stream, h: seq<Word>, d: seq<Byte>)
    requires Agree(c, f) && Fed(c, s, h, d)
    ensures |s.tail| <= BLOCK && Finish(c, s, 0).h == Rfc7693.HashWith(f, h, d, |d|)
  {
    FinishFed(c, s, h, d);
    ChainF(c, f, h, d, Done(|d|));
    var g, b := Rfc7693.Chain(f, h, d, Done(|d|)), Rfc7693.BlockAt(d, Done(|d|));
    assert Rfc7693.HashWith(f, h, d, |d|) == f(g, b, |d|, true);
  }

  /** With the key block and the message as data it is the hash of the RFC. */
  lemma DigestRfc(c: Blake, s: Stream, key: seq<Byte>, msg: seq<Byte>, nn: nat)
    requires |key| <= KEYBYTES && 1 <= nn <= OUTBYTES
    requires s == Feed(c, Stream(Rfc7693.Start(|key|, nn), 0, 0, 0, []), Rfc7693.Data(key, msg))
    ensures |s.tail| <= BLOCK && |Finish(c, s, 0).h| == 8
    ensures Rfc7693.Output(Finish(c, s, 0).h)[..nn] == Rfc7693.Blake2b(key, msg, nn)
  {
    var d, h := Rfc7693.Data(key, msg), Rfc7693.Start(|key|, nn);
    BlakeAgrees(c);
    FeedChain(c, h, d);
    FinishHash(c, Rfc7693.FBytes, s, h, d);
    Rfc7693.HashLength(h, d, |d|);
  }

  // ---- the parameter block

  lemma {:induction false} XorComm(a: nat, b: nat)
    ensures Xor(a, b) == Xor(b, a)
  {
    if a + b != 0 { XorComm(a / 2, b / 2); }
  }

  function Params(kk: Byte, nn: Byte): (p: seq<Byte>)
    ensures |p| == 64
  {
    [nn, kk, 1, 1] + Zeros(60)
  }

  function ParamWord(p: seq<Byte>, i: nat): nat
    requires |p| == 64 && i < 8
  {
    LittleEndian(p[8 * i..8 * i + 8])
  }

  lemma {:induction false} ZerosValue(n: nat)
    ensures LittleEndian(Zeros(n)) == 0
  {
    if n != 0 {
      ZerosValue(n - 1);
      assert Zeros(n)[1..] == Zeros(n - 1);
    }
  }

  lemma FirstParam(kk: Byte, nn: Byte)
    ensures ParamWord(Params(kk, nn), 0) == nn as int + 256 * kk as int + 0x01010000
  {
    var z := Zeros(4);
    var p := Params(kk, nn)[0..8];
    assert p == [nn] + ([kk] + ([1] + ([1] + z)));
    ZerosValue(4);
    LeCons(1, z);
    LeCons(1, [1] + z);
    LeCons(kk, [1] + ([1] + z));
    LeCons(nn, [kk] + ([1] + ([1] + z)));
  }

  lemma LeCons(b: Byte, p: seq<Byte>)
    ensures LittleEndian([b] + p) == b as int + 256 * LittleEndian(p)
  {
    assert ([b] + p)[1..] == p;
  }

  lemma XorApart(low: nat, high: nat, k: nat, w: nat)
    requires low < Pow2(k) && w == Shl(high, k)
    ensures Xor(w, low) == low + w
  {
    XorComm(w, low);
    OrApart(low, high, k);
  }

  /** Fanout and depth 1, as a word. */
  lemma ParamTop()
    ensures Pow2(8) == 256 && Pow2(16) == 0x10000 && Shl(0x0101, 16) == 0x01010000
  {
    PowByte(0);
    PowByte(8);
    ShlByte(0x0101, 0);
    ShlByte(0x0101, 8);
  }

  /** The bytes of the first parameter word do not overlap. */
  lemma ParamSum(kk: nat, nn: nat, b: nat, top: nat)
    requires kk <= 64 && nn <= 64 && b == Shl(kk, 8) && top == 0x01010000
    ensures b == 256 * kk && Xor(b, nn) == nn + b && Xor(top, nn + b) == nn + b + top
  {
    ParamTop();
    ShlByte(kk, 0);
    XorApart(nn, kk, 8, b);
    XorApart(nn + b, 0x0101, 16, top);
  }

  lemma XorParam(iv: Word, kk: Byte, nn: Byte)
    requires kk <= 64 && nn <= 64
    ensures Xor64(iv, nn as int + 256 * kk as int + 0x01010000) ==
              Xor64(Xor64(Xor64(iv, 0x01010000), Rfc7693.Shl8(kk)), nn)
  {
    var a, b: nat := 0x01010000, Rfc7693.Shl8(kk);
    ParamSum(kk, nn, b, a);
    XorAssoc(Xor(iv, a), b, nn);
    XorAssoc(iv, a, nn + b);
  }

  lemma OtherParams(kk: Byte, nn: Byte, i: nat)
    requires 1 <= i < 8
    ensures ParamWord(Params(kk, nn), i) == 0
  {
    assert Params(kk, nn)[8 * i..8 * i + 8] == Zeros(8);
    ZerosValue(8);
  }

  /** The parameter block xored into the IV is the RFC's first chain value. */
  lemma ParamStart(kk: Byte, nn: Byte, i: nat)
    requires kk <= 64 && nn <= 64 && i < 8
    ensures ParamWord(Params(kk, nn), i) < WORD_SPAN
    ensures Xor64(Rfc7693.IV[i], ParamWord(Params(kk, nn), i)) == Rfc7693.Start(kk, nn)[i]
  {
    if i == 0 {
      FirstParam(kk, nn);
      XorParam(Rfc7693.IV[0], kk, nn);
    } else {
      OtherParams(kk, nn, i);
      XorZero(Rfc7693.IV[i]);
    }
  }

  // ---- blake2b_state

  class State {
    const h: array<Word>
    var t0: Word
    var t1: Word
    var f0: Word
    var f1: Word
    const buf: array<Byte>
    var buflen: nat
    var outlen: nat
    var lastNode: bool
    ghost const c: Blake

    ghost predicate Valid()
      reads this
    {
      h.Length == 8 && buf.Length == BLOCK && buflen <= BLOCK && outlen <= OUTBYTES && (h as object) != buf
    }

    /** The stream the fields stand for. */
    ghost function Value(): Stream
      requires Valid()
      reads this, h, buf
    {
      Stream(h[..], t0 as int + WORD_SPAN * t1 as int, f0, f1, buf[..buflen])
    }

    /** Storage for a state, with arbitrary contents. */
    constructor (ghost c: Blake)
      ensures Valid() && fresh(h) && fresh(buf)
    {
      h, buf := new Word[8], new Byte[BLOCK];
      t0, t1, f0, f1, buflen, outlen, lastNode := 0, 0, 0, 0, 0, 0, false;
      this.c := c;
    }

    /** blake2b_increment_counter: a 128-bit sum with the carry between the words. */
    method IncrementCounter(inc: Word)
      modifies this`t0, this`t1
      ensures t0 as int + WORD_SPAN * t1 as int ==
                (old(t0) as int + WORD_SPAN * old(t1) as int + inc as int) % COUNT_SPAN
    {
      ghost var a, b := t0 as int, t1 as int;
      t0 := (t0 as int + inc as int) % WORD_SPAN;
      t1 := (t1 as int + (if t0 < inc then 1 else 0)) % WORD_SPAN;
      Carry(a, b, inc, t0, t1);
    }

    /** blake2b_compress of a block, with the counter as it stands. */
    method CompressWith(block: seq<Byte>)
      requires Valid() && |block| == BLOCK
      modifies h
      ensures h[..] == c(old(h[..]), block, t0 as int + WORD_SPAN * t1 as int, f0, f1)
    {
      CompressInto(h, block, t0, t1, f0, f1, c);
    }

    /** memcpy into the buffer. */
    method Fill(at: nat, d: seq<Byte>)
      requires Valid() && at + |d| <= BLOCK
      modifies buf
      ensures forall i :: 0 <= i < at ==> buf[i] == old(buf[i])
      ensures forall i :: 0 <= i < |d| ==> buf[at + i] == d[i]
      ensures buf[..at] == old(buf[..at]) && buf[at..at + |d|] == d
    {
      forall i | at <= i < at + |d| { buf[i] := d[i - at]; }
    }

    /** Count and compress one whole block. */
    method Absorb(block: seq<Byte>, ghost s: Stream)
      requires Valid() && |block| == BLOCK && buflen == 0 && s.(tail := []) == Value()
      modifies this`t0, this`t1, h
      ensures Valid() && Value() == Compress(c, s, BLOCK, block)
    {
      IncrementCounter(BLOCK);
      CompressWith(block);
    }

    /** The buffer is filled up and compressed. */
    method FillUp(d: seq<Byte>)
      requires Valid() && buflen + |d| == BLOCK
      modifies this`t0, this`t1, this`buflen, h, buf
      ensures Valid() && Value() == Compress(c, old(Value()), BLOCK, old(buf[..buflen]) + d)
    {
      ghost var s := Value();
      var left := buflen;
      buflen := 0;
      Fill(left, d);
      assert buf[..] == s.tail + d;
      Absorb(buf[..], s);
    }

    /** The block loop: whole blocks straight from the input, all but the last. */
    method WholeBlocks(input: seq<Byte>, from: nat) returns (at: nat)
      requires Valid() && buflen == 0 && from < |input|
      modifies this`t0, this`t1, h
      ensures Valid() && from <= at < |input| && |input| - at <= BLOCK
      ensures Feed(c, Value(), input[at..]) == Feed(c, old(Value()), input[from..])
    {
      at := from;
      while |input| - at > BLOCK
        invariant from <= at < |input| && Valid() && buflen == 0
        invariant Feed(c, Value(), input[at..]) == Feed(c, old(Value()), input[from..])
      {
        NextBlock(Value(), input, at);
        Absorb(input[at..at + BLOCK], Value());
        at := at + BLOCK;
      }
    }

    lemma NextBlock(v: Stream, input: seq<Byte>, at: nat)
      requires v.tail == [] && at + BLOCK < |input|
      ensures Feed(c, v, input[at..]) == Feed(c, Compress(c, v, BLOCK, input[at..at + BLOCK]), input[at + BLOCK..])
    {
      var a, b := input[at..at + BLOCK], input[at + BLOCK..];
      assert input[at..] == a + b && v.tail + a == a;
      FeedBlock(c, v, a, b);
    }

    /** What fits goes to the buffer. */
    method Buffer(d: seq<Byte>)
      requires Valid() && buflen + |d| <= BLOCK
      modifies this`buflen, buf
      ensures Valid() && Value() == Feed(c, old(Value()), d)
    {
      FeedFits(c, Value(), d);
      ghost var v := Value();
      Fill(buflen, d);
      assert buf[..buflen + |d|] == v.tail + d;
      buflen := buflen + |d|;
    }

    /** blake2b_update: any chunk, of any length, is fed as its bytes in turn. */
    method Update(input: seq<Byte>) returns (r: int)
      requires Valid()
      modifies this`t0, this`t1, this`buflen, h, buf
      ensures Valid() && r == 0 && Value() == Feed(c, old(Value()), input)
    {
      var at := 0;
      if |input| > 0 {
        var left := buflen;
        var fill := BLOCK - left;
        assert input[0..] == input;
        if |input| > fill {
          ghost var v := Value();
          assert input == input[..fill] + input[fill..];
          FeedBlock(c, v, input[..fill], input[fill..]);
          FillUp(input[..fill]);
          at := WholeBlocks(input, fill);
        }
        Buffer(input[at..]);
      }
      r := 0;
    }

    /** blake2b_init0 */
    method Init0()
      requires Valid()
      modifies this, h, buf
      ensures Valid() && buflen == 0 && t0 == 0 && t1 == 0 && f0 == 0 && f1 == 0 && !lastNode && outlen == 0
      ensures h[..] == Rfc7693.IV
    {
      t0, t1, f0, f1, buflen, outlen, lastNode := 0, 0, 0, 0, 0, 0, false;
      forall i | 0 <= i < BLOCK { buf[i] := 0; }
      var i := 0;
      while i < 8
        invariant 0 <= i <= 8 && forall j :: 0 <= j < i ==> h[j] == Rfc7693.IV[j]
        modifies h
      {
        h[i] := Rfc7693.IV[i];
        i := i + 1;
      }
    }

    /** The words of the parameter block are xored into h. */
    method XorWords(p: seq<Byte>)
      requires Valid() && |p| == 64
      modifies h
      ensures forall i :: 0 <= i < 8 ==> ParamWord(p, i) < WORD_SPAN && h[i] == Xor64(old(h[i]), ParamWord(p, i))
    {
      var i := 0;
      while i < 8
        invariant 0 <= i <= 8
        invariant forall j :: i <= j < 8 ==> h[j] == old(h[j])
        invariant forall j :: 0 <= j < i ==> ParamWord(p, j) < WORD_SPAN && h[j] == Xor64(old(h[j]), ParamWord(p, j))
      {
        LoadLittleEndian(p[8 * i..8 * i + 8]);
        h[i] := Xor64(h[i], Load64(p[8 * i..8 * i + 8]));
        i := i + 1;
      }
    }

    /** blake2b_init_param: IV xor parameter block is the RFC's start. */
    method Begin(kk: Byte, nn: Byte)
      requires Valid() && kk <= KEYBYTES && nn <= OUTBYTES
      modifies this, h, buf
      ensures Valid() && !lastNode && outlen == nn && Value() == Stream(Rfc7693.Start(kk, nn), 0, 0, 0, [])
    {
      var p := Params(kk, nn);
      Init0();
      XorWords(p);
      outlen := p[0];
      forall i | 0 <= i < 8 ensures h[i] == Rfc7693.Start(kk, nn)[i] { ParamStart(kk, nn, i); }
      assert h[..] == Rfc7693.Start(kk, nn);
    }

    /** blake2b_init */
    method Init(n: nat) returns (r: int)
      requires Valid()
      modifies this, h, buf
      ensures Valid() && (r == 0 <==> 1 <= n <= OUTBYTES) && (r == 0 || r == -1)
      ensures r == 0 ==> !lastNode && outlen == n && Value() == Stream(Rfc7693.Start(0, n), 0, 0, 0, [])
    {
      if n == 0 || n > OUTBYTES {
        return -1;
      }
      Begin(0, n);
      return 0;
    }

    /** blake2b_init_key: the padded key is the first block fed. */
    method InitKey(n: nat, key: array?<Byte>, keylen: nat) returns (r: int)
      requires Valid() && (key != null ==> keylen <= key.Length)
      modifies this, h, buf
      ensures Valid() && (r == 0 || r == -1)
      ensures r == 0 <==> 1 <= n <= OUTBYTES && key != null && 1 <= keylen <= KEYBYTES
      ensures r == 0 ==> !lastNode && outlen == n
      ensures r == 0 ==> Value() == Feed(c, Stream(Rfc7693.Start(keylen, n), 0, 0, 0, []),
                                         old(key[..keylen]) + Zeros(BLOCK - keylen))
    {
      if n == 0 || n > OUTBYTES {
        return -1;
      }
      if key == null || keylen == 0 || keylen > KEYBYTES {
        return -1;
      }
      var block := key[..keylen] + Zeros(BLOCK - keylen);
      Begin(keylen, n);
      var _ := Update(block);
      return 0;
    }

    /** Count, mark, pad and compress the last block. */
    method Close()
      requires Valid()
      modifies this`t0, this`t1, this`f0, this`f1, h, buf
      ensures Valid() && f0 == WORD_SPAN - 1
      ensures h[..] == Finish(c, old(Value()), if lastNode then WORD_SPAN - 1 else old(f1)).h
    {
      ghost var s := Value();
      IncrementCounter(buflen);
      MarkLast();
      Pad();
      CompressWith(buf[..]);
    }

    /** blake2b_set_lastblock */
    method MarkLast()
      modifies this`f0, this`f1
      ensures f0 == WORD_SPAN - 1 && f1 == if lastNode then WORD_SPAN - 1 else old(f1)
    {
      if lastNode {
        f1 := WORD_SPAN - 1;
      }
      f0 := WORD_SPAN - 1;
    }

    /** Zeros behind what is buffered. */
    method Pad()
      requires Valid()
      modifies buf
      ensures buf[..] == old(buf[..buflen]) + Zeros(BLOCK - buflen)
    {
      Fill(buflen, Zeros(BLOCK - buflen));
      assert buf[..] == buf[..buflen] + buf[buflen..BLOCK];
    }

    /** The chain value as bytes, through the temporary buffer. */
    method Store() returns (buffer: array<Byte>)
      requires Valid()
      ensures fresh(buffer) && buffer.Length == OUTBYTES && buffer[..] == Rfc7693.Output(h[..])
    {
      buffer := new Byte[OUTBYTES](i => 0);
      var i := 0;
      while i < 8
        invariant 0 <= i <= 8
        invariant forall j :: 0 <= j < 8 * i ==> buffer[j] == Rfc7693.Output(h[..])[j]
      {
        forall j | 0 <= j < 8 ensures StoreByte(h[i], j) == LeBytes(h[i], 8)[j] { StoreLittleEndian(h[i], j); }
        forall j | 8 * i <= j < 8 * i + 8 { buffer[j] := StoreByte(h[i], j - 8 * i); }
        i := i + 1;
      }
    }

    /** blake2b_final: refused without room, or a second time. */
    method Final(out: array?<Byte>, n: nat) returns (r: int)
      requires Valid() && (out != null ==> n <= out.Length && out != buf && (out as object) != h)
      modifies this`t0, this`t1, this`f0, this`f1, h, buf, out
      ensures Valid() && (r == 0 || r == -1)
      ensures r == 0 <==> out != null && n >= outlen && old(f0) == 0
      ensures r == -1 ==> Value() == old(Value()) && (out != null ==> out[..] == old(out[..]))
      ensures r == 0 ==> f0 != 0 && h[..] == Finish(c, old(Value()), if lastNode then WORD_SPAN - 1 else old(f1)).h
      ensures r == 0 ==> out[..outlen] == Rfc7693.Output(h[..])[..outlen] && out[outlen..] == old(out[outlen..])
    {
      if out == null || n < outlen {
        return -1;
      }
      if f0 != 0 {
        return -1;
      }
      Close();
      var buffer := Store();
      forall i | 0 <= i < outlen { out[i] := buffer[i]; }
      return 0;
    }
  }

  method CompressInto(h: array<Word>, block: seq<Byte>, t0: Word, t1: Word, f0: Word, f1: Word, ghost c: Blake)
    requires h.Length == 8 && |block| == BLOCK
    modifies h
    ensures h[..] == c(old(h[..]), block, t0 as int + WORD_SPAN * t1 as int, f0, f1)
  {
    ghost var h0 := h[..];
    CompressBlock(h, block, t0, t1, f0, f1);
    CompIs(c, h0, block, t0, t1, f0, f1, h[..]);
  }

  lemma CompIs(c: Blake, h: seq<Word>, block: seq<Byte>, t0: Word, t1: Word, f0: Word, f1: Word, r: seq<Word>)
    requires |h| == 8 && |block| == BLOCK && r == Rfc7693.Compression(h, Rfc7693.Words(block), t0, t1, f0, f1)
    ensures c(h, block, t0 as int + WORD_SPAN * t1 as int, f0, f1) == r
  {
    CounterWords(t0, t1);
    assert Comp(h, block, t0 as int + WORD_SPAN * t1 as int, f0, f1) == r;
  }

  /** The sum is carried from the low word to the high one. */
  lemma Carry(a: int, b: int, inc: int, t0: int, t1: int)
    requires 0 <= a < WORD_SPAN && 0 <= b < WORD_SPAN && 0 <= inc < WORD_SPAN
    requires t0 == (a + inc) % WORD_SPAN && t1 == (b + (if t0 < inc then 1 else 0)) % WORD_SPAN
    ensures t0 + WORD_SPAN * t1 == (a + WORD_SPAN * b + inc) % COUNT_SPAN
  {
    var carry := if t0 < inc then 1 else 0;
    assert a + inc == t0 + WORD_SPAN * carry;
    var over := if b + carry == WORD_SPAN then 1 else 0;
    assert b + carry == t1 + WORD_SPAN * over;
  }

  lemma CounterWords(t0: Word, t1: Word)
    ensures var t := t0 as int + WORD_SPAN * t1 as int;
            0 <= t < COUNT_SPAN && t % WORD_SPAN == t0 && t / WORD_SPAN == t1
  {}

  // ---- whole hashes

  function Concat(chunks: seq<seq<Byte>>): seq<Byte> {
    if chunks == [] then [] else Concat(chunks[..|chunks| - 1]) + chunks[|chunks| - 1]
  }

  /** The padded key, then the message, is the data of the RFC. */
  lemma FeedData(c: Blake, s: Stream, key: seq<Byte>, msg: seq<Byte>)
    requires |key| <= KEYBYTES
    ensures Feed(c, if key == [] then s else Feed(c, s, key + Zeros(BLOCK - |key|)), msg) ==
              Feed(c, s, Rfc7693.Data(key, msg))
  {
    if key != [] { FeedConcat(c, s, key + Zeros(BLOCK - |key|), msg); }
  }

  /** Start a hash, keyed or not. */
  method Start(s: State, n: nat, key: array?<Byte>, keylen: nat)
    requires s.Valid() && 1 <= n <= OUTBYTES && keylen <= KEYBYTES && (keylen > 0 ==> key != null)
    requires key != null ==> keylen <= key.Length && key != s.buf
    modifies s, s.h, s.buf
    ensures s.Valid() && !s.lastNode && s.outlen == n && s.f0 == 0 && s.f1 == 0
    ensures var s0, k := Stream(Rfc7693.Start(keylen, n), 0, 0, 0, []), if keylen == 0 then [] else old(key[..keylen]);
            s.Value() == if k == [] then s0 else Feed(s.c, s0, k + Zeros(BLOCK - keylen))
  {
    if keylen > 0 {
      var r := s.InitKey(n, key, keylen);
      FeedFits(s.c, Stream(Rfc7693.Start(keylen, n), 0, 0, 0, []), old(key[..keylen]) + Zeros(BLOCK - keylen));
    } else {
      var r := s.Init(n);
    }
  }

  method NewState() returns (s: State)
    ensures s.Valid() && fresh(s) && fresh(s.h) && fresh(s.buf)
  {
    s := new State(TheBlake());
  }

  method FeedChunks(s: State, chunks: seq<seq<Byte>>)
    requires s.Valid()
    modifies s`t0, s`t1, s`buflen, s.h, s.buf
    ensures s.Valid() && s.Value() == Feed(s.c, old(s.Value()), Concat(chunks))
  {
    ghost var v0 := s.Value();
    var i := 0;
    while i < |chunks|
      invariant 0 <= i <= |chunks| && s.Valid()
      invariant s.Value() == Feed(s.c, v0, Concat(chunks[..i]))
      modifies s`t0, s`t1, s`buflen, s.h, s.buf
    {
      var _ := s.Update(chunks[i]);
      FeedConcat(s.c, v0, Concat(chunks[..i]), chunks[i]);
      assert chunks[..i + 1][..i] == chunks[..i];
      i := i + 1;
    }
    assert chunks[..i] == chunks;
  }

  /** Finishing a state that was fed key and message gives the RFC's hash. */
  method Conclude(s: State, out: array<Byte>, n: nat, ghost key: seq<Byte>, ghost msg: seq<Byte>)
    requires s.Valid() && !s.lastNode && s.outlen == n && s.f0 == 0 && s.f1 == 0 && 1 <= n <= OUTBYTES
             && |key| <= KEYBYTES
    requires n <= out.Length && out != s.buf && (out as object) != s.h
    requires s.Value() == Feed(s.c, Stream(Rfc7693.Start(|key|, n), 0, 0, 0, []), Rfc7693.Data(key, msg))
    modifies s`t0, s`t1, s`f0, s`f1, s.h, s.buf, out
    ensures out[..n] == Rfc7693.Blake2b(key, msg, n) && out[n..] == old(out[n..])
  {
    DigestRfc(s.c, s.Value(), key, msg, n);
    var r := s.Final(out, n);
  }

  /** A message cut into chunks in any way hashes to the RFC's hash of the whole. */
  method HashChunks(out: array<Byte>, n: nat, chunks: seq<seq<Byte>>, key: array?<Byte>, keylen: nat)
    requires 1 <= n <= OUTBYTES && n <= out.Length && keylen <= KEYBYTES && (keylen > 0 ==> key != null)
    requires key != null ==> keylen <= key.Length
    modifies out
    ensures out[..n] == Rfc7693.Blake2b(if keylen == 0 then [] else old(key[..keylen]), Concat(chunks), n)
    ensures out[n..] == old(out[n..])
  {
    ghost var k := if keylen == 0 then [] else key[..keylen];
    var s := NewState();
    Start(s, n, key, keylen);
    FeedChunks(s, chunks);
    FeedData(s.c, Stream(Rfc7693.Start(keylen, n), 0, 0, 0, []), k, Concat(chunks));
    Conclude(s, out, n, k, Concat(chunks));
  }

  /** blake2b: the whole hash at once, with the checks of its arguments. */
  method Hash(out: array?<Byte>, outlen: nat, input: array?<Byte>, inlen: nat, key: array?<Byte>, keylen: nat)
    returns (r: int)
    requires (out != null ==> outlen <= out.Length) && (input != null ==> inlen <= input.Length)
             && (key != null ==> keylen <= key.Length)
    modifies out
    ensures r == 0 || r == -1
    ensures r == 0 <==>
              && (input != null || inlen == 0) && out != null && (key != null || keylen == 0)
              && 1 <= outlen <= OUTBYTES && keylen <= KEYBYTES
    ensures r == 0 ==>
              var k := if keylen == 0 then [] else old(key[..keylen]);
              var d := if inlen == 0 then [] else old(input[..inlen]);
              out[..outlen] == Rfc7693.Blake2b(k, d, outlen)
    ensures out != null ==> (if r == 0 then out[outlen..] == old(out[outlen..]) else out[..] == old(out[..]))
  {
    if input == null && inlen > 0 { return -1; }
    if out == null { return -1; }
    if key == null && keylen > 0 { return -1; }
    if outlen == 0 || outlen > OUTBYTES { return -1; }
    if keylen > KEYBYTES { return -1; }
    var data := if inlen == 0 then [] else input[..inlen];
    OneChunk(data);
    HashChunks(out, outlen, [data], key, keylen);
    return 0;
  }

  lemma OneChunk(d: seq<Byte>)
    ensures Concat([d]) == d
  {
    assert [d][..0] == [];
  }
}

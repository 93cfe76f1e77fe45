/**
 The OMAR archive: what omar.c writes with file_push and what the kernel's
 initrd_get_file finds in it.
 */
module Omar {
  import opened BlakeWords

  const BLOCK_SIZE := 512
  const HEADER_SIZE := 15
  const OMAR_REG: Byte := 0
  const OMAR_DIR: Byte := 1
  const OMAR_REV: Byte := 2
  const MAGIC: seq<Byte> := [0x4f, 0x4d, 0x41, 0x52]
  const EOF_MAGIC: seq<Byte> := [0x52, 0x41, 0x4d, 0x4f]
  const EOF_NAME: seq<Byte> := [0x45, 0x4f, 0x46]
  const U32_SPAN: nat := 0x1_0000_0000

  /** What fstat and read give for one path; a directory has a size of its own. */
  datatype Entry = Dir(name: seq<Byte>, mode: nat, size: nat) | Reg(name: seq<Byte>, mode: nat, data: seq<Byte>) {
    function Len(): nat { if Dir? then size else |data| }
    function Type(): Byte { if Dir? then OMAR_DIR else OMAR_REG }
    /** A name is a C string that fits its buffer; mode and length fit their fields. */
    predicate Ok() { |name| <= 255 && 0 !in name && mode < U32_SPAN && Len() < U32_SPAN }
  }

  /** struct omar_hdr, packed. */
  function Header(magic: seq<Byte>, kind: Byte, namelen: Byte, len: nat, mode: nat): (h: seq<Byte>)
    requires |magic| == 4
    ensures |h| == HEADER_SIZE
  {
    magic + [kind, namelen] + LeBytes(len, 4) + [OMAR_REV] + LeBytes(mode, 4)
  }

  /** Header and name, as every record starts. */
  function Head(e: Entry): (h: seq<Byte>)
    requires e.Ok()
    ensures |h| == HEADER_SIZE + |e.name|
  {
    Header(MAGIC, e.Type(), |e.name|, e.Len(), e.mode) + e.name
  }

  /** `BLOCK_SIZE - (len & (BLOCK_SIZE - 1))` */
  function PadLength(len: nat): nat { BLOCK_SIZE - len % BLOCK_SIZE }

  function Padding(len: nat): seq<Byte> { if len % BLOCK_SIZE != 0 then Zeros(PadLength(len)) else [] }

  /** A 32-bit sum that wraps leaves the place within the block alone. */
  lemma Wraps(n: nat)
    ensures (HEADER_SIZE + n % U32_SPAN) % BLOCK_SIZE == (HEADER_SIZE + n) % BLOCK_SIZE
  {
    var q := n / U32_SPAN;
    assert n == U32_SPAN * q + n % U32_SPAN;
    ModShift(8388608 * q, HEADER_SIZE + n % U32_SPAN);
  }

  lemma ModShift(a: nat, b: nat)
    ensures (512 * a + b) % 512 == b % 512
  {}

  /** What follows the name. */
  function Tail(e: Entry): seq<Byte> {
    if e.Dir? then Zeros(PadLength(HEADER_SIZE + |e.name|))
    else if e.data == [] then []
    else e.data + Padding(HEADER_SIZE + |e.name| + |e.data|)
  }

  /** Everything file_push writes for a path. */
  function Record(e: Entry): seq<Byte>
    requires e.Ok()
  {
    Head(e) + Tail(e)
  }

  /** The end record; its mode field is never set. */
  function EofRecord(junk: nat): seq<Byte> { Header(EOF_MAGIC, OMAR_REG, 3, 0, junk) + EOF_NAME }

  // ---- the writer

  class Writer {
    var out: seq<Byte>

    constructor ()
      ensures out == []
    {
      out := [];
    }

    /** file_push of a path; reading an empty file counts as an error. */
    method FilePush(e: Entry) returns (r: int)
      requires e.Ok()
      modifies this
      ensures out == old(out) + Record(e) && (r == 0 <==> e.Dir? || e.data != [])
    {
      HeadPush(e);
      if e.Dir? {
        out := out + Zeros(PadLength(HEADER_SIZE + |e.name|));
        return 0;
      }
      if |e.data| <= 0 {
        return -5;
      }
      DataPush(e.data, |e.name|);
      return 0;
    }

    method HeadPush(e: Entry)
      requires e.Ok()
      modifies this
      ensures out == old(out) + Head(e)
    {
      out := out + Header(MAGIC, e.Type(), |e.name|, e.Len(), e.mode);
      out := out + e.name;
    }

    /** The contents and, short of a block, zeros. */
    method DataPush(data: seq<Byte>, namelen: nat)
      modifies this
      ensures out == old(out) + (data + Padding(HEADER_SIZE + namelen + |data|))
    {
      out := out + data;
      Wraps(namelen + |data|);
      var len := HEADER_SIZE + (namelen + |data|) % U32_SPAN;
      if len % BLOCK_SIZE != 0 {
        out := out + Zeros(PadLength(len));
      }
    }

    /** file_push of the end. */
    method EofPush(junk: nat)
      modifies this
      ensures out == old(out) + EofRecord(junk)
    {
      out := out + Header(EOF_MAGIC, OMAR_REG, 3, 0, junk);
      out := out + EOF_NAME;
    }
  }

  predicate AllOk(es: seq<Entry>) { forall i :: 0 <= i < |es| ==> es[i].Ok() }

  function Records(es: seq<Entry>): (rs: seq<seq<Byte>>)
    requires AllOk(es)
    ensures |rs| == |es| && forall i :: 0 <= i < |es| ==> rs[i] == Record(es[i])
  {
    seq(|es|, i requires 0 <= i < |es| => Record(es[i]))
  }

  /** Records one after the other. */
  function Join(rs: seq<seq<Byte>>): seq<Byte> {
    if rs == [] then [] else Join(rs[..|rs| - 1]) + rs[|rs| - 1]
  }

  /** The archive of a list of entries. */
  function Image(es: seq<Entry>, junk: nat): seq<Byte>
    requires AllOk(es)
  {
    Join(Records(es)) + EofRecord(junk)
  }

  /** Archiving pushes the entries in turn, ignoring errors, and then the end. */
  method Archive(es: seq<Entry>, junk: nat) returns (img: seq<Byte>)
    requires AllOk(es)
    ensures img == Image(es, junk)
  {
    var w := new Writer();
    ghost var rs := Records(es);
    var i := 0;
    while i < |es|
      invariant 0 <= i <= |es| && w.out == Join(rs[..i])
    {
      assert rs[..i + 1][..i] == rs[..i];
      var _ := w.FilePush(es[i]);
      i := i + 1;
    }
    assert rs[..i] == rs;
    w.EofPush(junk);
    img := w.out;
  }

  // ---- the reader

  /** Memory from the initrd root on; past the image it is taken to be zero. */
  function At(img: seq<Byte>, i: nat): Byte { if i < |img| then img[i] else 0 }

  function Slice(img: seq<Byte>, o: nat, n: nat): (r: seq<Byte>)
    ensures |r| == n
  {
    seq<Byte>(n, i requires 0 <= i < n => At(img, o + i))
  }

  function Kind(img: seq<Byte>, p: nat): Byte { At(img, p + 4) }
  function NameLen(img: seq<Byte>, p: nat): Byte { At(img, p + 5) }
  function LenAt(img: seq<Byte>, p: nat): nat { LittleEndian(Slice(img, p + 6, 4)) }
  function ModeAt(img: seq<Byte>, p: nat): nat { LittleEndian(Slice(img, p + 11, 4)) }

  /** `strncmp(hdr->magic, OMAR_EOF, sizeof(OMAR_EOF)) == 0`: the fifth byte, the
      type, is compared with the terminator. */
  predicate IsEof(img: seq<Byte>, p: nat) { Slice(img, p, 4) == EOF_MAGIC && Kind(img, p) == 0 }

  predicate IsRecord(img: seq<Byte>, p: nat) { Slice(img, p, 4) == MAGIC }

  /** The bytes of a C string. */
  function CStr(s: seq<Byte>): seq<Byte> { if s == [] || s[0] == 0 then [] else [s[0]] + CStr(s[1..]) }

  function NameAt(img: seq<Byte>, p: nat): seq<Byte> { CStr(Slice(img, p + HEADER_SIZE, NameLen(img, p) as int)) }

  function AlignUp(v: nat): nat { (v + BLOCK_SIZE - 1) / BLOCK_SIZE * BLOCK_SIZE }

  /** Offset from a record to the next. */
  function Step(img: seq<Byte>, p: nat): (n: nat)
    ensures n >= BLOCK_SIZE
  {
    if Kind(img, p) == OMAR_DIR then BLOCK_SIZE
    else AlignUp(HEADER_SIZE + NameLen(img, p) as int + LenAt(img, p))
  }

  /** What the reader makes of the bytes at p. */
  datatype Sight = End | Bad | Rec(name: seq<Byte>, mode: nat, size: nat, data: nat, step: nat)

  function See(img: seq<Byte>, p: nat): (v: Sight)
    ensures v.Rec? ==> v.step >= BLOCK_SIZE
  {
    if IsEof(img, p) then End
    else if !IsRecord(img, p) then Bad
    else Rec(NameAt(img, p), ModeAt(img, p), LenAt(img, p), p + HEADER_SIZE + NameLen(img, p) as int, Step(img, p))
  }

  type Look = nat -> Sight

  function Watch(img: seq<Byte>): Look { (p: nat) => See(img, p) }

  ghost predicate Shows(look: Look, img: seq<Byte>) { forall p {:trigger See(img, p)} :: look(p) == See(img, p) }

  lemma WatchShows(img: seq<Byte>)
    ensures Shows(Watch(img), img)
  {}

  /** Records met one after the other from the start. */
  ghost predicate Trail(look: Look, ps: seq<nat>) {
    && |ps| > 0 && ps[0] == 0
    && forall i {:trigger Met(look, ps, i)} :: 0 <= i < |ps| - 1 ==> Met(look, ps, i)
  }

  ghost predicate Met(look: Look, ps: seq<nat>, i: nat)
    requires i + 1 < |ps|
  {
    look(ps[i]).Rec? && ps[i + 1] == ps[i] + look(ps[i]).step
  }

  datatype Lookup = Found(mode: nat, size: nat, data: nat) | Enoent | Einval

  /** The answer at the end of a trail none of whose earlier records has the name. */
  ghost predicate Answer(look: Look, path: seq<Byte>, r: Lookup, ps: seq<nat>)
    requires |ps| > 0
  {
    var v := look(ps[|ps| - 1]);
    && (forall i {:trigger Met(look, ps, i)} :: 0 <= i < |ps| - 1 && Met(look, ps, i) ==> look(ps[i]).name != path)
    && match r
       case Found(mode, size, data) => v.Rec? && v.name == path && v.mode == mode && v.size == size && v.data == data
       case Enoent => v.End?
       case Einval => v.Bad?
  }

  /** The answer of some trail; RepliesUnique says there is only one. */
  ghost predicate Replies(look: Look, path: seq<Byte>, r: Lookup) {
    exists ps {:trigger Trail(look, ps)} :: Trail(look, ps) && Answer(look, path, r, ps)
  }

  /** initrd_get_file: the first record of the trail with the name, if any; a record
      without the magic ends the search with EINVAL. */
  method GetFile(img: seq<Byte>, path: seq<Byte>) returns (r: Lookup)
    ensures Replies(Watch(img), path, r)
  {
    WatchShows(img);
    r := Walk(img, path, Watch(img));
  }

  method Walk(img: seq<Byte>, path: seq<Byte>, ghost look: Look) returns (r: Lookup)
    requires Shows(look, img)
    ensures Replies(look, path, r)
  {
    var p := 0;
    ghost var ps: seq<nat> := [0];
    while true
      invariant Trail(look, ps) && p == ps[|ps| - 1]
      invariant forall i {:trigger Met(look, ps, i)} ::
                  0 <= i < |ps| - 1 && Met(look, ps, i) ==> look(ps[i]).name != path
      decreases if p < |img| then 1 + |img| - p else 0
    {
      assert look(p) == See(img, p);
      if IsEof(img, p) {
        return Enoent;
      }
      if !IsRecord(img, p) {
        return Einval;
      }
      PastEnd(img, p);
      var name := Slice(img, p + HEADER_SIZE, NameLen(img, p) as int);
      var off := Step(img, p);
      if CStr(name) == path {
        return Found(ModeAt(img, p), LenAt(img, p), p + HEADER_SIZE + NameLen(img, p) as int);
      }
      Extend(look, ps, path);
      p := p + off;
      ps := ps + [p];
    }
  }

  lemma {:induction false} TrailsAgree(look: Look, ps: seq<nat>, qs: seq<nat>, i: nat)
    requires Trail(look, ps) && Trail(look, qs) && i < |ps| && i < |qs|
    ensures ps[i] == qs[i]
    decreases i
  {
    if i > 0 {
      TrailsAgree(look, ps, qs, i - 1);
      assert Met(look, ps, i - 1) && Met(look, qs, i - 1);
    }
  }

  lemma PassedOver(look: Look, path: seq<Byte>, r: Lookup, ps: seq<nat>, i: nat)
    requires Trail(look, ps) && Answer(look, path, r, ps) && i + 1 < |ps|
    ensures look(ps[i]).Rec? && look(ps[i]).name != path
  {
    assert Met(look, ps, i);
  }

  lemma LongerTrail(look: Look, path: seq<Byte>, r: Lookup, ps: seq<nat>, q: Lookup, qs: seq<nat>)
    requires Trail(look, ps) && Answer(look, path, r, ps) && Trail(look, qs) && Answer(look, path, q, qs)
    ensures |ps| >= |qs|
  {
    if |ps| < |qs| {
      PassedOver(look, path, q, qs, |ps| - 1);
      TrailsAgree(look, ps, qs, |ps| - 1);
    }
  }

  /** Every image has at most one answer to a name. */
  lemma RepliesUnique(look: Look, path: seq<Byte>, r: Lookup, q: Lookup)
    requires Replies(look, path, r) && Replies(look, path, q)
    ensures r == q
  {
    var ps :| Trail(look, ps) && Answer(look, path, r, ps);
    var qs :| Trail(look, qs) && Answer(look, path, q, qs);
    LongerTrail(look, path, r, ps, q, qs);
    LongerTrail(look, path, q, qs, r, ps);
    TrailsAgree(look, ps, qs, |ps| - 1);
  }

  lemma Extend(look: Look, ps: seq<nat>, path: seq<Byte>)
    requires Trail(look, ps) && look(ps[|ps| - 1]).Rec? && look(ps[|ps| - 1]).name != path
    requires forall i {:trigger Met(look, ps, i)} :: 0 <= i < |ps| - 1 && Met(look, ps, i) ==> look(ps[i]).name != path
    ensures var qs := ps + [ps[|ps| - 1] + look(ps[|ps| - 1]).step];
            && Trail(look, qs)
            && forall i {:trigger Met(look, qs, i)} ::
                 0 <= i < |qs| - 1 && Met(look, qs, i) ==> look(qs[i]).name != path
  {
    var qs := ps + [ps[|ps| - 1] + look(ps[|ps| - 1]).step];
    forall i | 0 <= i < |qs| - 1 ensures Met(look, qs, i) && look(qs[i]).name != path {
      assert i < |ps| - 1 ==> Met(look, ps, i);
    }
  }

  lemma PastEnd(img: seq<Byte>, p: nat)
    requires IsRecord(img, p)
    ensures p < |img|
  {
    assert Slice(img, p, 4)[0] == At(img, p);
  }

  // ---- reader against writer

  /** What the reader takes for the length of a record. */
  function Stride(e: Entry): nat { if e.Dir? then BLOCK_SIZE else AlignUp(HEADER_SIZE + |e.name| + |e.data|) }

  predicate Full(e: Entry) { e.Dir? || e.data != [] }

  /** Reader and writer agree on where the next record is exactly when the entry is
      a directory or has data. */
  lemma StrideAgrees(e: Entry)
    requires e.Ok()
    ensures |Record(e)| == Stride(e) <==> Full(e)
    ensures Stride(e) % BLOCK_SIZE == 0
  {
    if e.Reg? { AlignPad(HEADER_SIZE + |e.name| + |e.data|); }
    RecordLength(e);
  }

  /** Aligning up adds the padding. */
  lemma AlignPad(v: nat)
    ensures AlignUp(v) == (if v % BLOCK_SIZE == 0 then v else v + PadLength(v)) && AlignUp(v) % BLOCK_SIZE == 0
  {
    var q, r := v / BLOCK_SIZE, v % BLOCK_SIZE;
    assert v == BLOCK_SIZE * q + r;
    assert (v + BLOCK_SIZE - 1) / BLOCK_SIZE == if r == 0 then q else q + 1;
  }

  lemma RecordLength(e: Entry)
    requires e.Ok()
    ensures var head := HEADER_SIZE + |e.name|;
            && (e.Dir? ==> |Record(e)| == BLOCK_SIZE)
            && (e.Reg? && e.data == [] ==> |Record(e)| == head)
            && (e.Reg? && e.data != [] ==>
                  var n := head + |e.data|;
                  |Record(e)| == n + (if n % BLOCK_SIZE == 0 then 0 else PadLength(n)))
  {}

  lemma SliceAppend(pre: seq<Byte>, r: seq<Byte>, post: seq<Byte>, i: nat, n: nat)
    requires i + n <= |r|
    ensures Slice(pre + r + post, |pre| + i, n) == r[i..i + n]
  {
    var a := Slice(pre + r + post, |pre| + i, n);
    forall j | 0 <= j < n ensures a[j] == r[i..i + n][j] {
      assert a[j] == (pre + r + post)[|pre| + i + j] == r[i + j];
    }
  }

  /** The reader sees a header's fields as they were written. */
  lemma HeaderAt(img: seq<Byte>, pre: seq<Byte>, magic: seq<Byte>, kind: Byte, namelen: Byte, len: nat, mode: nat,
                 post: seq<Byte>)
    requires |magic| == 4 && len < U32_SPAN && mode < U32_SPAN
             && img == pre + Header(magic, kind, namelen, len, mode) + post
    ensures var p := |pre|;
            && Slice(img, p, 4) == magic && Kind(img, p) == kind && NameLen(img, p) == namelen
            && LenAt(img, p) == len && ModeAt(img, p) == mode
  {
    var h, p := Header(magic, kind, namelen, len, mode), |pre|;
    assert h[0..4] == magic && h[6..10] == LeBytes(len, 4) && h[11..15] == LeBytes(mode, 4);
    SliceAppend(pre, h, post, 0, 4);
    SliceAppend(pre, h, post, 6, 4);
    SliceAppend(pre, h, post, 11, 4);
    FourBytes(len);
    FourBytes(mode);
  }

  lemma FourBytes(w: nat)
    requires w < U32_SPAN
    ensures LittleEndian(LeBytes(w, 4)) == w
  {
    PowByte(0);
    PowByte(8);
    PowByte(16);
    PowByte(24);
    LeRoundTrip(w, 4);
  }

  lemma {:induction false} CStrWhole(s: seq<Byte>)
    requires 0 !in s
    ensures CStr(s) == s
  {
    if s != [] {
      assert 0 !in s[1..];
      CStrWhole(s[1..]);
    }
  }

  /** What the reader should make of a record at p. */
  function Seen(e: Entry, p: nat): Sight { Rec(e.name, e.mode, e.Len(), p + HEADER_SIZE + |e.name|, Stride(e)) }

  ghost predicate DataAt(img: seq<Byte>, p: nat, data: seq<Byte>) { Slice(img, p, |data|) == data }

  /** The data of e follow its header and name. */
  ghost predicate Contents(img: seq<Byte>, p: nat, e: Entry)
    requires e.Reg?
  {
    DataAt(img, p + HEADER_SIZE + |e.name|, e.data)
  }

  /** A record in the image is read back as the entry it was written for. */
  lemma RecordAt(img: seq<Byte>, pre: seq<Byte>, e: Entry, post: seq<Byte>)
    requires e.Ok() && img == pre + Head(e) + post
    ensures See(img, |pre|) == Seen(e, |pre|)
  {
    var h := Header(MAGIC, e.Type(), |e.name|, e.Len(), e.mode);
    assert img == pre + h + (e.name + post);
    HeaderAt(img, pre, MAGIC, e.Type(), |e.name|, e.Len(), e.mode, e.name + post);
    SliceAppend(pre, Head(e), post, HEADER_SIZE, |e.name|);
    assert Head(e)[HEADER_SIZE..HEADER_SIZE + |e.name|] == e.name;
    CStrWhole(e.name);
    assert MAGIC[0] != EOF_MAGIC[0];
  }

  lemma EofAt(img: seq<Byte>, pre: seq<Byte>, junk: nat, post: seq<Byte>)
    requires img == pre + EofRecord(junk) + post
    ensures See(img, |pre|) == End
  {
    var h := Header(EOF_MAGIC, OMAR_REG, 3, 0, junk);
    assert img == pre + h + (EOF_NAME + post);
    SliceAppend(pre, h, EOF_NAME + post, 0, 4);
    assert h[0..4] == EOF_MAGIC && h[4] == OMAR_REG;
  }

  // ---- whole archives

  /** Where record i is written. */
  function Offset(rs: seq<seq<Byte>>, i: nat): nat
    requires i <= |rs|
  {
    |Join(rs[..i])|
  }

  lemma OffsetStep(rs: seq<seq<Byte>>, i: nat)
    requires i < |rs|
    ensures Offset(rs, i + 1) == Offset(rs, i) + |rs[i]|
  {
    assert rs[..i + 1][..i] == rs[..i];
  }

  /** The bytes around record i. */
  lemma {:induction false} JoinSplit(rs: seq<seq<Byte>>, i: nat) returns (post: seq<Byte>)
    requires i < |rs|
    ensures Join(rs) == Join(rs[..i]) + rs[i] + post
    decreases |rs|
  {
    var last := |rs| - 1;
    if i == last {
      post := [];
    } else {
      var p := JoinSplit(rs[..last], i);
      assert rs[..last][..i] == rs[..i];
      post := p + rs[last];
    }
  }

  /** The image around record i. */
  lemma ImageSplit(rs: seq<seq<Byte>>, end: seq<Byte>, rest: seq<Byte>, i: nat) returns (post: seq<Byte>)
    requires i < |rs|
    ensures Join(rs) + end + rest == Join(rs[..i]) + rs[i] + post
  {
    var p := JoinSplit(rs, i);
    post := p + end + rest;
  }

  lemma RecordInside(img: seq<Byte>, pre: seq<Byte>, e: Entry, h: seq<Byte>, t: seq<Byte>, post: seq<Byte>)
    requires e.Ok() && h == Head(e) && t == Tail(e) && img == pre + (h + t) + post
    ensures See(img, |pre|) == Seen(e, |pre|)
    ensures e.Reg? ==> Contents(img, |pre|, e)
  {
    assert img == pre + h + (t + post);
    RecordAt(img, pre, e, t + post);
    if e.Reg? { DataInside(img, pre + h, e.data, t, post); }
  }

  lemma DataInside(img: seq<Byte>, pre: seq<Byte>, data: seq<Byte>, t: seq<Byte>, post: seq<Byte>)
    requires img == pre + (t + post) && (data == [] || data <= t)
    ensures DataAt(img, |pre|, data)
  {
    if data != [] {
      assert img == pre + t + post;
      SliceAppend(pre, t, post, 0, |data|);
      assert t[0..|data|] == data;
    }
  }

  /** The reader at record i of an archive. */
  lemma ArchiveAt(img: seq<Byte>, rs: seq<seq<Byte>>, end: seq<Byte>, rest: seq<Byte>, i: nat, e: Entry)
    requires i < |rs| && e.Ok() && rs[i] == Record(e) && img == Join(rs) + end + rest
    ensures See(img, Offset(rs, i)) == Seen(e, Offset(rs, i))
    ensures e.Reg? ==> Contents(img, Offset(rs, i), e)
  {
    var pre, post := Locate(img, rs, end, rest, i);
    RecordThere(img, pre, rs[i], e, post, Offset(rs, i));
  }

  lemma Locate(img: seq<Byte>, rs: seq<seq<Byte>>, end: seq<Byte>, rest: seq<Byte>, i: nat)
    returns (pre: seq<Byte>, post: seq<Byte>)
    requires i < |rs| && img == Join(rs) + end + rest
    ensures img == pre + rs[i] + post && |pre| == Offset(rs, i)
  {
    pre := Join(rs[..i]);
    post := ImageSplit(rs, end, rest, i);
  }

  lemma RecordThere(img: seq<Byte>, pre: seq<Byte>, r: seq<Byte>, e: Entry, post: seq<Byte>, p: nat)
    requires e.Ok() && r == Record(e) && img == pre + r + post && p == |pre|
    ensures See(img, p) == Seen(e, p)
    ensures e.Reg? ==> Contents(img, p, e)
  {
    RecordInside(img, pre, e, Head(e), Tail(e), post);
  }

  lemma ArchiveEnd(img: seq<Byte>, rs: seq<seq<Byte>>, junk: nat, rest: seq<Byte>)
    requires img == Join(rs) + EofRecord(junk) + rest
    ensures See(img, Offset(rs, |rs|)) == End
  {
    assert rs[..|rs|] == rs;
    EofAt(img, Join(rs), junk, rest);
  }

  /** None of the first k entries is an empty file. */
  predicate FullTo(es: seq<Entry>, k: nat)
    requires k <= |es|
  {
    forall i :: 0 <= i < k ==> Full(es[i])
  }

  /** The reader at p sees e, with its contents. */
  ghost predicate Placed(look: Look, img: seq<Byte>, e: Entry, p: nat) {
    look(p) == Seen(e, p) && (e.Reg? ==> Contents(img, p, e))
  }

  /** Up to entry k the reader sees the entries at these places, one leading to the
      next, and the end when there is no entry k. */
  ghost predicate Holds(look: Look, es: seq<Entry>, at: seq<nat>, k: nat) {
    && |at| == |es| + 1 && k <= |es| && at[0] == 0 && (k == |es| ==> look(at[k]) == End)
    && (forall i :: 0 <= i <= k && i < |es| ==> look(at[i]) == Seen(es[i], at[i]))
    && (forall i :: 0 <= i < k ==> at[i + 1] == at[i] + Stride(es[i]))
  }

  /** The places where the records were written. */
  function Places(rs: seq<seq<Byte>>): (at: seq<nat>)
    ensures |at| == |rs| + 1
  {
    seq(|rs| + 1, i requires 0 <= i <= |rs| => Offset(rs, i))
  }

  /** The image begins with the archive. */
  ghost predicate Written(img: seq<Byte>, es: seq<Entry>, junk: nat, rest: seq<Byte>)
    requires AllOk(es)
  {
    img == Image(es, junk) + rest
  }

  /** Entry i is seen where it was written. */
  lemma EachPlaced(img: seq<Byte>, es: seq<Entry>, junk: nat, rest: seq<Byte>, look: Look, i: nat)
    requires AllOk(es) && Written(img, es, junk, rest) && Shows(look, img) && i < |es|
    ensures Placed(look, img, es[i], Places(Records(es))[i])
  {
    var rs := Records(es);
    assert look(Offset(rs, i)) == See(img, Offset(rs, i));
    ArchiveAt(img, rs, EofRecord(junk), rest, i, es[i]);
  }

  /** Behind an entry that is no empty file the reader looks where the next one is. */
  lemma NextPlace(es: seq<Entry>, i: nat)
    requires AllOk(es) && i < |es| && Full(es[i])
    ensures Places(Records(es))[i + 1] == Places(Records(es))[i] + Stride(es[i])
  {
    OffsetStep(Records(es), i);
    StrideAgrees(es[i]);
  }

  lemma EndPlaced(img: seq<Byte>, es: seq<Entry>, junk: nat, rest: seq<Byte>, look: Look)
    requires AllOk(es) && Written(img, es, junk, rest) && Shows(look, img)
    ensures look(Places(Records(es))[|es|]) == End
  {
    var rs := Records(es);
    assert look(Offset(rs, |es|)) == See(img, Offset(rs, |es|));
    ArchiveEnd(img, rs, junk, rest);
  }

  /** If none of the first k entries is an empty file, the entries up to k are seen
      where they were written. */
  lemma ArchiveHolds(img: seq<Byte>, es: seq<Entry>, junk: nat, rest: seq<Byte>, look: Look, k: nat)
    requires AllOk(es) && k <= |es| && FullTo(es, k) && Written(img, es, junk, rest) && Shows(look, img)
    ensures Holds(look, es, Places(Records(es)), k)
  {
    var at := Places(Records(es));
    forall i | 0 <= i <= k && i < |es| ensures look(at[i]) == Seen(es[i], at[i]) {
      EachPlaced(img, es, junk, rest, look, i);
    }
    forall i | 0 <= i < k ensures at[i + 1] == at[i] + Stride(es[i]) { NextPlace(es, i); }
    EndPlaced(img, es, junk, rest, look);
  }

  /** A reader's trail meets the entries in order, as far as they are held. */
  lemma {:induction false} TrailHolds(look: Look, es: seq<Entry>, at: seq<nat>, k: nat, ps: seq<nat>, i: nat)
    requires Holds(look, es, at, k) && Trail(look, ps) && i < |ps| && i <= k
    ensures ps[i] == at[i]
    decreases i
  {
    if i != 0 {
      TrailHolds(look, es, at, k, ps, i - 1);
      assert Met(look, ps, i - 1);
    }
  }

  /** The reader comes from each of the first k places to the next exactly when none of
      the first k entries is an empty file. */
  lemma TrailFull(img: seq<Byte>, es: seq<Entry>, junk: nat, rest: seq<Byte>, look: Look, k: nat)
    requires AllOk(es) && k <= |es| && Written(img, es, junk, rest) && Shows(look, img)
    ensures Trail(look, Places(Records(es))[..k + 1]) <==> FullTo(es, k)
  {
    var at := Places(Records(es));
    var ps := at[..k + 1];
    assert at[0] == 0 by { assert Records(es)[..0] == []; }
    forall i | 0 <= i < k ensures Met(look, ps, i) <==> Full(es[i]) { MetFull(img, es, junk, rest, look, i, ps); }
    if FullTo(es, k) { forall i | 0 <= i < |ps| - 1 ensures Met(look, ps, i) { assert Full(es[i]); } }
    if Trail(look, ps) { forall i | 0 <= i < k ensures Full(es[i]) { assert Met(look, ps, i); } }
  }

  lemma MetFull(img: seq<Byte>, es: seq<Entry>, junk: nat, rest: seq<Byte>, look: Look, i: nat, ps: seq<nat>)
    requires AllOk(es) && Written(img, es, junk, rest) && Shows(look, img) && i < |es|
    requires i + 1 < |ps| <= |es| + 1 && ps == Places(Records(es))[..|ps|]
    ensures Met(look, ps, i) <==> Full(es[i])
  {
    EachPlaced(img, es, junk, rest, look, i);
    PlaceStep(es, i);
    StrideAgrees(es[i]);
    MetAt(look, es[i], ps[i], ps, i);
  }

  lemma PlaceStep(es: seq<Entry>, i: nat)
    requires AllOk(es) && i < |es|
    ensures Places(Records(es))[i + 1] == Places(Records(es))[i] + |Record(es[i])|
  {
    OffsetStep(Records(es), i);
  }

  lemma MetAt(look: Look, e: Entry, p: nat, ps: seq<nat>, i: nat)
    requires i + 1 < |ps| && ps[i] == p && look(p) == Seen(e, p)
    ensures Met(look, ps, i) <==> ps[i + 1] == p + Stride(e)
  {}

  /** Every place is on a block boundary. */
  lemma {:induction false} PlacesAligned(look: Look, es: seq<Entry>, at: seq<nat>, k: nat, i: nat)
    requires Holds(look, es, at, k) && AllOk(es) && i <= k
    ensures at[i] % BLOCK_SIZE == 0
    decreases i
  {
    if i != 0 {
      PlacesAligned(look, es, at, k, i - 1);
      StrideAgrees(es[i - 1]);
      AlignedSum(at[i - 1], Stride(es[i - 1]));
    }
  }

  lemma AlignedSum(a: nat, b: nat)
    requires a % BLOCK_SIZE == 0 && b % BLOCK_SIZE == 0
    ensures (a + b) % BLOCK_SIZE == 0
  {}

  /** The first entry with a name, or the number of entries. */
  function FirstOf(es: seq<Entry>, path: seq<Byte>): (i: nat)
    ensures i <= |es| && (i < |es| ==> es[i].name == path)
    ensures forall j :: 0 <= j < i ==> es[j].name != path
  {
    if es == [] || es[0].name == path then 0 else 1 + FirstOf(es[1..], path)
  }

  /** The answer is the entry's mode, length and contents. */
  ghost predicate Served(img: seq<Byte>, r: Lookup, e: Entry) {
    r.Found? && r.mode == e.mode && r.size == e.Len() && (e.Reg? ==> DataAt(img, r.data, e.data))
  }

  /** Looking up a name in an archive: the first entry of that name, with its mode,
      length and contents, or ENOENT when there is none.  Only the entries the
      reader has to pass must not be empty files. */
  method GetFromArchive(img: seq<Byte>, path: seq<Byte>, ghost es: seq<Entry>, ghost junk: nat, ghost rest: seq<Byte>)
    returns (r: Lookup)
    requires AllOk(es) && FullTo(es, FirstOf(es, path)) && Written(img, es, junk, rest)
    ensures var i := FirstOf(es, path);
            if i == |es| then r == Enoent else Served(img, r, es[i])
  {
    ghost var look := Watch(img);
    WatchShows(img);
    r := GetFile(img, path);
    LookedUp(img, es, junk, rest, look, path, r);
  }

  lemma LookedUp(img: seq<Byte>, es: seq<Entry>, junk: nat, rest: seq<Byte>, look: Look, path: seq<Byte>, r: Lookup)
    requires AllOk(es) && FullTo(es, FirstOf(es, path)) && Written(img, es, junk, rest) && Shows(look, img)
    requires Replies(look, path, r)
    ensures var i := FirstOf(es, path);
            if i == |es| then r == Enoent else Served(img, r, es[i])
  {
    var i := FirstOf(es, path);
    ArchiveHolds(img, es, junk, rest, look, i);
    Resolve(look, es, Places(Records(es)), path, r);
    if i < |es| {
      EachPlaced(img, es, junk, rest, look, i);
      Serve(img, look, r, es[i], Places(Records(es))[i]);
    }
  }

  lemma Serve(img: seq<Byte>, look: Look, r: Lookup, e: Entry, p: nat)
    requires r == Found(e.mode, e.Len(), p + HEADER_SIZE + |e.name|) && Placed(look, img, e, p)
    ensures Served(img, r, e)
  {}

  lemma Resolve(look: Look, es: seq<Entry>, at: seq<nat>, path: seq<Byte>, r: Lookup)
    requires Holds(look, es, at, FirstOf(es, path)) && Replies(look, path, r)
    ensures var i := FirstOf(es, path);
            if i == |es| then r == Enoent
            else r == Found(es[i].mode, es[i].Len(), at[i] + HEADER_SIZE + |es[i].name|)
  {
    var k := FirstOf(es, path);
    var ps :| Trail(look, ps) && Answer(look, path, r, ps);
    var last := |ps| - 1;
    if last > k {
      PassedOver(look, path, r, ps, k);
      TrailHolds(look, es, at, k, ps, k);
    } else {
      TrailHolds(look, es, at, k, ps, last);
    }
  }

  // ---- empty files

  const EMPTY := Reg([0x61], 0, [])
  const NEXT := Reg([0x62], 0, [7])

  lemma JoinTwo(a: seq<Byte>, b: seq<Byte>)
    ensures Join([a, b]) == a + b
  {
    assert [a, b][..1] == [a] && [a][..0] == [];
    assert Join([a]) == Join([]) + a == a;
  }

  /** Behind a 16-byte record, a block boundary falls into the padding. */
  lemma PaddingAt(img: seq<Byte>, a: seq<Byte>, h: seq<Byte>, z: seq<Byte>, end: seq<Byte>)
    requires |a| == 16 && |h| == 17 && |z| == 495 && img == a + (h + z) + end && forall i :: 0 <= i < 495 ==> z[i] == 0
    ensures See(img, 512) == Bad
  {
    assert At(img, 512) == img[512] == (h + z)[496] == z[479] == 0;
    assert Slice(img, 512, 4)[0] == At(img, 512);
  }

  /** With an empty file in front the reader loses its way: the file after it is not
      found, and the archive is taken to be corrupt. */
  lemma EmptyFileHides(img: seq<Byte>, junk: nat, look: Look, r: Lookup)
    requires img == Image([EMPTY, NEXT], junk) && Shows(look, img)
    requires Replies(look, NEXT.name, r)
    ensures r == Einval
  {
    var ps :| Trail(look, ps) && Answer(look, NEXT.name, r, ps);
    EmptyImage(img, EofRecord(junk), Record(EMPTY), Record(NEXT));
    assert look(0) == See(img, 0) && look(512) == See(img, 512);
    EmptyAnswer(look, r, ps);
  }

  lemma EmptyAnswer(look: Look, r: Lookup, ps: seq<nat>)
    requires look(0) == Seen(EMPTY, 0) && look(512) == Bad && Trail(look, ps) && Answer(look, NEXT.name, r, ps)
    ensures r == Einval
  {
    assert Stride(EMPTY) == 512;
    assert |ps| > 1 ==> Met(look, ps, 0);
    assert |ps| > 2 ==> Met(look, ps, 1);
  }

  lemma EmptyImage(img: seq<Byte>, end: seq<Byte>, a: seq<Byte>, b: seq<Byte>)
    requires a == Record(EMPTY) && b == Record(NEXT) && img == Join(Records([EMPTY, NEXT])) + end
    ensures See(img, 0) == Seen(EMPTY, 0) && See(img, 512) == Bad
  {
    assert Records([EMPTY, NEXT]) == [a, b];
    JoinTwo(a, b);
    EmptyAt(img, end, a, b);
    EmptyThenNext(img, a, b, end);
  }

  lemma EmptyAt(img: seq<Byte>, end: seq<Byte>, a: seq<Byte>, b: seq<Byte>)
    requires a == Record(EMPTY) && img == a + b + end
    ensures See(img, 0) == Seen(EMPTY, 0)
  {
    FirstRecord(img, end, a, b, EMPTY);
  }

  lemma FirstRecord(img: seq<Byte>, end: seq<Byte>, a: seq<Byte>, b: seq<Byte>, e: Entry)
    requires e.Ok() && a == Record(e) && img == a + b + end
    ensures See(img, 0) == Seen(e, 0)
  {
    assert img == [] + a + (b + end);
    RecordThere(img, [], a, e, b + end, 0);
  }

  lemma EmptyThenNext(img: seq<Byte>, a: seq<Byte>, b: seq<Byte>, end: seq<Byte>)
    requires a == Record(EMPTY) && b == Record(NEXT) && img == a + b + end
    ensures See(img, 512) == Bad
  {
    var h, z := Head(NEXT) + NEXT.data, Padding(17);
    assert b == h + z;
    PaddingAt(img, a, h, z, end);
  }
}

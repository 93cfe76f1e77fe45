/**
 The kernel's vsnprintf.

 Out is the text an unbounded formatter produces; Vsnprintf writes as much of
 it as the buffer has room for and nothing past the size it was given.
 */
module Printf {
  import Bits
  import opened Decimals
  import opened Itoa

  datatype Arg = Chr(c: char) | Int(v: int) | Word(n: nat) | Str(s: string)

  // ---- the unbounded formatter ----------------------------------------------

  /** Digits after a leading zero extend the pad width, a byte. */
  function Widen(fmt: string, pad: nat): (r: (nat, string))
    ensures |r.1| <= |fmt|
  {
    if fmt != [] && IsNum(fmt[0]) then Widen(fmt[1..], (pad * 10 + DigitOf(fmt[0])) % 256)
    else (pad, fmt)
  }

  function Width(fmt: string, pad: nat): (r: (nat, string))
    ensures |r.1| <= |fmt|
  {
    if fmt != [] && fmt[0] == '0' then Widen(fmt[1..], pad) else (pad, fmt)
  }

  predicate Takes(c: char) { c == 'c' || c == 'd' || c == 'p' || c == 'x' || c == 's' }

  /** The argument a conversion asks for is there. */
  predicate Supplied(c: char, args: seq<Arg>) {
    if !Takes(c) then true
    else if args == [] then false
    else
      match args[0]
      case Chr(_) => c == 'c'
      case Int(v) => c == 'd' && IsI32(v)
      case Word(n) => (c == 'p' || c == 'x') && n < I64_SPAN
      case Str(s) => c == 's' && NoNul(s)
  }

  /** What a C string can hold. */
  predicate NoNul(t: string) { forall i :: 0 <= i < |t| ==> t[i] != '\0' }

  function Zeros(n: int): string { if n <= 0 then [] else Pad(n, '0') }

  function DecPadded(v: int, pad: nat): string
    requires IsI64(v)
  {
    Zeros(pad - |DecText(v)|) + DecText(v)
  }

  /** Sixteen digits after a prefix. */
  function PointerText(n: nat): string {
    "0x" + Zeros(18 - |HexText(n)|) + HexText(n)[2..]
  }

  /** A pointer is always printed in 18 characters. */
  lemma PointerLength(n: nat)
    requires n < I64_SPAN
    ensures |PointerText(n)| == 18 && PointerText(n)[..2] == "0x"
  {
    TextFits(0, n);
  }

  function Converted(c: char, args: seq<Arg>, pad: nat): string
    requires Supplied(c, args)
  {
    if c == 'c' then [args[0].c]
    else if c == '%' then "%"
    else if c == 'd' then DecPadded(args[0].v, pad)
    else if c == 'p' then PointerText(args[0].n)
    else if c == 'x' then HexText(args[0].n)[2..]
    else if c == 's' then args[0].s
    else []
  }

  function Rest(c: char, args: seq<Arg>): seq<Arg>
    requires Supplied(c, args)
  {
    if Takes(c) then args[1..] else args
  }

  /** Only a decimal conversion clears the pad width. */
  function PadAfter(c: char, pad: nat): nat { if c == 'd' then 0 else pad }

  /** Every % opens a conversion with its letter, and its argument is supplied. */
  predicate Complete(fmt: string, args: seq<Arg>, pad: nat)
    decreases |fmt|
  {
    if fmt == [] then true
    else if fmt[0] != '%' then Complete(fmt[1..], args, pad)
    else
      var (w, tail) := Width(fmt[1..], pad);
      tail != [] && Supplied(tail[0], args) &&
      Complete(tail[1..], Rest(tail[0], args), PadAfter(tail[0], w))
  }

  function Out(fmt: string, args: seq<Arg>, pad: nat): string
    requires Complete(fmt, args, pad)
    decreases |fmt|
  {
    if fmt == [] then []
    else if fmt[0] != '%' then [fmt[0]] + Out(fmt[1..], args, pad)
    else
      var (w, tail) := Width(fmt[1..], pad);
      Converted(tail[0], args, w) + Out(tail[1..], Rest(tail[0], args), PadAfter(tail[0], w))
  }

  /** The room runs out inside a conversion, not in plain text. */
  predicate EndsInside(fmt: string, args: seq<Arg>, pad: nat, room: nat)
    requires Complete(fmt, args, pad) && room > 0
    decreases |fmt|
  {
    if fmt == [] then false
    else if fmt[0] != '%' then room > 1 && EndsInside(fmt[1..], args, pad, room - 1)
    else
      var (w, tail) := Width(fmt[1..], pad);
      var t := Converted(tail[0], args, w);
      |t| >= room ||
      EndsInside(tail[1..], Rest(tail[0], args), PadAfter(tail[0], w), room - |t|)
  }

  // ---- about the formatter ---------------------------------------------------

  /** The arguments and the pad width a format leaves for what follows it. */
  function Left(fmt: string, args: seq<Arg>, pad: nat): (seq<Arg>, nat)
    requires Complete(fmt, args, pad)
    decreases |fmt|
  {
    if fmt == [] then (args, pad)
    else if fmt[0] != '%' then Left(fmt[1..], args, pad)
    else
      var (w, tail) := Width(fmt[1..], pad);
      Left(tail[1..], Rest(tail[0], args), PadAfter(tail[0], w))
  }

  lemma {:induction false} WidenConcat(f: string, g: string, pad: nat)
    requires Widen(f, pad).1 != []
    ensures Widen(f + g, pad) == (Widen(f, pad).0, Widen(f, pad).1 + g)
    decreases |f|
  {
    if IsNum(f[0]) {
      assert (f + g)[1..] == f[1..] + g;
      WidenConcat(f[1..], g, (pad * 10 + DigitOf(f[0])) % 256);
    }
  }

  lemma WidthConcat(f: string, g: string, pad: nat)
    requires Width(f, pad).1 != []
    ensures Width(f + g, pad) == (Width(f, pad).0, Width(f, pad).1 + g)
  {
    if f[0] == '0' {
      assert (f + g)[1..] == f[1..] + g;
      WidenConcat(f[1..], g, pad);
    }
  }

  lemma Assoc(a: string, b: string, c: string)
    ensures (a + b) + c == a + (b + c)
  {
  }

  ghost predicate Composes(f: string, g: string, args: seq<Arg>, pad: nat)
    requires Complete(f, args, pad)
  {
    var (rest, p) := Left(f, args, pad);
    Complete(g, rest, p) ==>
      Complete(f + g, args, pad) && Out(f + g, args, pad) == Out(f, args, pad) + Out(g, rest, p)
  }

  lemma ConversionComposes(f: string, g: string, args: seq<Arg>, pad: nat, w: nat, tail: string)
    requires Complete(f, args, pad) && f != [] && f[0] == '%' && (w, tail) == Width(f[1..], pad)
    requires Composes(tail[1..], g, Rest(tail[0], args), PadAfter(tail[0], w))
    ensures Composes(f, g, args, pad)
  {
    var (rest, p) := Left(f, args, pad);
    if Complete(g, rest, p) {
      assert (f + g)[1..] == f[1..] + g;
      WidthConcat(f[1..], g, pad);
      var after := tail[1..];
      var args1, w1 := Rest(tail[0], args), PadAfter(tail[0], w);
      assert (tail + g)[0] == tail[0] && (tail + g)[1..] == after + g;
      assert Complete(f + g, args, pad);
      var t := Converted(tail[0], args, w);
      assert Out(f + g, args, pad) == t + Out(after + g, args1, w1);
      Assoc(t, Out(after, args1, w1), Out(g, rest, p));
    }
  }

  lemma PlainComposes(f: string, g: string, args: seq<Arg>, pad: nat)
    requires Complete(f, args, pad) && f != [] && f[0] != '%'
    requires Composes(f[1..], g, args, pad)
    ensures Composes(f, g, args, pad)
  {
    var (rest, p) := Left(f, args, pad);
    assert (f + g)[0] == f[0] && (f + g)[1..] == f[1..] + g;
    assert Left(f, args, pad) == Left(f[1..], args, pad);
    if Complete(g, rest, p) {
      Assoc([f[0]], Out(f[1..], args, pad), Out(g, rest, p));
    }
  }

  /**
   Formats compose: a complete format followed by another prints one after the
   other, the second starting from the arguments and the pad width the first
   leaves behind.
   */
  lemma {:induction false} OutConcat(f: string, g: string, args: seq<Arg>, pad: nat)
    requires Complete(f, args, pad)
    ensures Composes(f, g, args, pad)
    decreases |f|
  {
    if f == [] {
      assert f + g == g;
    } else if f[0] != '%' {
      OutConcat(f[1..], g, args, pad);
      PlainComposes(f, g, args, pad);
    } else {
      var (w, tail) := Width(f[1..], pad);
      OutConcat(tail[1..], g, Rest(tail[0], args), PadAfter(tail[0], w));
      ConversionComposes(f, g, args, pad, w, tail);
    }
  }

  // ---- the width that is carried over

  /** The digits of the widths given since the last decimal conversion, acc before. */
  function WidthDigits(fmt: string, acc: string): (ds: string)
    requires AllDigits(acc)
    ensures AllDigits(ds)
    decreases |fmt|
  {
    if fmt == [] then acc
    else if fmt[0] != '%' then WidthDigits(fmt[1..], acc)
    else
      var t := fmt[1..];
      var ds := if t != [] && t[0] == '0' then Leading(t[1..]) else [];
      var tail := if t != [] && t[0] == '0' then t[1 + |ds|..] else t;
      if tail == [] then acc + ds
      else WidthDigits(tail[1..], if tail[0] == 'd' then [] else acc + ds)
  }

  lemma TimesTen(v: nat, p: nat, d: nat)
    requires p == v % 256
    ensures (p * 10 + d) % 256 == (v * 10 + d) % 256
  {
    var q, x := v / 256, p * 10 + d;
    assert v * 10 + d == (10 * q + x / 256) * 256 + x % 256;
    Bits.ModUnique(v * 10 + d, 256, 10 * q + x / 256, x % 256);
  }

  /** A width is the number its digits make, in a byte. */
  lemma {:induction false} WidenValue(fmt: string, v: nat, pad: nat)
    requires pad == v % 256
    ensures Widen(fmt, pad) == (Value(v, Leading(fmt)) % 256, fmt[|Leading(fmt)|..])
    decreases |fmt|
  {
    if fmt != [] && IsNum(fmt[0]) {
      var d, ds := DigitOf(fmt[0]), Leading(fmt[1..]);
      TimesTen(v, pad, d);
      WidenValue(fmt[1..], v * 10 + d, (pad * 10 + d) % 256);
      assert Leading(fmt) == [fmt[0]] + ds && Leading(fmt)[1..] == ds;
      assert fmt[1..][|ds|..] == fmt[1 + |ds|..];
    }
  }

  lemma {:induction false} ValueConcat(v: nat, a: string, b: string)
    requires AllDigits(a) && AllDigits(b)
    ensures AllDigits(a + b) && Value(v, a + b) == Value(Value(v, a), b)
    decreases |a|
  {
    if a == [] {
      assert a + b == b;
    } else {
      assert (a + b)[1..] == a[1..] + b;
      ValueConcat(v * 10 + DigitOf(a[0]), a[1..], b);
    }
  }

  /** The width a format leaves behind is the number of those digits, in a byte. */
  lemma {:induction false} CarriedWidth(fmt: string, args: seq<Arg>, pad: nat, acc: string)
    requires Complete(fmt, args, pad) && AllDigits(acc) && pad == Value(0, acc) % 256
    ensures Left(fmt, args, pad).1 == Value(0, WidthDigits(fmt, acc)) % 256
    decreases |fmt|
  {
    if fmt != [] {
      if fmt[0] != '%' {
        CarriedWidth(fmt[1..], args, pad, acc);
      } else {
        var (w, tail) := Width(fmt[1..], pad);
        var ds := if fmt[1..][0] == '0' then Leading(fmt[2..]) else [];
        FlagValue(fmt[1..], pad, acc, ds);
        DigitsStep(fmt, acc, ds, tail);
        CarriedWidth(tail[1..], Rest(tail[0], args), PadAfter(tail[0], w), if tail[0] == 'd' then [] else acc + ds);
      }
    }
  }

  /** The digits over one conversion. */
  lemma DigitsStep(fmt: string, acc: string, ds: string, tail: string)
    requires |fmt| > 1 && fmt[0] == '%' && AllDigits(acc) && tail != []
    requires ds == if fmt[1..][0] == '0' then Leading(fmt[2..]) else []
    requires tail == if fmt[1..][0] == '0' then fmt[1..][1 + |ds|..] else fmt[1..]
    ensures AllDigits(acc + ds)
    ensures WidthDigits(fmt, acc) == WidthDigits(tail[1..], if tail[0] == 'd' then [] else acc + ds)
  {
    assert fmt[1..][1..] == fmt[2..];
  }

  lemma FlagValue(t: string, pad: nat, acc: string, ds: string)
    requires AllDigits(acc) && pad == Value(0, acc) % 256 && t != []
    requires ds == if t[0] == '0' then Leading(t[1..]) else []
    ensures AllDigits(acc + ds)
    ensures Width(t, pad) == (Value(0, acc + ds) % 256, if t[0] == '0' then t[1 + |ds|..] else t)
  {
    ValueConcat(0, acc, ds);
    if t[0] == '0' {
      WidenValue(t[1..], Value(0, acc), pad);
      assert t[1..][|ds|..] == t[1 + |ds|..];
    } else {
      assert acc + ds == acc;
    }
  }

  /** A format leaves no width behind exactly when the digits of its unused widths make
      a multiple of 256; no digits make 0.  What follows then prints as if it stood
      alone. */
  lemma NothingCarried(f: string, g: string, args: seq<Arg>)
    requires Complete(f, args, 0)
    ensures Left(f, args, 0).1 == 0 <==> Value(0, WidthDigits(f, [])) % 256 == 0
    ensures Left(f, args, 0).1 == 0 && Complete(g, Left(f, args, 0).0, 0) ==>
              Complete(f + g, args, 0) && Out(f + g, args, 0) == Out(f, args, 0) + Out(g, Left(f, args, 0).0, 0)
  {
    assert Value(0, []) == 0;
    CarriedWidth(f, args, 0, []);
    OutConcat(f, g, args, 0);
  }

  /** A pad width given to another conversion waits for the next decimal. */
  lemma PadCarriesOver()
    ensures Complete("%03c%d", [Chr('a'), Int(5)], 0)
    ensures Out("%03c%d", [Chr('a'), Int(5)], 0) == "a005"
  {
    var args := [Chr('a'), Int(5)];
    var f := "%03c%d";
    assert f[1..] == "03c%d";
    assert "03c%d"[1..] == "3c%d";
    assert "3c%d"[1..] == "c%d";
    assert Widen("3c%d", 0) == (3, "c%d");
    assert Width("03c%d", 0) == (3, "c%d");
    assert "c%d"[1..] == "%d";
    assert args[1..] == [Int(5)];
    assert "%d"[1..] == "d";
    assert "d"[1..] == [];
    assert Complete("%d", [Int(5)], 3);
    assert DecText(5) == "5";
    assert Zeros(2) == "00";
    assert Out("%d", [Int(5)], 3) == "005";
  }

  lemma {:induction false} ZerosRead(n: nat, ds: string)
    requires AllDigits(ds)
    ensures AllDigits(Pad(n, '0') + ds) && Value(0, Pad(n, '0') + ds) == Value(0, ds)
  {
    if n == 0 {
      assert Pad(0, '0') + ds == ds;
    } else {
      ZerosRead(n - 1, ds);
      assert (Pad(n, '0') + ds)[1..] == Pad(n - 1, '0') + ds;
    }
  }

  lemma {:induction false} ZerosStop(n: nat, s: string)
    requires s != [] && !IsNum(s[0])
    ensures Leading(Pad(n, '0') + s) == Pad(n, '0') && Value(0, Pad(n, '0')) == 0
  {
    if n == 0 {
      assert Pad(0, '0') + s == s;
    } else {
      ZerosStop(n - 1, s);
      assert (Pad(n, '0') + s)[1..] == Pad(n - 1, '0') + s;
      assert Pad(n, '0')[1..] == Pad(n - 1, '0');
      assert Pad(n, '0') == ['0'] + Pad(n - 1, '0');
    }
  }

  /**
   A padded decimal reads back as its number exactly when the zeros do not come
   before a minus sign.
   */
  lemma PaddedReads(v: int, pad: nat)
    requires -I32_HALF < v < I32_HALF
    ensures Reading(DecPadded(v, pad)) == v <==> v >= 0 || pad <= |DecText(v)|
  {
    var t := DecText(v);
    if pad <= |t| {
      assert DecPadded(v, pad) == t;
      assert Pad(0, ' ') + t == t;
      AtoiItoa(v, 0);
    } else {
      var n := pad - |t|;
      var p := Pad(n, '0') + t;
      assert DecPadded(v, pad) == p && p[0] == '0';
      if v >= 0 {
        ZerosRead(n, t);
        LeadingAll(p);
        DecimalValue(v);
      } else {
        ZerosStop(n, t);
      }
    }
  }

  // ---- bounded output ----------------------------------------------------------

  function Least(a: nat, b: nat): nat { if a < b then a else b }

  /** The buffer shows as much of text as there is room for. */
  ghost predicate Shows(buf: seq<char>, size: nat, off: nat, text: string) {
    && 0 < size <= |buf|
    && off == Least(|text|, size - 1)
    && buf[..off] == text[..off]
    && (text != [] && size > 1 ==> buf[off] == '\0')
  }

  lemma ShowsPut(was: seq<char>, buf: seq<char>, size: nat, off: nat, text: string, c: char)
    requires Shows(was, size, off, text) && |buf| == |was| && size > 1
    requires off < size - 1 ==> buf[..off] == was[..off] && buf[off] == c && buf[off + 1] == '\0'
    requires off == size - 1 ==> buf[..off] == was[..off] && buf[off] == '\0'
    ensures Shows(buf, size, Least(off + 1, size - 1), text + [c])
  {
    if off < size - 1 {
      assert buf[..off + 1] == text + [c];
    } else {
      assert (text + [c])[..off] == text[..off];
    }
  }

  method Printc(buf: array<char>, size: nat, off: nat, c: char, ghost text: string) returns (o: nat)
    requires 1 < size <= buf.Length && Shows(buf[..], size, off, text)
    modifies buf
    ensures Shows(buf[..], size, o, text + [c])
    ensures forall k :: size <= k < buf.Length ==> buf[k] == old(buf[k])
  {
    o := off;
    ghost var was := buf[..];
    if o < size - 1 {
      buf[o] := c;
      o := o + 1;
    }
    buf[o] := '\0';
    assert buf[..][..off] == was[..off];
    ShowsPut(was, buf[..], size, off, text, c);
  }

  lemma ShowsMore(buf: seq<char>, size: nat, off: nat, text: string, more: string)
    requires Shows(buf, size, off, text) && size > 1 && off == size - 1 && buf[off] == '\0'
    ensures Shows(buf, size, off, text + more)
  {
    assert (text + more)[..off] == text[..off];
  }

  /** Copies until the string ends or the buffer is full. */
  method Printstr(buf: array<char>, size: nat, off: nat, s: string, ghost text: string) returns (o: nat)
    requires 1 < size <= buf.Length && Shows(buf[..], size, off, text)
    modifies buf
    ensures Shows(buf[..], size, o, text + s)
    ensures forall k :: size <= k < buf.Length ==> buf[k] == old(buf[k])
  {
    o := off;
    var i: nat := 0;
    while o < size - 1 && i < |s|
      invariant i <= |s| && off <= o <= size - 1
      invariant o == Least(|text| + i, size - 1)
      invariant buf[..o] == (text + s[..i])[..o]
      invariant forall k :: size <= k < buf.Length ==> buf[k] == old(buf[k])
    {
      ghost var was := buf[..o];
      buf[o] := s[i];
      assert buf[..o] == was;
      assert buf[..o + 1] == (text + s[..i + 1])[..o + 1];
      o := o + 1;
      i := i + 1;
    }
    ghost var done := buf[..o];
    buf[o] := '\0';
    assert buf[..o] == done;
    assert buf[..][..o] == done;
    assert text + s == (text + s[..i]) + s[i..];
    if i == |s| {
      assert s[..i] == s;
    } else {
      ShowsMore(buf[..], size, o, text + s[..i], s[i..]);
    }
  }

  lemma PadMore(n: nat)
    ensures Pad(n + 1, '0') == Pad(n, '0') + ['0']
  {
  }

  /** A loop printing zeros, from low up to high. */
  method PrintZeros(buf: array<char>, size: nat, off: nat, low: nat, high: int, ghost text: string) returns (o: nat)
    requires 1 < size <= buf.Length && Shows(buf[..], size, off, text)
    modifies buf
    ensures Shows(buf[..], size, o, text + Zeros(high - low))
    ensures forall k :: size <= k < buf.Length ==> buf[k] == old(buf[k])
  {
    o := off;
    var i: nat := low;
    assert text + Pad(0, '0') == text;
    while i < high
      invariant low <= i && (i <= high || i == low)
      invariant Shows(buf[..], size, o, text + Pad(i - low, '0'))
      invariant forall k :: size <= k < buf.Length ==> buf[k] == old(buf[k])
    {
      o := Printc(buf, size, o, '0', text + Pad(i - low, '0'));
      PadMore(i - low);
      Assoc(text, Pad(i - low, '0'), ['0']);
      i := i + 1;
    }
    assert Pad(i - low, '0') == Zeros(high - low);
  }

  /** The length of the text the buffer holds. */
  method Strlen(buf: array<char>, ghost t: string) returns (n: nat)
    requires Holds(buf[..], t) && NoNul(t)
    ensures n == |t| && n < buf.Length && buf[..n] == t
  {
    n := 0;
    ghost var b := buf[..];
    assert forall i :: 0 <= i < |t| ==> b[i] == b[..|t|][i] == t[i];
    while buf[n] != '\0'
      invariant n <= |t|
      decreases |t| - n
    {
      n := n + 1;
    }
    assert buf[..n] == b[..n];
  }

  lemma {:induction false} HexNoNul(n: nat)
    ensures NoNul(Hex(n))
  {
    if n >= 16 { HexNoNul(n / 16); }
  }

  lemma DecTextNoNul(v: int)
    requires IsI64(v)
    ensures NoNul(DecText(v))
  {
  }

  /** A number through the conversion buffer. */
  method Number(value: int, base: int) returns (t: string)
    requires IsI64(value) && (base == 10 || base == 16)
    ensures t == TextOf(value, base)
  {
    var numBuf := new char[256];
    TextFits(value, value % I64_SPAN);
    var ok := Convert(value, numBuf, base);
    DecTextNoNul(value);
    HexNoNul(value % I64_SPAN);
    var n := Strlen(numBuf, TextOf(value, base));
    t := numBuf[..n];
  }

  /** A 64-bit word passed through a signed variable. */
  function AsSigned(n: nat): int
    requires n < I64_SPAN
  {
    if n < I64_HALF then n else n - I64_SPAN
  }

  lemma SignedWraps(n: nat)
    requires n < I64_SPAN
    ensures AsSigned(n) % I64_SPAN == n
  {
    if n >= I64_HALF { assert n - I64_SPAN == -1 * I64_SPAN + n; }
  }

  lemma WordText(n: nat)
    requires n < I64_SPAN
    ensures IsI64(AsSigned(n)) && TextOf(AsSigned(n), 16) == HexText(n)
  {
    SignedWraps(n);
  }

  method PrintDecimal(buf: array<char>, size: nat, off: nat, v: int, pad: nat, ghost text: string)
    returns (o: nat, p: nat)
    requires 1 < size <= buf.Length && Shows(buf[..], size, off, text) && IsI32(v)
    modifies buf
    ensures Shows(buf[..], size, o, text + DecPadded(v, pad)) && p == 0
    ensures forall k :: size <= k < buf.Length ==> buf[k] == old(buf[k])
  {
    var t := Number(v, 10);
    o, p := off, pad;
    ghost var z := Zeros(pad - |t|);
    if pad > 0 {
      o := PrintZeros(buf, size, o, |t|, pad, text);
      p := 0;
    } else {
      assert text + z == text;
    }
    o := Printstr(buf, size, o, t, text + z);
    Assoc(text, z, t);
  }

  lemma Assoc4(a: string, b: string, c: string, d: string)
    ensures a + b + c + d == a + (b + c + d)
  {
  }

  method PrintPrefix(buf: array<char>, size: nat, off: nat, ghost text: string) returns (o: nat)
    requires 1 < size <= buf.Length && Shows(buf[..], size, off, text)
    modifies buf
    ensures Shows(buf[..], size, o, text + "0x")
    ensures forall k :: size <= k < buf.Length ==> buf[k] == old(buf[k])
  {
    o := Printc(buf, size, off, '0', text);
    o := Printc(buf, size, o, 'x', text + ['0']);
    Assoc(text, "0", "x");
  }

  /** A prefix, zeros up to sixteen digits, and the digits of t after its own prefix. */
  method PrintWord(buf: array<char>, size: nat, off: nat, t: string, ghost text: string) returns (o: nat)
    requires 1 < size <= buf.Length && Shows(buf[..], size, off, text) && |t| >= 2
    modifies buf
    ensures Shows(buf[..], size, o, text + ("0x" + Zeros(18 - |t|) + t[2..]))
    ensures forall k :: size <= k < buf.Length ==> buf[k] == old(buf[k])
  {
    o := PrintPrefix(buf, size, off, text);
    ghost var z := Zeros(18 - |t|);
    o := PrintZeros(buf, size, o, 0, 18 - |t|, text + "0x");
    o := Printstr(buf, size, o, t[2..], text + "0x" + z);
    Assoc4(text, "0x", z, t[2..]);
  }

  method PrintPointer(buf: array<char>, size: nat, off: nat, n: nat, ghost text: string) returns (o: nat)
    requires 1 < size <= buf.Length && Shows(buf[..], size, off, text) && n < I64_SPAN
    modifies buf
    ensures Shows(buf[..], size, o, text + PointerText(n))
    ensures forall k :: size <= k < buf.Length ==> buf[k] == old(buf[k])
  {
    WordText(n);
    var t := Number(AsSigned(n), 16);
    o := PrintWord(buf, size, off, t, text);
  }

  method Print(buf: array<char>, size: nat, off: nat, c: char, args: seq<Arg>, pad: nat, ghost text: string)
    returns (o: nat, rest: seq<Arg>, p: nat)
    requires 1 < size <= buf.Length && Shows(buf[..], size, off, text) && Supplied(c, args)
    modifies buf
    ensures Shows(buf[..], size, o, text + Converted(c, args, pad))
    ensures rest == Rest(c, args) && p == PadAfter(c, pad)
    ensures forall k :: size <= k < buf.Length ==> buf[k] == old(buf[k])
  {
    rest, p := args, pad;
    if Takes(c) { rest := args[1..]; }
    match c {
      case 'c' => o := Printc(buf, size, off, args[0].c, text);
      case '%' => o := Printc(buf, size, off, '%', text);
      case 'd' => o, p := PrintDecimal(buf, size, off, args[0].v, pad, text);
      case 'p' => o := PrintPointer(buf, size, off, args[0].n, text);
      case 'x' =>
        WordText(args[0].n);
        var t := Number(AsSigned(args[0].n), 16);
        o := Printstr(buf, size, off, t[2..], text);
      case 's' => o := Printstr(buf, size, off, args[0].s, text);
      case _ =>
        o := off;
        assert text + [] == text;
    }
  }

  method ReadWidth(fmt: string, start: nat, pad: nat) returns (k: nat, w: nat)
    requires start <= |fmt|
    ensures start <= k <= |fmt| && (w, fmt[k..]) == Width(fmt[start..], pad)
  {
    k, w := start, pad;
    if k < |fmt| && fmt[k] == '0' {
      k := k + 1;
      assert fmt[start..][1..] == fmt[k..];
      while k < |fmt| && IsNum(fmt[k])
        invariant start < k <= |fmt|
        invariant Widen(fmt[k..], w) == Width(fmt[start..], pad)
      {
        assert fmt[k..][1..] == fmt[k + 1..];
        w := (w * 10 + DigitOf(fmt[k])) % 256;
        k := k + 1;
      }
    }
  }

  /** What is shown and what is still to come make up the whole. */
  ghost predicate Ahead(text: string, fmt: string, args: seq<Arg>, pad: nat, whole: string) {
    Complete(fmt, args, pad) && text + Out(fmt, args, pad) == whole
  }

  /** Being inside now means being inside at the start. */
  ghost predicate SameEnd(fmt: string, args: seq<Arg>, pad: nat, off: nat, size: nat, inside: bool)
    requires Complete(fmt, args, pad)
  {
    off < size - 1 ==> EndsInside(fmt, args, pad, size - 1 - off) == inside
  }

  lemma AheadPlain(text: string, fmt: string, args: seq<Arg>, pad: nat, whole: string)
    requires Ahead(text, fmt, args, pad, whole) && fmt != [] && fmt[0] != '%'
    ensures Ahead(text + [fmt[0]], fmt[1..], args, pad, whole)
  {
    Assoc(text, [fmt[0]], Out(fmt[1..], args, pad));
  }

  lemma AheadConversion(text: string, fmt: string, args: seq<Arg>, pad: nat, whole: string)
    requires Ahead(text, fmt, args, pad, whole) && fmt != [] && fmt[0] == '%'
    ensures var (w, tail) := Width(fmt[1..], pad);
            tail != [] && Supplied(tail[0], args) &&
            Ahead(text + Converted(tail[0], args, w), tail[1..], Rest(tail[0], args), PadAfter(tail[0], w), whole)
  {
    var (w, tail) := Width(fmt[1..], pad);
    Assoc(text, Converted(tail[0], args, w), Out(tail[1..], Rest(tail[0], args), PadAfter(tail[0], w)));
  }

  lemma ShowsWhole(buf: seq<char>, size: nat, off: nat, text: string, more: string)
    requires Shows(buf, size, off, text) && off == size - 1 && size > 1
    ensures Shows(buf, size, off, text + more)
  {
    assert (text + more)[..off] == text[..off];
  }

  /** Plain text up to the next % or the end of the format. */
  method Plain(buf: array<char>, size: nat, off: nat, fmt: string, start: nat, args: seq<Arg>, pad: nat,
               ghost text: string, ghost whole: string, ghost inside: bool)
    returns (o: nat, k: nat, ghost t: string)
    requires 1 < size <= buf.Length && Shows(buf[..], size, off, text) && start <= |fmt| && off < size - 1
    requires Ahead(text, fmt[start..], args, pad, whole) && SameEnd(fmt[start..], args, pad, off, size, inside)
    modifies buf
    ensures start <= k <= |fmt| && (k < |fmt| ==> fmt[k] == '%')
    ensures Shows(buf[..], size, o, t) && Ahead(t, fmt[k..], args, pad, whole)
    ensures SameEnd(fmt[k..], args, pad, o, size, inside)
    ensures o == size - 1 ==> !inside
    ensures forall j :: size <= j < buf.Length ==> buf[j] == old(buf[j])
  {
    o, k, t := off, start, text;
    while k < |fmt| && fmt[k] != '%'
      invariant start <= k <= |fmt|
      invariant Shows(buf[..], size, o, t) && Ahead(t, fmt[k..], args, pad, whole)
      invariant SameEnd(fmt[k..], args, pad, o, size, inside)
      invariant o == size - 1 ==> !inside
      invariant forall j :: size <= j < buf.Length ==> buf[j] == old(buf[j])
    {
      AheadPlain(t, fmt[k..], args, pad, whole);
      assert fmt[k..][1..] == fmt[k + 1..];
      o := Printc(buf, size, o, fmt[k], t);
      t := t + [fmt[k]];
      k := k + 1;
    }
  }

  /** One conversion, from its % to its letter. */
  method Conversion(buf: array<char>, size: nat, off: nat, fmt: string, start: nat, args: seq<Arg>, pad: nat,
                    ghost text: string, ghost whole: string, ghost inside: bool)
    returns (o: nat, k: nat, rest: seq<Arg>, p: nat, ghost t: string)
    requires 1 < size <= buf.Length && Shows(buf[..], size, off, text) && off < size - 1
    requires start < |fmt| && fmt[start] == '%'
    requires Ahead(text, fmt[start..], args, pad, whole) && SameEnd(fmt[start..], args, pad, off, size, inside)
    modifies buf
    ensures start < k <= |fmt|
    ensures Shows(buf[..], size, o, t) && Ahead(t, fmt[k..], rest, p, whole)
    ensures SameEnd(fmt[k..], rest, p, o, size, inside)
    ensures o == size - 1 ==> inside
    ensures forall j :: size <= j < buf.Length ==> buf[j] == old(buf[j])
  {
    AheadConversion(text, fmt[start..], args, pad, whole);
    assert fmt[start..][1..] == fmt[start + 1..];
    var w;
    k, w := ReadWidth(fmt, start + 1, pad);
    ghost var tail := fmt[k..];
    assert tail[0] == fmt[k] && tail[1..] == fmt[k + 1..];
    t := text + Converted(fmt[k], args, w);
    o, rest, p := Print(buf, size, off, fmt[k], args, w, text);
    k := k + 1;
  }

  /**
   The text of the format, cut to the room there is: at most size - 1
   characters, terminated as soon as anything is printed, and nothing written
   at size or beyond. A buffer of one byte is not written at all. The result is
   the length shown, except that it is zero when a conversion fills the buffer.
   */
  method Vsnprintf(buf: array<char>, size: nat, fmt: string, args: seq<Arg>) returns (ret: nat)
    requires 0 < size <= buf.Length && Complete(fmt, args, 0) && NoNul(fmt)
    modifies buf
    ensures var whole := Out(fmt, args, 0);
            && Shows(buf[..], size, Least(|whole|, size - 1), whole)
            && ret == (if size > 1 && EndsInside(fmt, args, 0, size - 1) then 0 else Least(|whole|, size - 1))
    ensures forall k :: size <= k < buf.Length ==> buf[k] == old(buf[k])
    ensures size == 1 ==> buf[..] == old(buf[..])
  {
    ghost var whole := Out(fmt, args, 0);
    ghost var inside := size > 1 && EndsInside(fmt, args, 0, size - 1);
    ghost var t: string := [];
    var off: nat, k: nat, pad: nat, rest := 0, 0, 0, args;
    assert fmt[0..] == fmt;
    assert t + whole == whole;
    while off < size - 1
      invariant k <= |fmt| && Shows(buf[..], size, off, t)
      invariant Ahead(t, fmt[k..], rest, pad, whole)
      invariant SameEnd(fmt[k..], rest, pad, off, size, inside)
      invariant off == size - 1 && size > 1 ==> inside
      invariant forall j :: size <= j < buf.Length ==> buf[j] == old(buf[j])
      invariant size == 1 ==> buf[..] == old(buf[..])
      decreases |fmt| - k
    {
      off, k, t := Plain(buf, size, off, fmt, k, rest, pad, t, whole, inside);
      if k == |fmt| {
        assert t + [] == t;
        return off;
      }
      if off == size - 1 {
        ShowsWhole(buf[..], size, off, t, Out(fmt[k..], rest, pad));
        return off;
      }
      off, k, rest, pad, t := Conversion(buf, size, off, fmt, k, rest, pad, t, whole, inside);
    }
    if size > 1 { ShowsWhole(buf[..], size, off, t, Out(fmt[k..], rest, pad)); }
    return 0;
  }
}

/**
 Numbers to text and back: itoa in bases 10 and 16, and atoi.

 Both conversions write the digits lowest first into the caller's buffer and
 turn the buffer round in place afterwards.
 */
module Itoa {
  import Bits
  import opened Decimals

  const I64_SPAN: int := Bits.WORD_SPAN
  const I64_HALF: int := 0x8000_0000_0000_0000
  const I32_HALF: int := 0x8000_0000

  predicate IsI64(v: int) { -I64_HALF <= v < I64_HALF }

  predicate IsI32(v: int) { -I32_HALF <= v < I32_HALF }

  function HexDigit(d: nat): char
    requires d < 16
  {
    "0123456789ABCDEF"[d]
  }

  function Hex(n: nat): (s: string)
    ensures s != []
  {
    if n < 16 then [HexDigit(n)] else Hex(n / 16) + [HexDigit(n % 16)]
  }

  /**
   What base 10 should print. The lowest 64-bit number has no negation in 64
   bits, and the conversion prints only its sign.
   */
  function DecText(v: int): (t: string)
    requires IsI64(v)
    ensures t != []
  {
    if v == -I64_HALF then "-" else if v < 0 then "-" + Decimal(-v) else Decimal(v)
  }

  /** What base 16 prints: a prefix and at least two digits. */
  function HexText(n: nat): (t: string)
    ensures |t| >= 4
  {
    "0x" + (if n < 16 then "0" else "") + Hex(n)
  }

  function HexDigitOf(c: char): nat {
    if '0' <= c <= '9' then c as int - '0' as int
    else if 'A' <= c <= 'F' then c as int - 'A' as int + 10 else 0
  }

  function HexValue(s: string): nat
    decreases |s|
  {
    if s == [] then 0 else HexValue(s[..|s| - 1]) * 16 + HexDigitOf(s[|s| - 1])
  }

  lemma HexDigitRead(d: nat)
    requires d < 16
    ensures HexDigitOf(HexDigit(d)) == d
  {
  }

  lemma HexValueSnoc(s: string, c: char)
    ensures HexValue(s + [c]) == HexValue(s) * 16 + HexDigitOf(c)
  {
    assert (s + [c])[..|s|] == s;
  }

  /** Base 16 text reads back as the number. */
  lemma {:induction false} HexRoundTrip(n: nat)
    ensures HexValue(Hex(n)) == n
  {
    HexDigitRead(n % 16);
    if n < 16 {
      HexValueSnoc([], HexDigit(n));
      assert [] + [HexDigit(n)] == [HexDigit(n)];
    } else {
      HexRoundTrip(n / 16);
      HexValueSnoc(Hex(n / 16), HexDigit(n % 16));
    }
  }

  lemma {:induction false} HexLength(n: nat, k: nat)
    requires n < Sixteen(k) && k > 0
    ensures |Hex(n)| <= k
    decreases k
  {
    if n >= 16 { HexLength(n / 16, k - 1); }
  }

  function Sixteen(k: nat): nat { if k == 0 then 1 else 16 * Sixteen(k - 1) }

  lemma SixteenEight()
    ensures Sixteen(8) == 0x1_0000_0000
  {
    assert Sixteen(4) == 0x1_0000;
  }

  lemma SixteenWord()
    ensures Sixteen(16) == I64_SPAN
  {
    SixteenEight();
    assert Sixteen(12) == 0x1_0000_0000_0000;
  }

  lemma TenWord()
    ensures Ten(19) > I64_HALF
  {
    assert Ten(4) == 1_0000;
    assert Ten(8) == 1_0000_0000;
    assert Ten(12) == 1_0000_0000_0000;
    assert Ten(16) == 1_0000_0000_0000_0000;
  }

  /** 21 bytes hold any 64-bit number in base 10 and 19 in base 16, with the terminator. */
  lemma TextFits(v: int, n: nat)
    requires IsI64(v) && n < I64_SPAN
    ensures |DecText(v)| < 21 && |HexText(n)| < 19
  {
    TenWord();
    SixteenWord();
    if v != -I64_HALF { DecimalLength(if v < 0 then -v else v, 19); }
    HexLength(n, 16);
  }

  // ---- writing digits lowest first ------------------------------------------

  function Rev(s: string): (r: string)
    ensures |r| == |s|
  {
    seq(|s|, i requires 0 <= i < |s| => s[|s| - 1 - i])
  }

  /** The digits of n in base 10, none for zero. */
  function Places(n: nat): string {
    if n == 0 then [] else Places(n / 10) + [Digit(n % 10)]
  }

  function Nibbles(n: nat): string {
    if n == 0 then [] else Nibbles(n / 16) + [HexDigit(n % 16)]
  }

  lemma {:induction false} PlacesDecimal(n: nat)
    requires n > 0
    ensures Places(n) == Decimal(n)
  {
    if n < 10 {
      assert Places(0) == [];
    } else {
      PlacesDecimal(n / 10);
    }
  }

  lemma {:induction false} NibblesHex(n: nat)
    requires n > 0
    ensures Nibbles(n) == Hex(n)
  {
    if n < 16 {
      assert Nibbles(0) == [];
    } else {
      NibblesHex(n / 16);
    }
  }

  /** Text t is what the buffer holds back to front in its first i places. */
  ghost predicate Backwards(buf: seq<char>, i: nat, t: string) {
    i <= |buf| && Rev(buf[..i]) == t
  }

  lemma BackwardsPut(buf: seq<char>, i: nat, t: string, c: char)
    requires Backwards(buf, i, t) && i < |buf|
    ensures Backwards(buf[i := c], i + 1, [c] + t)
  {
    assert buf[i := c][..i + 1] == buf[..i] + [c];
    assert Rev(buf[..i] + [c]) == [c] + Rev(buf[..i]);
  }

  method PutBack(buf: array<char>, i: nat, c: char, ghost t: string)
    requires Backwards(buf[..], i, t) && i < buf.Length
    modifies buf
    ensures Backwards(buf[..], i + 1, [c] + t)
    ensures forall k :: 0 <= k < buf.Length && k != i ==> buf[k] == old(buf[k])
  {
    BackwardsPut(buf[..], i, t, c);
    ghost var was := buf[..];
    buf[i] := c;
    assert buf[..] == was[i := c];
  }

  lemma Joined(a: string, c: char, t: string)
    ensures a + [c] + t == a + ([c] + t)
  {
  }

  method WritePlaces(buf: array<char>, v: nat) returns (i: nat)
    requires |Places(v)| <= buf.Length
    modifies buf
    ensures Backwards(buf[..], i, Places(v)) && i == |Places(v)|
  {
    i := 0;
    var value := v;
    ghost var t: string := [];
    while value > 0
      invariant Backwards(buf[..], i, t)
      invariant Places(value) + t == Places(v) && i == |t|
    {
      Joined(Places(value / 10), Digit(value % 10), t);
      PutBack(buf, i, Digit(value % 10), t);
      t := [Digit(value % 10)] + t;
      i := i + 1;
      value := value / 10;
    }
  }

  method WriteNibbles(buf: array<char>, v: nat) returns (i: nat)
    requires |Nibbles(v)| <= buf.Length
    modifies buf
    ensures Backwards(buf[..], i, Nibbles(v)) && i == |Nibbles(v)|
  {
    i := 0;
    var n := v;
    ghost var t: string := [];
    while n > 0
      invariant Backwards(buf[..], i, t)
      invariant Nibbles(n) + t == Nibbles(v) && i == |t|
    {
      Joined(Nibbles(n / 16), HexDigit(n % 16), t);
      PutBack(buf, i, HexDigit(n % 16), t);
      t := [HexDigit(n % 16)] + t;
      i := i + 1;
      n := n / 16;
    }
  }

  // ---- turning the buffer round ---------------------------------------------

  /** The first n places hold t, and a terminator follows. */
  ghost predicate Holds(buf: seq<char>, t: string) {
    |t| < |buf| && buf[..|t|] == t && buf[|t|] == '\0'
  }

  /** Swaps from both ends until they meet. */
  method TurnRound(buf: array<char>, n: nat)
    requires n <= buf.Length
    modifies buf
    ensures buf[..n] == Rev(old(buf[..n]))
    ensures forall k :: n <= k < buf.Length ==> buf[k] == old(buf[k])
  {
    var j, i := 0, n - 1;
    while j < i
      invariant 0 <= j && j + i == n - 1 && i >= j - 2 && i >= -1
      invariant forall k :: 0 <= k < j || i < k < n ==> buf[k] == old(buf[n - 1 - k])
      invariant forall k :: j <= k <= i || n <= k < buf.Length ==> buf[k] == old(buf[k])
    {
      buf[j], buf[i] := buf[i], buf[j];
      j, i := j + 1, i - 1;
    }
    assert buf[..n] == Rev(old(buf[..n]));
  }

  method Terminate(buf: array<char>, n: nat, ghost t: string)
    requires Backwards(buf[..], n, t) && n < buf.Length && n == |t|
    modifies buf
    ensures Holds(buf[..], t)
  {
    buf[n] := '\0';
    assert buf[..n] == old(buf[..])[..n];
    TurnRound(buf, n);
    assert buf[..][..n] == buf[..n];
  }

  function Negated(v: int): int
    requires IsI64(v)
  {
    if v == -I64_HALF then v else -v
  }

  method Base10(value: int, buf: array<char>)
    requires IsI64(value) && |DecText(value)| < buf.Length
    modifies buf
    ensures Holds(buf[..], DecText(value))
  {
    if value == 0 {
      buf[0] := '0';
      buf[1] := '\0';
      assert buf[..][..1] == "0";
      return;
    }
    var v := if value < 0 then Negated(value) else value;
    if v > 0 { PlacesDecimal(v); }
    var i := WritePlaces(buf, if v > 0 then v else 0);
    ghost var t := Places(if v > 0 then v else 0);
    if value < 0 {
      PutBack(buf, i, '-', t);
      i := i + 1;
      t := "-" + t;
    }
    assert t == DecText(value);
    Terminate(buf, i, t);
  }

  method Base16(n: nat, buf: array<char>)
    requires |HexText(n)| < buf.Length
    modifies buf
    ensures Holds(buf[..], HexText(n))
  {
    if n == 0 {
      buf[0], buf[1], buf[2], buf[3], buf[4] := '0', 'x', '0', '0', '\0';
      assert HexText(0) == "0x00";
      assert buf[..][..4] == "0x00";
      return;
    }
    NibblesHex(n);
    var i := WriteNibbles(buf, n);
    ghost var t := Hex(n);
    if n < 0x10 {
      PutBack(buf, i, '0', t);
      i, t := i + 1, "0" + t;
    }
    PutBack(buf, i, 'x', t);
    PutBack(buf, i + 1, '0', "x" + t);
    assert "0" + ("x" + t) == HexText(n);
    Terminate(buf, i + 2, HexText(n));
  }

  function TextOf(value: int, base: int): string
    requires IsI64(value)
  {
    if base == 10 then DecText(value) else HexText(value % I64_SPAN)
  }

  /** Any base but 10 and 16 is refused and nothing is written. */
  method Convert(value: int, buf: array<char>, base: int) returns (ok: bool)
    requires IsI64(value) && (base == 10 || base == 16 ==> |TextOf(value, base)| < buf.Length)
    modifies buf
    ensures ok <==> base == 10 || base == 16
    ensures if ok then Holds(buf[..], TextOf(value, base)) else buf[..] == old(buf[..])
  {
    if base == 10 {
      Base10(value, buf);
      return true;
    } else if base == 16 {
      Base16(value % I64_SPAN, buf);
      return true;
    }
    return false;
  }

  // ---- reading ---------------------------------------------------------------

  /** The digits s begins with. */
  function Leading(s: string): (d: string)
    ensures AllDigits(d) && |d| <= |s|
  {
    if s != [] && IsNum(s[0]) then [s[0]] + Leading(s[1..]) else []
  }

  function AfterSpaces(s: string): (r: string)
    ensures |r| <= |s|
  {
    if s != [] && s[0] == ' ' then AfterSpaces(s[1..]) else s
  }

  /** The sign, and what follows it. */
  function Signed(s: string): (int, string) {
    if s == [] then (1, s)
    else if s[0] == '-' then (-1, s[1..])
    else if s[0] == '+' then (1, s[1..]) else (1, s)
  }

  /** The number a text opens with. */
  function Reading(s: string): int {
    var (sign, ds) := Signed(AfterSpaces(s));
    sign * Value(0, Leading(ds))
  }

  /** The accumulator stays a 32-bit int. */
  predicate Readable(s: string) {
    Value(0, Leading(Signed(AfterSpaces(s)).1)) < I32_HALF
  }

  lemma {:induction false} LeadingAll(ds: string)
    requires AllDigits(ds)
    ensures Leading(ds) == ds
  {
    if ds != [] {
      LeadingAll(ds[1..]);
      assert ds == [ds[0]] + ds[1..];
    }
  }

  lemma {:induction false} ValueGrows(a: nat, ds: string)
    requires AllDigits(ds)
    ensures Value(a, ds) >= a
    decreases |ds|
  {
    if ds != [] { ValueGrows(a * 10 + DigitOf(ds[0]), ds[1..]); }
  }

  method SkipSpaces(s: string) returns (k: nat)
    ensures k <= |s| && s[k..] == AfterSpaces(s)
  {
    k := 0;
    assert s[k..] == s;
    while k < |s| && s[k] == ' '
      invariant k <= |s| && AfterSpaces(s[k..]) == AfterSpaces(s)
    {
      assert s[k..][1..] == s[k + 1..];
      k := k + 1;
    }
  }

  method ReadDigits(s: string, start: nat) returns (n: nat)
    requires start <= |s| && Value(0, Leading(s[start..])) < I32_HALF
    ensures n == Value(0, Leading(s[start..]))
  {
    var k := start;
    n := 0;
    while k < |s| && IsNum(s[k])
      invariant k <= |s|
      invariant Value(n, Leading(s[k..])) == Value(0, Leading(s[start..]))
    {
      var rest := s[k..];
      assert rest[0] == s[k] && rest[1..] == s[k + 1..];
      assert Leading(rest)[1..] == Leading(s[k + 1..]);
      n := 10 * n + DigitOf(s[k]);
      ValueGrows(n, Leading(s[k + 1..]));
      assert n < I32_HALF;
      k := k + 1;
    }
    assert Leading(s[k..]) == [];
  }

  method Atoi(s: string) returns (n: int)
    requires Readable(s)
    ensures n == Reading(s) && -I32_HALF < n < I32_HALF
  {
    var k := SkipSpaces(s);
    var sign := if k < |s| && s[k] == '-' then -1 else 1;
    if k < |s| && (s[k] == '+' || s[k] == '-') {
      k := k + 1;
    }
    assert Signed(AfterSpaces(s)).1 == s[k..];
    n := ReadDigits(s, k);
    n := sign * n;
  }

  /** atoi undoes itoa on every 32-bit number but the lowest, whatever spaces come first. */
  lemma {:induction false} AtoiItoa(v: int, spaces: nat)
    requires -I32_HALF < v < I32_HALF
    ensures Readable(Pad(spaces, ' ') + DecText(v))
    ensures Reading(Pad(spaces, ' ') + DecText(v)) == v
    decreases spaces
  {
    var t := Pad(spaces, ' ') + DecText(v);
    if spaces > 0 {
      assert t[1..] == Pad(spaces - 1, ' ') + DecText(v);
      AtoiItoa(v, spaces - 1);
    } else {
      assert t == DecText(v);
      var d := Decimal(if v < 0 then -v else v);
      assert IsNum(d[0]);
      if v < 0 { assert t[1..] == d; }
      assert Signed(t).1 == d;
      LeadingAll(d);
      DecimalValue(if v < 0 then -v else v);
    }
  }

  function Pad(n: nat, c: char): string { seq(n, _ => c) }

  /** The lowest 32-bit number prints, and reading it back overflows the accumulator. */
  lemma LowestUnreadable()
    ensures !Readable(DecText(-I32_HALF))
  {
    var t := DecText(-I32_HALF);
    assert t == "-" + Decimal(I32_HALF);
    assert t[1..] == Decimal(I32_HALF);
    LeadingAll(Decimal(I32_HALF));
    DecimalValue(I32_HALF);
  }
}

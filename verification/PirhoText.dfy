/**
 Tokens of the Pirho compiler and what np_lex.c makes of the text that is left.
 */
module PirhoText {
  import Bits
  import opened Decimals

  const MAX_ID_LEN := 32
  const MAX_STRLEN := 4096
  const U64_SPAN: nat := Bits.WORD_SPAN

  datatype Type = U8 | U16 | U32 | U64 | I8 | I16 | I32 | I64

  /** Punctuation is one character; a word that is no keyword but starts like one is
      TT_NONE. */
  datatype Token = NoToken | Punct(c: char) | Ident(name: string) | TypeName(ty: Type) | Str(s: string) | Number(n: nat)
                 | Begin | Proc | End | Return

  predicate IsAlpha(c: char) { 'a' <= c <= 'z' || 'A' <= c <= 'Z' }
  predicate IsSpace(c: char) { c == ' ' || c == '\t' || c == '\U{0c}' || c == '\n' }
  predicate IsPunct(c: char) {
    c == '(' || c == ')' || c == ',' || c == '=' || c == '[' || c == ']' || c == ':'
    || c == '*' || c == '-' || c == '+' || c == '/' || c == '>' || c == '<'
  }

  /** lex_cmptok */
  function Keyword(w: string): Token {
    if w == "return" then Return
    else if w == "begin" then Begin
    else if w == "end" then End
    else if w == "proc" then Proc
    else if w == "u8" then TypeName(U8)
    else if w == "u16" then TypeName(U16)
    else if w == "u32" then TypeName(U32)
    else if w == "u64" then TypeName(U64)
    else if w == "i8" then TypeName(I8)
    else if w == "i16" then TypeName(I16)
    else if w == "i32" then TypeName(I32)
    else if w == "i64" then TypeName(I64)
    else if w != [] && Reserved(w[0]) then NoToken
    else Ident(w)
  }

  predicate Reserved(c: char) { c == 'r' || c == 'b' || c == 'e' || c == 'p' || c == 'u' || c == 'i' }

  /** The outcome of lex_nom and the text it leaves. */
  datatype Lexed = Eof(rest: string) | Err(rest: string) | Tok(t: Token, rest: string)

  /** The text after leading space. */
  function Skip(s: string): (r: string)
    ensures |r| <= |s|
  {
    if s != [] && IsSpace(s[0]) then Skip(s[1..]) else s
  }

  /** A word, w of it read, its next character first in s. */
  function WordScan(w: string, s: string): (l: Lexed)
    requires s != []
    ensures |l.rest| <= |s| && (IsAlpha(s[0]) ==> |l.rest| < |s|)
    decreases |s|
  {
    if |w| >= MAX_ID_LEN then Err(s[1..])
    else if !IsAlpha(s[0]) && !IsNum(s[0]) then Tok(Keyword(w), s)
    else if |s| == 1 then Tok(Keyword(w + [s[0]]), [])
    else if s[1] == '\0' then Tok(Keyword(w + [s[0]]), s[2..])
    else WordScan(w + [s[0]], s[1..])
  }

  /** A number, n of it read; the character after it is lost. */
  function NumScan(n: nat, s: string): (l: Lexed)
    ensures |l.rest| <= |s| && (s != [] ==> |l.rest| < |s|)
    decreases |s|
  {
    if s == [] then Tok(Number(n), [])
    else if IsNum(s[0]) then NumScan((n * 10 + DigitOf(s[0])) % U64_SPAN, s[1..])
    else Tok(Number(n), s[1..])
  }

  /** A string, b of it read. */
  function StrScan(b: string, s: string): (l: Lexed)
    ensures |l.rest| <= |s|
    decreases |s|
  {
    if s == [] then Err([])
    else if s[0] == '\0' || |b| >= MAX_STRLEN - 1 then Err(s[1..])
    else if s[0] == '"' then Tok(Str(b), s[1..])
    else StrScan(b + [s[0]], s[1..])
  }

  /** lex_nom behind white space: the token that starts with c, t being the text
      behind it. */
  function LexFrom(c: char, t: string): (l: Lexed)
    ensures |l.rest| <= |t|
  {
    if c == '\0' then Eof(t)
    else if c == '"' then StrScan([], t)
    else if IsPunct(c) then Tok(Punct(c), t)
    else if IsNum(c) then NumScan(0, [c] + t)
    else if IsAlpha(c) then WordScan([], [c] + t)
    else Err(t)
  }

  /** lex_nom; every token and every error takes some of the text. */
  function Lex(s: string): (l: Lexed)
    ensures |l.rest| <= |s| && (!l.Eof? ==> |l.rest| < |s|)
  {
    var r := Skip(s);
    if r == [] then Eof([]) else LexFrom(r[0], r[1..])
  }

  // ---- printing tokens

  function TypeText(t: Type): string {
    match t
    case U8 => "u8" case U16 => "u16" case U32 => "u32" case U64 => "u64"
    case I8 => "i8" case I16 => "i16" case I32 => "i32" case I64 => "i64"
  }

  function Text(t: Token): string {
    match t
    case NoToken => []
    case Punct(c) => [c]
    case Ident(w) => w
    case TypeName(ty) => TypeText(ty)
    case Str(b) => ['"'] + b + ['"']
    case Number(n) => Decimal(n)
    case Begin => "begin"
    case Proc => "proc"
    case End => "end"
    case Return => "return"
  }

  predicate IsWord(w: string) { w != [] && IsAlpha(w[0]) && forall i :: 0 <= i < |w| ==> IsAlpha(w[i]) || IsNum(w[i]) }

  /** Tokens that survive being printed and read: a word of at most 31 characters that
      does not start like a keyword, a string of at most 4094, a 64-bit number. */
  predicate Printable(t: Token) {
    match t
    case NoToken => false
    case Punct(c) => IsPunct(c)
    case Ident(w) => IsWord(w) && |w| < MAX_ID_LEN && !Reserved(w[0])
    case Str(b) => |b| < MAX_STRLEN - 1 && '"' !in b && '\0' !in b
    case Number(n) => n < U64_SPAN
    case _ => true
  }

  /** A word ends at the first character that is neither letter nor digit. */
  lemma {:induction false} WordRead(a: string, b: string, w: string, rest: string)
    requires w == a + b && |w| < MAX_ID_LEN && forall i :: 0 <= i < |b| ==> IsAlpha(b[i]) || IsNum(b[i])
    ensures WordScan(a, b + [' '] + rest) == Tok(Keyword(w), [' '] + rest)
    decreases |b|
  {
    var s := b + [' '] + rest;
    if b == [] {
      assert w == a && s == [' '] + rest;
    } else {
      assert s[1..] == b[1..] + [' '] + rest && s[0] == b[0];
      assert s[1] == if |b| == 1 then ' ' else b[1];
      assert a + [b[0]] + b[1..] == w;
      WordRead(a + [b[0]], b[1..], w, rest);
    }
  }

  /** Reading digits gives their value, and takes the character after them. */
  lemma {:induction false} NumRead(a: nat, ds: string, rest: string)
    requires AllDigits(ds) && Value(a, ds) < U64_SPAN
    ensures NumScan(a, ds + [' '] + rest) == Tok(Number(Value(a, ds)), rest)
    decreases |ds|
  {
    var s := ds + [' '] + rest;
    if ds == [] {
      assert s == [' '] + rest && s[1..] == rest;
    } else {
      var a' := a * 10 + DigitOf(ds[0]);
      assert s[1..] == ds[1..] + [' '] + rest && s[0] == ds[0];
      ValueSnoc(a', ds[1..], 0);
      NumRead(a', ds[1..], rest);
    }
  }

  lemma {:induction false} StrRead(a: string, b: string, rest: string)
    requires |a| + |b| < MAX_STRLEN - 1 && '"' !in b && '\0' !in b
    ensures StrScan(a, b + ['"'] + rest) == Tok(Str(a + b), rest)
    decreases |b|
  {
    var s := b + ['"'] + rest;
    if b == [] {
      assert a + b == a && s == ['"'] + rest && s[1..] == rest;
    } else {
      assert s[1..] == b[1..] + ['"'] + rest && s[0] == b[0];
      StrRead(a + [b[0]], b[1..], rest);
      assert a + [b[0]] + b[1..] == a + b;
    }
  }

  /** A number takes the space printed after it; other tokens leave it. */
  function Left(t: Token, rest: string): string { if t.Number? then rest else [' '] + rest }

  lemma SkipNone(s: string)
    requires s != [] && !IsSpace(s[0])
    ensures Skip(s) == s
  {}

  lemma KeywordText(t: Token)
    requires t.Begin? || t.Proc? || t.End? || t.Return? || t.TypeName?
    ensures var w := Text(t); IsWord(w) && |w| < 8 && Keyword(w) == t
  {}

  /** s starts with token t and leaves r. */
  predicate Reads(s: string, t: Token, r: string) { Lex(s) == Tok(t, r) }

  lemma AlphaLex(s: string)
    requires s != [] && IsAlpha(s[0])
    ensures Lex(s) == WordScan([], s)
  {
    SkipNone(s);
    assert [s[0]] + s[1..] == s;
  }

  lemma WordLex(w: string, k: Token, rest: string)
    requires IsWord(w) && |w| < MAX_ID_LEN && k == Keyword(w)
    ensures Reads(w + [' '] + rest, k, [' '] + rest)
  {
    var s := w + [' '] + rest;
    assert s[0] == w[0];
    AlphaLex(s);
    WordRead([], w, w, rest);
  }

  lemma IdentKeyword(w: string)
    requires IsWord(w) && !Reserved(w[0])
    ensures Keyword(w) == Ident(w)
  {}

  lemma NumberReads(n: nat, rest: string)
    requires n < U64_SPAN
    ensures Reads(Decimal(n) + [' '] + rest, Number(n), rest)
  {
    var s := Decimal(n) + [' '] + rest;
    SkipNone(s);
    assert [s[0]] + s[1..] == s;
    DecimalValue(n);
    NumRead(0, Decimal(n), rest);
  }

  lemma StringReads(b: string, rest: string)
    requires |b| < MAX_STRLEN - 1 && '"' !in b && '\0' !in b
    ensures Reads(['"'] + b + ['"'] + [' '] + rest, Str(b), [' '] + rest)
  {
    var s := ['"'] + b + ['"'] + [' '] + rest;
    SkipNone(s);
    assert s[1..] == b + ['"'] + ([' '] + rest);
    StrRead([], b, [' '] + rest);
    assert [] + b == b;
  }

  lemma PunctReads(c: char, rest: string)
    requires IsPunct(c)
    ensures Reads([c] + [' '] + rest, Punct(c), [' '] + rest)
  {
    var s := [c] + [' '] + rest;
    SkipNone(s);
    assert s[1..] == [' '] + rest;
  }

  /** A printed token is read back. */
  lemma TokenReads(t: Token, rest: string)
    requires Printable(t)
    ensures Reads(Text(t) + [' '] + rest, t, Left(t, rest))
  {
    match t
    case Punct(c) => PunctReads(c, rest);
    case Ident(w) => IdentKeyword(w); WordLex(w, t, rest);
    case Number(n) => NumberReads(n, rest);
    case Str(b) => StringReads(b, rest);
    case _ => KeywordText(t); WordLex(Text(t), t, rest);
  }

  /** The tokens of a text up to its end, or up to the first error. */
  function Tokens(s: string): seq<Token>
    decreases |s|
  {
    var l := Lex(s);
    if l.Tok? then [l.t] + Tokens(l.rest) else []
  }

  function Show(ts: seq<Token>): string { if ts == [] then [] else Text(ts[0]) + [' '] + Show(ts[1..]) }

  /** A leading space changes nothing. */
  lemma SpaceBefore(s: string)
    ensures Lex([' '] + s) == Lex(s) && Tokens([' '] + s) == Tokens(s)
  {
    assert ([' '] + s)[1..] == s;
  }

  /** Printing tokens with a space after each and reading them gives them back. */
  lemma {:induction false} ShowTokens(ts: seq<Token>)
    requires forall i :: 0 <= i < |ts| ==> Printable(ts[i])
    ensures Tokens(Show(ts)) == ts
    decreases |ts|
  {
    if ts != [] {
      var t, rest := ts[0], Show(ts[1..]);
      TokenReads(t, rest);
      SpaceBefore(rest);
      ShowTokens(ts[1..]);
    }
  }

  /** One character more and an identifier followed by anything is refused. */
  lemma {:induction false} WordTooLong(a: string, b: string, rest: string)
    requires |a| + |b| >= MAX_ID_LEN && |a| <= MAX_ID_LEN && forall i :: 0 <= i < |b| ==> IsAlpha(b[i]) || IsNum(b[i])
    ensures WordScan(a, b + [' '] + rest).Err?
    decreases |b|
  {
    var s := b + [' '] + rest;
    if |a| < MAX_ID_LEN {
      assert s[1..] == b[1..] + [' '] + rest && s[0] == b[0];
      assert s[1] == if |b| == 1 then ' ' else b[1];
      WordTooLong(a + [b[0]], b[1..], rest);
    }
  }
}

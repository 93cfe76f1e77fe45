/**
 What np_parse.c makes of a text: the operations it emits and the strings it names,
 or a refusal; and what that is for printed statements.
 */
module PirhoGrammar {
  import opened PirhoText
  import opened Piir

  const MAX_BEGIN_DEPTH := 8

  /** The text left, the open blocks, whether a function was met, what was emitted. */
  datatype Parse = Parse(rest: string, depth: nat, inFunc: bool, ops: seq<Op>, strs: seq<string>)

  datatype Outcome = Fail | Ok(p: Parse)

  /** parse_scan: the next token, TT_NONE at the end and on errors. */
  function Scan(s: string): Token {
    var l := Lex(s);
    if l.Tok? then l.t else NoToken
  }

  function After(s: string): (r: string)
    ensures |r| <= |s|
  {
    Lex(s).rest
  }

  /** The next n tokens, and the text behind them. */
  function Peek(s: string, n: nat): (ts: seq<Token>)
    ensures |ts| == n
    decreases n, |s|
  {
    if n == 0 then [] else [Scan(s)] + Peek(After(s), n - 1)
  }

  /** Token i of those, and the text behind it. */
  lemma {:induction false} PeekAt(s: string, n: nat, i: nat)
    requires i < n
    ensures Peek(s, n)[i] == Scan(Behind(s, i)) && Behind(s, i + 1) == After(Behind(s, i))
    decreases n
  {
    if i != 0 { PeekAt(After(s), n - 1, i - 1); }
  }

  function Behind(s: string, n: nat): (r: string)
    ensures |r| <= |s|
    decreases n, |s|
  {
    if n == 0 then s else Behind(After(s), n - 1)
  }

  /** The tokens of a procedure header; those of the arrow are not checked. */
  predicate IsHeader(ts: seq<Token>) {
    |ts| == 7 && ts[0].Ident? && ts[1] == Punct('(') && ts[2] == Punct(')') && ts[5].TypeName? && ts[6] == Begin
  }

  /** parse_proc behind `proc`. */
  function Header(p: Parse): (o: Outcome)
    ensures o.Ok? ==> |o.p.rest| <= |p.rest|
  {
    if IsHeader(Peek(p.rest, 7)) then Ok(p.(rest := Behind(p.rest, 7), depth := p.depth + 1, inFunc := true)) else Fail
  }

  /** parse_return behind `return`. */
  function Result(p: Parse): (o: Outcome)
    ensures o.Ok? ==> |o.p.rest| <= |p.rest|
  {
    var t, q := Scan(p.rest), p.(rest := After(p.rest));
    if t.Number? then Ok(q.(ops := p.ops + [RetNum(t.n)]))
    else if t.Str? then Ok(q.(ops := p.ops + [RetSym(|p.strs|)], strs := p.strs + [t.s]))
    else Fail
  }

  /** parse_token; `begin` opens a block and falls into closing it. */
  function Step(t: Token, p: Parse): (o: Outcome)
    ensures o.Ok? ==> |o.p.rest| <= |p.rest|
  {
    match t
    case Begin => if p.depth >= MAX_BEGIN_DEPTH then Fail else Ok(p.(ops := p.ops + [RetNil]))
    case End => if p.depth > 0 then Ok(p.(depth := p.depth - 1, ops := p.ops + [RetNil])) else Fail
    case Proc =>
      if p.inFunc then Fail
      else
        var o := Header(p);
        if o.Ok? then Ok(o.p.(ops := o.p.ops + [Nop])) else Fail
    case Return => Result(p)
    case _ => Ok(p)
  }

  /** The loop of parse_work, to the end of the text. */
  function Program(p: Parse): Outcome
    decreases |p.rest|
  {
    var l := Lex(p.rest);
    match l
    case Eof(r) => Ok(p.(rest := r))
    case Err(_) => Fail
    case Tok(t, r) =>
      var o := Step(t, p.(rest := r));
      if o.Ok? then Program(o.p) else Fail
  }

  // ---- printed statements

  datatype Stmt = Open | Close | Func(name: string, ty: Type) | RetN(n: nat) | RetS(s: string) | Other(t: Token)

  function StmtTokens(st: Stmt): seq<Token> {
    match st
    case Open => [Begin]
    case Close => [End]
    case Func(w, ty) => [Proc, Ident(w), Punct('('), Punct(')'), Punct('-'), Punct('>'), TypeName(ty), Begin]
    case RetN(n) => [Return, Number(n)]
    case RetS(b) => [Return, Str(b)]
    case Other(t) => [t]
  }

  /** Statements within the limits of the lexer; others are tokens of no consequence. */
  predicate StmtOk(st: Stmt) {
    && (forall i :: 0 <= i < |StmtTokens(st)| ==> Printable(StmtTokens(st)[i]))
    && (st.Other? ==> !st.t.Begin? && !st.t.End? && !st.t.Proc? && !st.t.Return?)
  }

  /** What a statement means, whatever text follows. */
  function Meaning(st: Stmt, p: Parse): Outcome {
    match st
    case Open => if p.depth >= MAX_BEGIN_DEPTH then Fail else Ok(p.(ops := p.ops + [RetNil]))
    case Close => if p.depth > 0 then Ok(p.(depth := p.depth - 1, ops := p.ops + [RetNil])) else Fail
    case Func(_, _) => if p.inFunc then Fail else Ok(p.(depth := p.depth + 1, inFunc := true, ops := p.ops + [Nop]))
    case RetN(n) => Ok(p.(ops := p.ops + [RetNum(n)]))
    case RetS(b) => Ok(p.(ops := p.ops + [RetSym(|p.strs|)], strs := p.strs + [b]))
    case Other(_) => Ok(p)
  }

  function Meanings(sts: seq<Stmt>, p: Parse): Outcome {
    if sts == [] then Ok(p)
    else
      var o := Meaning(sts[0], p);
      if o.Ok? then Meanings(sts[1..], o.p) else Fail
  }

  function Source(sts: seq<Stmt>): string { if sts == [] then [] else Show(StmtTokens(sts[0])) + Source(sts[1..]) }

  /** Whether there is a space left in front. */
  predicate Near(s: string, r: string) { s == r || s == [' '] + r }

  /** A printed token is the next one, with or without a space in front. */
  lemma NextToken(s: string, t: Token, r: string)
    requires Printable(t) && Near(s, Text(t) + [' '] + r)
    ensures Lex(s).Tok? && Scan(s) == t && Near(After(s), r) && Lex(s).rest == After(s)
  {
    TokenReads(t, r);
    SpaceBefore(Text(t) + [' '] + r);
  }

  lemma ShowCons(t: Token, ts: seq<Token>, r: string)
    ensures Show([t] + ts) + r == Text(t) + [' '] + (Show(ts) + r)
  {
    assert ([t] + ts)[1..] == ts;
  }

  /** A space in front makes no difference to the parser. */
  lemma ProgramNear(p: Parse, s: string, r: string)
    requires Near(s, r)
    ensures Program(p.(rest := s)) == Program(p.(rest := r))
  {
    SpaceBefore(r);
  }

  /** The parser at the first token of a statement. */
  lemma ProgramStep(p: Parse, s: string)
    requires Lex(s).Tok?
    ensures Program(p.(rest := s)) == var o := Step(Scan(s), p.(rest := After(s))); if o.Ok? then Program(o.p) else Fail
  {}

  /** Printed tokens are the next ones. */
  lemma {:induction false} PeekShow(s: string, ts: seq<Token>, r: string)
    requires (forall i :: 0 <= i < |ts| ==> Printable(ts[i])) && Near(s, Show(ts) + r)
    ensures Peek(s, |ts|) == ts && Near(Behind(s, |ts|), r)
    decreases |ts|
  {
    if ts == [] {
      assert Show(ts) + r == r;
    } else {
      var s' := TakeToken(s, ts, r);
      PeekShow(s', ts[1..], r);
    }
  }

  lemma HeaderReads(p: Parse, s: string, w: string, ty: Type, r: string)
    requires StmtOk(Func(w, ty)) && Near(s, Show(StmtTokens(Func(w, ty))[1..]) + r)
    ensures var o := Header(p.(rest := s));
            o.Ok? && Near(o.p.rest, r) && o.p == p.(rest := o.p.rest, depth := p.depth + 1, inFunc := true)
  {
    var ts := StmtTokens(Func(w, ty))[1..];
    forall i | 0 <= i < 7 ensures Printable(ts[i]) { assert ts[i] == StmtTokens(Func(w, ty))[i + 1]; }
    PeekShow(s, ts, r);
    assert IsHeader(ts);
  }

  lemma TakeToken(s: string, ts: seq<Token>, r: string) returns (s': string)
    requires ts != [] && Printable(ts[0]) && Near(s, Show(ts) + r)
    ensures s' == After(s) && Lex(s).Tok? && Scan(s) == ts[0] && Near(s', Show(ts[1..]) + r)
  {
    assert ts == [ts[0]] + ts[1..];
    ShowCons(ts[0], ts[1..], r);
    NextToken(s, ts[0], Show(ts[1..]) + r);
    s' := After(s);
  }

  /** The outcomes agree, and so does what follows in the text r. */
  ghost predicate Same(o: Outcome, q: Outcome, r: string) {
    o.Ok? == q.Ok? && (o.Ok? ==> Program(q.p) == Program(o.p.(rest := r)))
  }

  lemma SameNear(p: Parse, s: string, r: string)
    requires Near(s, r)
    ensures Same(Ok(p), Ok(p.(rest := s)), r)
  {
    ProgramNear(p, s, r);
  }

  /** A statement of one token. */
  lemma OneReads(st: Stmt, p: Parse, s: string, r: string)
    requires StmtOk(st) && (st.Open? || st.Close? || st.Other?) && Near(s, r)
    ensures Same(Meaning(st, p), Step(StmtTokens(st)[0], p.(rest := s)), r)
  {
    var o := Meaning(st, p);
    OneSteps(st, p, s);
    if o.Ok? { SameNear(o.p, s, r); }
  }

  /** Its step does not look at the text. */
  lemma OneSteps(st: Stmt, p: Parse, s: string)
    requires StmtOk(st) && (st.Open? || st.Close? || st.Other?)
    ensures var o := Meaning(st, p);
            Step(StmtTokens(st)[0], p.(rest := s)) == if o.Ok? then Ok(o.p.(rest := s)) else Fail
  {}

  lemma FuncReads(st: Stmt, p: Parse, s: string, r: string)
    requires StmtOk(st) && st.Func? && Near(s, Show(StmtTokens(st)[1..]) + r)
    ensures Same(Meaning(st, p), Step(Proc, p.(rest := s)), r)
  {
    if !p.inFunc {
      var s' := HeaderRest(p, s, st, r);
      SameNear(Meaning(st, p).p, s', r);
    }
  }

  lemma HeaderRest(p: Parse, s: string, st: Stmt, r: string) returns (s': string)
    requires StmtOk(st) && st.Func? && Near(s, Show(StmtTokens(st)[1..]) + r) && !p.inFunc
    ensures Near(s', r) && Step(Proc, p.(rest := s)) == Ok(Meaning(st, p).p.(rest := s'))
  {
    HeaderReads(p, s, st.name, st.ty, r);
    s' := Header(p.(rest := s)).p.rest;
  }

  /** Reading a printed statement does what it means. */
  lemma StmtReads(st: Stmt, p: Parse, s: string, r: string)
    requires StmtOk(st) && Near(s, Show(StmtTokens(st)) + r)
    ensures var o := Meaning(st, p);
            Program(p.(rest := s)) == if o.Ok? then Program(o.p.(rest := r)) else Fail
  {
    var ts := StmtTokens(st);
    assert Printable(ts[0]);
    var s1 := TakeToken(s, ts, r);
    ProgramStep(p, s);
    if st.Func? {
      FuncReads(st, p, s1, r);
    } else if st.RetN? || st.RetS? {
      ResultReads(st, p, s1, r);
    } else {
      assert ts[1..] == [] && Show([]) + r == r;
      OneReads(st, p, s1, r);
    }
  }

  lemma ResultReads(st: Stmt, p: Parse, s: string, r: string)
    requires StmtOk(st) && (st.RetN? || st.RetS?) && Near(s, Show(StmtTokens(st)[1..]) + r)
    ensures Same(Meaning(st, p), Result(p.(rest := s)), r)
  {
    var ts := StmtTokens(st);
    assert Printable(ts[1]) && ts[1..][0] == ts[1] && ts[1..][1..] == [] && Show([]) + r == r;
    var s' := TakeToken(s, ts[1..], r);
    SameNear(Meaning(st, p).p, s', r);
  }

  /** A printed program is accepted exactly when its statements have a meaning, and
      then emits just that. */
  lemma {:induction false} SourceReads(sts: seq<Stmt>, p: Parse)
    requires forall i :: 0 <= i < |sts| ==> StmtOk(sts[i])
    ensures var o := Meanings(sts, p);
            Program(p.(rest := Source(sts))) == if o.Ok? then Ok(o.p.(rest := [])) else Fail
    decreases |sts|
  {
    if sts != [] {
      var o := Meaning(sts[0], p);
      StmtReads(sts[0], p, Source(sts), Source(sts[1..]));
      if o.Ok? { SourceReads(sts[1..], o.p); }
    }
  }

  // ---- what the operations name

  /** Operations and strings only grow. */
  lemma {:induction false} MeaningsGrow(sts: seq<Stmt>, p: Parse)
    requires Meanings(sts, p).Ok?
    ensures p.ops <= Meanings(sts, p).p.ops && p.strs <= Meanings(sts, p).p.strs
    decreases |sts|
  {
    if sts != [] { MeaningsGrow(sts[1..], Meaning(sts[0], p).p); }
  }

  /** A returned string is what the emitted symbol number stands for in the end. */
  lemma {:induction false} StringNamed(sts: seq<Stmt>, p: Parse, j: nat) returns (k: nat)
    requires Meanings(sts, p).Ok? && j < |sts| && sts[j].RetS?
    ensures var q := Meanings(sts, p).p;
            k < |q.ops| && q.ops[k].RetSym? && q.ops[k].id < |q.strs| && q.strs[q.ops[k].id] == sts[j].s
    decreases |sts|
  {
    var q := Meaning(sts[0], p).p;
    MeaningsGrow(sts[1..], q);
    if j == 0 {
      k := |p.ops|;
    } else {
      k := StringNamed(sts[1..], q, j - 1);
    }
  }
}

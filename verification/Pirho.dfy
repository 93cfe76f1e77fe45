/**
 parse_work of np_parse.c: lexer, parser state, byte queue and symbols together.
 */
module Pirho {
  import opened PirhoText
  import opened PirhoLexer
  import opened PirhoGrammar
  import opened PirhoSymbols
  import opened Piir

  /** What the store takes of a stream of bytes. */
  function Room(bs: seq<int>): seq<int> { if |bs| <= STACK_SIZE - 1 then bs else bs[..STACK_SIZE - 1] }

  function Strings(q: seq<Symbol>): seq<string> { seq(|q|, i requires 0 <= i < |q| => q[i].addr) }

  /** What the engine decodes of a program: the operations whose bytes the queue takes,
      without those whose operand is negative as a byte, operands cut to a byte. */
  function Arrives(ops: seq<Op>): seq<Op> { HeardAll(ops[..Fitting(ops, STACK_SIZE - 1)]) }

  /** The work is done: which operations the engine decodes, and the symbols. */
  ghost predicate Worked(o: Outcome, r: int, given: seq<Op>, q: seq<Symbol>) {
    if o.Fail? then given == [] && r < 0
    else given == Arrives(o.p.ops) && r <= 0 && (r == 0 <==> o.p.depth == 0) && Strings(q) == o.p.strs
  }

  class Work {
    const lexer: Lexer
    const stack: Stack
    const syms: SymList
    var depth: nat
    var inFunc: bool
    ghost var ops: seq<Op>
    ghost var bytes: seq<int>

    constructor (source: string)
      ensures Valid() && fresh(lexer) && fresh(stack) && fresh(stack.store) && fresh(syms) && fresh(syms.cache)
      ensures Synced() && Value() == Parse(source, 0, false, [], [])
    {
      lexer := new Lexer(source);
      stack := new Stack();
      syms := new SymList();
      depth, inFunc, ops, bytes := 0, false, [], [];
    }

    ghost function Repr(): set<object> { {this, lexer, stack, stack.store, syms, syms.cache} }

    /** The store holds the bytes emitted, as far as it takes them. */
    ghost predicate Valid()
      reads Repr()
    {
      && lexer.Valid() && stack.Valid() && syms.Valid()
      && stack.tail == 0 && stack.Contents() == Room(bytes)
    }

    ghost function Value(): Parse
      requires Valid()
      reads Repr()
    {
      Parse(lexer.Rest(), depth, inFunc, ops, Strings(syms.symq))
    }

    /** PIIR_PUSH */
    method Emit(b: int)
      requires Valid()
      modifies this`bytes, stack, stack.store
      ensures Valid() && bytes == old(bytes) + [b]
    {
      var _ := stack.Push(b);
      bytes := bytes + [b];
    }

    /** parse_scan */
    method NextToken() returns (t: Token)
      requires Valid()
      modifies lexer
      ensures Valid() && t == Scan(old(lexer.Rest())) && lexer.Rest() == After(old(lexer.Rest()))
    {
      var err, u := lexer.Nom();
      t := if err < 0 then NoToken else u;
    }

    /** The bytes are those of the operations. */
    ghost predicate Synced()
      reads this
    {
      bytes == EncodeAll(ops)
    }

    /** One byte for an operation without operand, two with one. */
    method EmitShort(code: int, ghost op: Op)
      requires Valid() && Synced() && Encode(op) == [code]
      modifies this`bytes, this`ops, stack, stack.store
      ensures Valid() && Synced() && ops == old(ops) + [op] && Value() == old(Value()).(ops := ops)
    {
      EncodeSnoc(ops, op);
      Emit(code);
      ops := ops + [op];
    }

    method EmitLong(code: int, v: nat, ghost op: Op)
      requires Valid() && Synced() && Encode(op) == [code, ToByte(v)]
      modifies this`bytes, this`ops, stack, stack.store
      ensures Valid() && Synced() && ops == old(ops) + [op]
    {
      EncodeSnoc(ops, op);
      ghost var b := bytes;
      Emit(code);
      Emit(ToByte(v));
      assert b + [code] + [ToByte(v)] == b + [code, ToByte(v)];
      ops := ops + [op];
    }

    /** The outcome of a parsing step. */
    ghost predicate Became(ok: bool, o: Outcome)
      requires Valid()
      reads Repr()
    {
      if ok then Synced() && o == Ok(Value()) else o == Fail
    }

    /** parse_return */
    method ParseReturn() returns (ok: bool)
      requires Valid() && Synced()
      modifies Repr()
      ensures Valid() && Became(ok, Result(old(Value())))
    {
      var err, t := lexer.Nom();
      if err < 0 {
        return false;
      }
      if t.Number? {
        EmitLong(6, t.n, RetNum(t.n));
      } else if t.Str? {
        var sym := syms.Alloc(t.s);
        assert Strings(syms.symq) == old(Strings(syms.symq)) + [t.s];
        EmitLong(7, sym.id, RetSym(sym.id));
      } else {
        return false;
      }
      ok := true;
    }

    /** Token i of a header. */
    method HeaderToken(ghost s: string, ghost i: nat) returns (t: Token)
      requires Valid() && i < 7 && lexer.Rest() == Behind(s, i)
      modifies lexer
      ensures Valid() && t == Peek(s, 7)[i] && lexer.Rest() == Behind(s, i + 1)
    {
      PeekAt(s, 7, i);
      t := NextToken();
    }

    /** The tokens of a header, one by one. */
    method HeaderTokens() returns (ok: bool)
      requires Valid()
      modifies lexer
      ensures Valid() && (ok <==> IsHeader(Peek(old(lexer.Rest()), 7)))
              && (ok ==> lexer.Rest() == Behind(old(lexer.Rest()), 7))
    {
      ghost var s := lexer.Rest();
      var t := HeaderToken(s, 0);
      if !t.Ident? { return false; }
      t := HeaderToken(s, 1);
      if t != Punct('(') { return false; }
      t := HeaderToken(s, 2);
      if t != Punct(')') { return false; }
      t := HeaderToken(s, 3);
      t := HeaderToken(s, 4);
      t := HeaderToken(s, 5);
      if !t.TypeName? { return false; }
      t := HeaderToken(s, 6);
      if t != Begin { return false; }
      ok := true;
    }

    /** parse_proc */
    method ParseProc() returns (ok: bool)
      requires Valid() && Synced()
      modifies lexer, this`depth, this`inFunc
      ensures Valid() && Became(ok, Header(old(Value())))
    {
      ghost var p := Value();
      ok := HeaderTokens();
      HeaderIs(p);
      if ok {
        depth := depth + 1;
        inFunc := true;
      }
    }

    /** PROC: a header, unless inside a procedure already. */
    method ParseFunc() returns (ok: bool)
      requires Valid() && Synced()
      modifies Repr()
      ensures Valid() && Became(ok, Step(Proc, old(Value())))
    {
      if inFunc {
        return false;
      }
      ghost var o := Header(Value());
      ok := ParseProc();
      if ok {
        NoteFunc(o);
      }
    }

    /** The operation that marks a procedure. */
    method NoteFunc(ghost o: Outcome)
      requires Valid() && Synced() && o == Ok(Value())
      modifies this`bytes, this`ops, stack, stack.store
      ensures Valid() && Synced() && Value() == o.p.(ops := o.p.ops + [Nop])
    {
      EmitShort(0, Nop);
    }

    /** BEGIN falls through into END. */
    method ParseBlock(t: Token) returns (ok: bool)
      requires Valid() && Synced() && (t.Begin? || t.End?)
      modifies Repr()
      ensures Valid() && Became(ok, Step(t, old(Value())))
    {
      if t.Begin? {
        if depth >= MAX_BEGIN_DEPTH {
          return false;
        }
        depth := depth + 1;
      }
      if depth > 0 {
        depth := depth - 1;
        EmitShort(5, RetNil);
        return true;
      }
      return false;
    }

    /** parse_token */
    method ParseToken(t: Token) returns (ok: bool)
      requires Valid() && Synced()
      modifies Repr()
      ensures Valid() && Became(ok, Step(t, old(Value())))
    {
      if t.Begin? || t.End? {
        ok := ParseBlock(t);
        return;
      }
      if t.Proc? {
        ok := ParseFunc();
        return;
      }
      if t.Return? {
        ok := ParseReturn();
        return;
      }
      ok := true;
    }

    /** parse_work: the loop to the end of the text, then delivery of the bytes; a block
        left open is reported after that. */
    method ParseWork() returns (r: int, given: seq<Op>)
      requires Valid() && Synced()
      modifies Repr()
      ensures syms.Valid() && Worked(Program(old(Value())), r, given, syms.symq)
    {
      ghost var p := Value();
      given := [];
      while true
        invariant Valid() && Synced() && Program(Value()) == Program(p)
        decreases |lexer.Rest()|
      {
        ghost var q := Value();
        var err, t := lexer.Nom();
        if err == LEX_EOF {
          break;
        }
        if err < 0 {
          return err, given;
        }
        var ok := ParseToken(t);
        if !ok {
          return -1, given;
        }
      }
      Arrived(ops);
      given := stack.Inject();
      r := if depth > 0 then -1 else 0;
    }
  }

  lemma HeaderIs(p: Parse)
    ensures Header(p) ==
            if IsHeader(Peek(p.rest, 7)) then Ok(p.(rest := Behind(p.rest, 7), depth := p.depth + 1, inFunc := true))
            else Fail
  {}

  const START := Parse("", 0, false, [], [])

  /** The bytes fit the queue and every operand fits a non-negative byte. */
  predicate Fits(ops: seq<Op>) { |EncodeAll(ops)| <= STACK_SIZE - 1 && AllSmall(ops) }

  /** Draining what the queue took of a program. */
  lemma Arrived(ops: seq<Op>)
    ensures Drain(Room(EncodeAll(ops))) == Arrives(ops)
  {
    var bs, n := EncodeAll(ops), STACK_SIZE - 1;
    if |bs| <= n {
      FittingAll(ops, |bs|);
      FittingAll(ops, n);
      assert bs[..|bs|] == bs;
      DrainCut(ops, |bs|);
    } else {
      DrainCut(ops, n);
    }
  }

  /** The engine decodes the program as it is exactly when it fits. */
  lemma Delivered(ops: seq<Op>)
    ensures Arrives(ops) == ops <==> Fits(ops)
  {
    var n := STACK_SIZE - 1;
    var k := Fitting(ops, n);
    FittingAll(ops, n);
    HeardFewer(ops[..k]);
    HeardWhole(ops);
    if k == |ops| { assert ops[..k] == ops; }
  }

  /** What delivering an outcome should give. */
  ghost predicate Delivers(o: Outcome, r: int, given: seq<Op>, q: seq<Symbol>) {
    if o.Fail? then given == [] && r < 0
    else
      && given == Arrives(o.p.ops) && (given == o.p.ops <==> Fits(o.p.ops))
      && (r == 0 <==> o.p.depth == 0) && Strings(q) == o.p.strs
  }

  /** From text to operations: what the engine decodes of printed statements, which is
      what they mean exactly when the program fits, each symbol number standing for its
      string; statements without a meaning deliver nothing. */
  method Compile(sts: seq<Stmt>) returns (r: int, given: seq<Op>, w: Work)
    requires forall i :: 0 <= i < |sts| ==> StmtOk(sts[i])
    ensures fresh(w) && fresh(w.syms) && fresh(w.syms.cache) && w.syms.Valid()
    ensures Delivers(Meanings(sts, START), r, given, w.syms.symq)
  {
    w := new Work(Source(sts));
    ghost var o := Program(w.Value());
    r, given := w.ParseWork();
    Deliver(sts, o, r, given, w.syms.symq);
  }

  lemma Deliver(sts: seq<Stmt>, o: Outcome, r: int, given: seq<Op>, q: seq<Symbol>)
    requires (forall i :: 0 <= i < |sts| ==> StmtOk(sts[i])) && o == Program(Parse(Source(sts), 0, false, [], []))
             && Worked(o, r, given, q)
    ensures Delivers(Meanings(sts, START), r, given, q)
  {
    SourceReads(sts, START);
    if o.Ok? { Delivered(o.p.ops); }
  }

  // ---- the symbols the engine looks up

  /** The string a symbol number stands for, "" if it stands for none. */
  function Name(op: Op, strs: seq<string>): seq<string> {
    if op.RetSym? then [if op.id < |strs| then strs[op.id] else ""] else []
  }

  /** The strings the operations name, in order. */
  function Names(ops: seq<Op>, strs: seq<string>): seq<string> {
    if ops == [] then [] else Name(ops[0], strs) + Names(ops[1..], strs)
  }

  /** The strings the statements return, in order. */
  function Returned(sts: seq<Stmt>): seq<string> {
    if sts == [] then [] else Returns(sts[0]) + Returned(sts[1..])
  }

  function Returns(st: Stmt): seq<string> { if st.RetS? then [st.s] else [] }

  /** From p to q just these strings are named in addition. */
  ghost predicate Adds(p: Parse, q: Parse, rs: seq<string>) {
    Names(q.ops, q.strs) == Names(p.ops, p.strs) + rs
  }

  lemma AddsBoth(p: Parse, q: Parse, r: Parse, a: seq<string>, b: seq<string>)
    requires Adds(p, q, a) && Adds(q, r, b)
    ensures Adds(p, r, a + b)
  {
    assert Names(p.ops, p.strs) + a + b == Names(p.ops, p.strs) + (a + b);
  }

  predicate Known(ops: seq<Op>, strs: seq<string>) {
    forall i :: 0 <= i < |ops| && ops[i].RetSym? ==> ops[i].id < |strs|
  }

  lemma {:induction false} NamesSnoc(ops: seq<Op>, op: Op, strs: seq<string>)
    ensures Names(ops + [op], strs) == Names(ops, strs) + Name(op, strs)
    decreases |ops|
  {
    if ops == [] {
      assert (ops + [op])[1..] == [];
      assert Names([op], strs) == Name(op, strs) + Names([], strs);
    } else {
      assert (ops + [op])[1..] == ops[1..] + [op];
      NamesSnoc(ops[1..], op, strs);
    }
  }

  lemma {:induction false} NamesMore(ops: seq<Op>, strs: seq<string>, s: string)
    requires Known(ops, strs)
    ensures Names(ops, strs + [s]) == Names(ops, strs)
    decreases |ops|
  {
    if ops != [] {
      assert Known(ops[1..], strs);
      NamesMore(ops[1..], strs, s);
    }
  }

  /** One statement names what it returns. */
  lemma MeaningNames(st: Stmt, p: Parse)
    requires Meaning(st, p).Ok? && Known(p.ops, p.strs)
    ensures var q := Meaning(st, p).p;
            Known(q.ops, q.strs) && Adds(p, q, Returns(st))
  {
    var q := Meaning(st, p).p;
    if st.RetS? { NamesMore(p.ops, p.strs, st.s); }
    if q.ops != p.ops { NamesSnoc(p.ops, q.ops[|q.ops| - 1], q.strs); }
  }

  /** The operations of a program name just the strings it returns. */
  lemma {:induction false} MeaningsName(sts: seq<Stmt>, p: Parse)
    requires Meanings(sts, p).Ok? && Known(p.ops, p.strs)
    ensures var q := Meanings(sts, p).p;
            Adds(p, q, Returned(sts))
    decreases |sts|
  {
    if sts == [] {
      assert Names(p.ops, p.strs) + [] == Names(p.ops, p.strs);
    } else {
      var q := Meaning(sts[0], p).p;
      MeaningNames(sts[0], p);
      MeaningsName(sts[1..], q);
      AddsBoth(p, q, Meanings(sts, p).p, Returns(sts[0]), Returned(sts[1..]));
    }
  }

  /** Looking up every symbol number of an instruction stream. */
  method LookUpAll(syms: SymList, ops: seq<Op>) returns (out: seq<string>)
    requires syms.Valid()
    modifies syms`cacheI, syms.cache
    ensures syms.Valid() && out == Names(ops, Strings(syms.symq))
  {
    out := [];
    ghost var strs := Strings(syms.symq);
    for i := 0 to |ops|
      invariant syms.Valid() && syms.symq == old(syms.symq) && out == Names(ops[..i], strs)
    {
      assert ops[..i + 1] == ops[..i] + [ops[i]];
      NamesSnoc(ops[..i], ops[i], strs);
      if ops[i].RetSym? {
        var r, sym := syms.LookupId(ops[i].id);
        out := out + [if r == 0 then sym.addr else ""];
      }
    }
    assert ops[..|ops|] == ops;
  }

  // ---- when all strings come back

  /** The symbol numbers, in order. */
  function SymIds(ops: seq<Op>): seq<nat> {
    if ops == [] then [] else SymId(ops[0]) + SymIds(ops[1..])
  }

  lemma {:induction false} NamesLength(ops: seq<Op>, strs: seq<string>)
    ensures |Names(ops, strs)| == |SymIds(ops)|
    decreases |ops|
  {
    if ops != [] { NamesLength(ops[1..], strs); }
  }

  lemma {:induction false} NamesConcat(a: seq<Op>, b: seq<Op>, strs: seq<string>)
    ensures Names(a + b, strs) == Names(a, strs) + Names(b, strs)
    decreases |a|
  {
    if a == [] {
      assert a + b == b;
    } else {
      assert (a + b)[1..] == a[1..] + b && (a + b)[0] == a[0];
      NamesConcat(a[1..], b, strs);
      Assoc(Name(a[0], strs), Names(a[1..], strs), Names(b, strs));
    }
  }

  function SymId(op: Op): seq<nat> { if op.RetSym? then [op.id] else [] }

  lemma {:induction false} SymsConcat(a: seq<Op>, b: seq<Op>)
    ensures SymIds(a + b) == SymIds(a) + SymIds(b)
    decreases |a|
  {
    if a == [] {
      assert a + b == b;
    } else {
      assert (a + b)[1..] == a[1..] + b && (a + b)[0] == a[0];
      SymsConcat(a[1..], b);
      Assoc(SymId(a[0]), SymIds(a[1..]), SymIds(b));
    }
  }

  /** None of the numbers is negative as a byte. */
  ghost predicate AllQuiet(ids: seq<nat>) { forall i :: i in ids ==> i % 256 < 128 }

  lemma HeardSym(op: Op, rest: seq<Op>)
    ensures SymIds(Heard(op) + rest) ==
            (if op.RetSym? && op.id % 256 < 128 then [op.id % 256] else []) + SymIds(rest)
  {
    var all := Heard(op) + rest;
    if Heard(op) == [] { assert all == rest; } else { assert all[1..] == rest; }
  }

  /** The engine hears of as many symbols as were sent only if it hears of each. */
  lemma {:induction false} HeardSyms(ops: seq<Op>)
    ensures |SymIds(HeardAll(ops))| <= |SymIds(ops)|
    ensures |SymIds(HeardAll(ops))| == |SymIds(ops)| ==> AllQuiet(SymIds(ops))
    decreases |ops|
  {
    if ops != [] {
      HeardSyms(ops[1..]);
      HeardSym(ops[0], HeardAll(ops[1..]));
    }
  }

  /** Symbol numbers below 128 name the same strings on arrival. */
  lemma {:induction false} HeardNames(ops: seq<Op>, strs: seq<string>)
    requires forall i :: 0 <= i < |SymIds(ops)| ==> SymIds(ops)[i] < 128
    ensures Names(HeardAll(ops), strs) == Names(ops, strs)
    decreases |ops|
  {
    if ops != [] {
      var one, rest := Heard(ops[0]), ops[1..];
      var ids := SymId(ops[0]);
      forall i | 0 <= i < |SymIds(rest)| ensures SymIds(rest)[i] < 128 {
        assert SymIds(ops)[|ids| + i] == SymIds(rest)[i];
      }
      HeardNames(rest, strs);
      if ops[0].RetSym? { assert SymIds(ops)[0] == ops[0].id; }
      NamesConcat(one, HeardAll(rest), strs);
      assert Names(one, strs) == Name(ops[0], strs) by {
        if one != [] { assert one[1..] == [] && Names(one, strs) == Name(one[0], strs) + Names([], strs); }
      }
    }
  }

  /** The symbols are numbered from 0 in the order of the strings. */
  ghost predicate Numbered(p: Parse) {
    |SymIds(p.ops)| == |p.strs| && forall i :: 0 <= i < |p.strs| ==> SymIds(p.ops)[i] == i
  }

  lemma NumberAt(p: Parse, i: nat)
    requires Numbered(p)
    ensures i < |p.strs| ==> i in SymIds(p.ops)
  {
    if i < |p.strs| { assert SymIds(p.ops)[i] == i; }
  }

  lemma MeaningNumbers(st: Stmt, p: Parse)
    requires Meaning(st, p).Ok? && Numbered(p)
    ensures Numbered(Meaning(st, p).p)
  {
    var q := Meaning(st, p).p;
    if q.ops != p.ops {
      var op := q.ops[|q.ops| - 1];
      assert q.ops == p.ops + [op] && [op][1..] == [];
      SymsConcat(p.ops, [op]);
      assert SymIds([op]) == SymId(op) + SymIds([]);
    }
  }

  lemma {:induction false} MeaningsNumber(sts: seq<Stmt>, p: Parse)
    requires Meanings(sts, p).Ok? && Numbered(p)
    ensures Numbered(Meanings(sts, p).p)
    decreases |sts|
  {
    if sts != [] {
      MeaningNumbers(sts[0], p);
      MeaningsNumber(sts[1..], Meaning(sts[0], p).p);
    }
  }

  /** At most 128 strings are returned, and the queue takes the bytes of every return
      of a string. */
  predicate StringsFit(ops: seq<Op>, strs: seq<string>) {
    |strs| <= 128 && SymIds(ops[Fitting(ops, STACK_SIZE - 1)..]) == []
  }

  lemma NamedFit(p: Parse, a: seq<Op>, b: seq<Op>)
    requires Numbered(p) && p.ops == a + b && Names(HeardAll(a), p.strs) == Names(p.ops, p.strs)
    ensures |p.strs| <= 128 && SymIds(b) == []
  {
    SymsConcat(a, b);
    NamesLength(p.ops, p.strs);
    NamesLength(HeardAll(a), p.strs);
    HeardSyms(a);
    assert SymIds(a) == SymIds(p.ops);
    NumberAt(p, 128);
  }

  lemma FitNamed(p: Parse, a: seq<Op>, b: seq<Op>)
    requires Numbered(p) && p.ops == a + b && |p.strs| <= 128 && SymIds(b) == []
    ensures Names(HeardAll(a), p.strs) == Names(p.ops, p.strs)
  {
    SymsConcat(a, b);
    NamesConcat(a, b, p.strs);
    NamesLength(b, p.strs);
    assert SymIds(a) == SymIds(p.ops);
    HeardNames(a, p.strs);
  }

  /** What the engine hears of names all the strings, in order, exactly then. */
  lemma AllNamed(p: Parse)
    requires Numbered(p)
    ensures Names(Arrives(p.ops), p.strs) == Names(p.ops, p.strs) <==> StringsFit(p.ops, p.strs)
  {
    var k := Fitting(p.ops, STACK_SIZE - 1);
    var a, b := p.ops[..k], p.ops[k..];
    assert p.ops == a + b;
    if Names(Arrives(p.ops), p.strs) == Names(p.ops, p.strs) { NamedFit(p, a, b); }
    if StringsFit(p.ops, p.strs) { FitNamed(p, a, b); }
  }

  /** From text to strings: compiling a printed program and looking up the symbols the
      engine is given yields the returned strings in order exactly when there are at
      most 128 and the queue takes them all. */
  method Execute(sts: seq<Stmt>) returns (out: seq<string>)
    requires forall i :: 0 <= i < |sts| ==> StmtOk(sts[i])
    ensures var o := Meanings(sts, START);
            if o.Fail? then out == []
            else out == Names(Arrives(o.p.ops), o.p.strs) && (out == Returned(sts) <==> StringsFit(o.p.ops, o.p.strs))
  {
    var r, given, w := Compile(sts);
    out := LookUpAll(w.syms, given);
    ghost var o := Meanings(sts, START);
    if o.Ok? {
      MeaningsName(sts, START);
      MeaningsNumber(sts, START);
      AllNamed(o.p);
    }
  }

  /** A program that fits as a whole is such a program. */
  lemma FitsStrings(p: Parse)
    requires Numbered(p) && Fits(p.ops)
    ensures StringsFit(p.ops, p.strs)
  {
    Delivered(p.ops);
    AllNamed(p);
  }
}

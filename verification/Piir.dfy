/**
 The intermediate code of the Pirho compiler: its operations, their signed bytes,
 the byte queue between parser and code generator, and the symbols they name.
 */
module Piir {

  const STACK_SIZE := 4096

  datatype Op = Nop | RetNil | RetNum(n: nat) | RetSym(id: nat)

  /** A value stored in an ir_byte_t. */
  function ToByte(v: nat): int { if v % 256 < 128 then v % 256 else v % 256 - 256 }

  function Encode(op: Op): seq<int> {
    match op
    case Nop => [0]
    case RetNil => [5]
    case RetNum(n) => [6, ToByte(n)]
    case RetSym(id) => [7, ToByte(id)]
  }

  function EncodeAll(ops: seq<Op>): seq<int> {
    if ops == [] then [] else Encode(ops[0]) + EncodeAll(ops[1..])
  }

  /** What the engine makes of the queued bytes.  `piir_inject` takes one byte after
      the other as an operation, up to a negative one; the decoder takes the operand
      from the same queue, and drops the operation, not the rest, if that is negative
      or missing.  Other bytes mean nothing. */
  function Drain(bs: seq<int>): seq<Op>
    decreases |bs|
  {
    if bs == [] || bs[0] < 0 then []
    else if bs[0] == 0 then [Nop] + Drain(bs[1..])
    else if bs[0] == 5 then [RetNil] + Drain(bs[1..])
    else if bs[0] == 6 || bs[0] == 7 then Operand(bs[0], bs[1..]) + Drain(if |bs| == 1 then [] else bs[2..])
    else Drain(bs[1..])
  }

  /** The operation with its operand next in the queue. */
  function Operand(code: int, bs: seq<int>): seq<Op> {
    if bs == [] || bs[0] < 0 then [] else if code == 6 then [RetNum(bs[0])] else [RetSym(bs[0])]
  }

  /** The operand fits a non-negative byte. */
  predicate Small(op: Op) { (op.RetNum? ==> op.n < 128) && (op.RetSym? ==> op.id < 128) }

  lemma {:induction false} EncodeSnoc(ops: seq<Op>, op: Op)
    ensures EncodeAll(ops + [op]) == EncodeAll(ops) + Encode(op)
    decreases |ops|
  {
    if ops == [] {
      assert ops + [op] == [op] && [op][1..] == [];
      assert EncodeAll([op]) == Encode(op) + EncodeAll([]);
    } else {
      var rest := ops[1..];
      assert (ops + [op])[1..] == rest + [op] && (ops + [op])[0] == ops[0];
      EncodeSnoc(rest, op);
      Assoc(Encode(ops[0]), EncodeAll(rest), Encode(op));
    }
  }

  lemma Assoc<T>(a: seq<T>, b: seq<T>, c: seq<T>)
    ensures a + (b + c) == (a + b) + c
  {}

  /** The operand, cut to a byte, is not negative. */
  predicate Quiet(op: Op) { (op.RetNum? ==> op.n % 256 < 128) && (op.RetSym? ==> op.id % 256 < 128) }

  /** What arrives of an operation: nothing, or the operation with its operand cut. */
  function Heard(op: Op): (r: seq<Op>)
    ensures |r| <= 1 && (r == [op] <==> Small(op))
  {
    match op
    case RetNum(n) => if Quiet(op) then [RetNum(n % 256)] else []
    case RetSym(id) => if Quiet(op) then [RetSym(id % 256)] else []
    case _ => [op]
  }

  function HeardAll(ops: seq<Op>): seq<Op> { if ops == [] then [] else Heard(ops[0]) + HeardAll(ops[1..]) }

  lemma DrainOne(op: Op, rest: seq<int>)
    ensures Drain(Encode(op) + rest) == Heard(op) + Drain(rest)
  {
    var bs := Encode(op) + rest;
    assert bs[|Encode(op)|..] == rest;
    if op.RetNum? || op.RetSym? { assert bs[1..][0] == Encode(op)[1]; }
  }

  /** How many of the operations have all their bytes among the first n. */
  function Fitting(ops: seq<Op>, n: nat): (k: nat)
    ensures k <= |ops|
  {
    if ops == [] || |Encode(ops[0])| > n then 0 else 1 + Fitting(ops[1..], n - |Encode(ops[0])|)
  }

  /** An operation cut short says nothing. */
  lemma DrainShort(op: Op, n: nat)
    requires n < |Encode(op)|
    ensures Drain(Encode(op)[..n]) == []
  {
    var bs := Encode(op)[..n];
    if n == 1 {
      assert bs == [Encode(op)[0]] && bs[1..] == [];
      assert Drain(bs) == Operand(bs[0], []) + Drain([]);
    }
  }

  /** However large the operands and however short the queue: what the engine decodes
      from the first n bytes of a program is what is heard of the operations that fit. */
  lemma {:induction false} DrainCut(ops: seq<Op>, n: nat)
    requires n <= |EncodeAll(ops)|
    ensures Drain(EncodeAll(ops)[..n]) == HeardAll(ops[..Fitting(ops, n)])
    decreases |ops|
  {
    if ops != [] {
      var one, rest := Encode(ops[0]), EncodeAll(ops[1..]);
      if n < |one| {
        assert EncodeAll(ops)[..n] == one[..n];
        DrainShort(ops[0], n);
      } else {
        var k := Fitting(ops[1..], n - |one|);
        assert EncodeAll(ops)[..n] == one + rest[..n - |one|];
        DrainCut(ops[1..], n - |one|);
        DrainOne(ops[0], rest[..n - |one|]);
        assert ops[..k + 1][0] == ops[0] && ops[..k + 1][1..] == ops[1..][..k];
      }
    }
  }

  lemma {:induction false} HeardFewer(ops: seq<Op>)
    ensures |HeardAll(ops)| <= |ops|
    decreases |ops|
  {
    if ops != [] { HeardFewer(ops[1..]); }
  }

  predicate AllSmall(ops: seq<Op>) { forall i :: 0 <= i < |ops| ==> Small(ops[i]) }

  lemma AllSmallCons(ops: seq<Op>)
    requires ops != []
    ensures AllSmall(ops) <==> Small(ops[0]) && AllSmall(ops[1..])
  {
    if Small(ops[0]) && AllSmall(ops[1..]) {
      forall i | 0 <= i < |ops| ensures Small(ops[i]) { assert i > 0 ==> ops[i] == ops[1..][i - 1]; }
    }
  }

  /** A program arrives as it is exactly when every operand is below 128. */
  lemma {:induction false} HeardWhole(ops: seq<Op>)
    ensures HeardAll(ops) == ops <==> AllSmall(ops)
    decreases |ops|
  {
    if ops != [] {
      var one, rest := Heard(ops[0]), HeardAll(ops[1..]);
      HeardWhole(ops[1..]);
      HeardFewer(ops[1..]);
      AllSmallCons(ops);
      assert ops == [ops[0]] + ops[1..];
      if HeardAll(ops) == ops {
        assert |one| == 1 && (one + rest)[0] == one[0] && (one + rest)[1..] == rest;
        assert one == [ops[0]];
      }
    }
  }

  lemma {:induction false} FittingAll(ops: seq<Op>, n: nat)
    ensures Fitting(ops, n) == |ops| <==> |EncodeAll(ops)| <= n
    decreases |ops|
  {
    if ops != [] && |Encode(ops[0])| <= n { FittingAll(ops[1..], n - |Encode(ops[0])|); }
  }

  /** An operand of 200 loses its own operation only, one of 256 arrives as 0. */
  lemma LargeOperands()
    ensures Drain(EncodeAll([RetNum(200), RetNil])) == [RetNil]
    ensures Drain(EncodeAll([RetNum(256)])) == [RetNum(0)]
  {
    var a, b := [RetNum(200), RetNil], [RetNum(256)];
    assert a[1..] == [RetNil] && [RetNil][1..] == [] && b[1..] == [];
    assert EncodeAll([RetNil]) == Encode(RetNil) + [] && EncodeAll(b) == Encode(b[0]) + [];
    DrainOne(a[0], EncodeAll([RetNil]));
    DrainOne(RetNil, []);
    DrainOne(b[0], []);
  }

  /** piir_stack */
  class Stack {
    const store: array<int>
    var head: nat
    var tail: nat

    constructor ()
      ensures Valid() && fresh(store) && Contents() == [] && head == 0
    {
      store := new int[STACK_SIZE](i => 0);
      head, tail := 0, 0;
    }

    ghost predicate Valid()
      reads this
    {
      store.Length == STACK_SIZE && tail <= head < STACK_SIZE
    }

    ghost function Contents(): seq<int>
      requires Valid()
      reads this, store
    {
      store[tail..head]
    }

    /** piir_push: refused, unnoticed by the parser, when the store is full. */
    method Push(b: int) returns (r: int)
      requires Valid()
      modifies this, store
      ensures Valid() && tail == old(tail) && (r == 0 <==> old(head) < STACK_SIZE - 1)
      ensures if r == 0 then Contents() == old(Contents()) + [b] && head == old(head) + 1
              else Contents() == old(Contents()) && head == old(head)
    {
      if head >= STACK_SIZE - 1 {
        return -1;
      }
      store[head] := b;
      head := head + 1;
      r := 0;
    }

    /** piir_pop: the oldest byte, or -1 when there is none. */
    method Pop() returns (b: int)
      requires Valid()
      modifies this
      ensures Valid()
      ensures if old(Contents()) == [] then b == -1 && Contents() == []
              else b == old(Contents())[0] && Contents() == old(Contents())[1..]
    {
      if tail == head {
        tail, head := 0, 0;
        return -1;
      }
      b := store[tail];
      tail := tail + 1;
      if tail == head {
        tail, head := 0, 0;
      }
    }

    /** md_piir_decode: the operation a byte stands for, its operand being popped. */
    method DecodeOp(input: int) returns (got: seq<Op>)
      requires Valid() && input >= 0
      modifies this
      ensures Valid() && |Contents()| <= old(|Contents()|)
      ensures got + Drain(Contents()) == Drain([input] + old(Contents()))
    {
      ghost var all := [input] + Contents();
      assert all[1..] == Contents() && (Contents() != [] ==> all[2..] == Contents()[1..]);
      got := [];
      if input == 6 || input == 7 {
        var operand := Pop();
        if operand < 0 {
          return;
        }
        got := if input == 6 then [RetNum(operand)] else [RetSym(operand)];
      } else if input == 0 {
        got := [Nop];
      } else if input == 5 {
        got := [RetNil];
      }
    }

    /** piir_inject: decodes the queue from its oldest byte on. */
    method Inject() returns (given: seq<Op>)
      requires Valid()
      modifies this
      ensures Valid() && given == Drain(old(Contents()))
    {
      given := [];
      ghost var all := Contents();
      while true
        invariant Valid() && given + Drain(Contents()) == Drain(all)
        decreases |Contents()|
      {
        ghost var bs := Contents();
        var byte := Pop();
        if byte < 0 {
          break;
        }
        assert [byte] + Contents() == bs;
        var got := DecodeOp(byte);
        Assoc(given, got, Drain(Contents()));
        given := given + got;
      }
    }
  }
}

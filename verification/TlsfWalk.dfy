/**
 Walking a pool from its first block to the sentinel: what the walk visits, and
 where the bytes of the pool are.
 */
module TlsfWalk {
  import opened TlsfMapping
  import opened TlsfHeap

  /** The blocks from b up to, not including, the sentinel of its pool. */
  ghost function Tour(g: Heap, pools: seq<Pool>, b: int): (t: seq<int>)
    requires Chain(g, pools) && b in g
    ensures forall i :: 0 <= i < |t| ==> t[i] in g
    decreases pools[(assert BlockOk(g, pools, b); g[b].pool)].end - b
  {
    assert BlockOk(g, pools, b);
    if g[b].size == 0 then []
    else
      assert BlockOk(g, pools, Next(g, b));
      [b] + Tour(g, pools, Next(g, b))
  }

  /** Payload and header bytes of a list of blocks. */
  ghost function Bytes(g: Heap, t: seq<int>): nat
    requires forall i :: 0 <= i < |t| ==> t[i] in g
  {
    if t == [] then 0 else g[t[0]].size + OVERHEAD + Bytes(g, t[1..])
  }

  lemma {:induction false} TourBytes(g: Heap, pools: seq<Pool>, b: int)
    requires Chain(g, pools) && b in g && g[b].pool < |pools|
    ensures Bytes(g, Tour(g, pools, b)) == pools[g[b].pool].end - b
    decreases pools[g[b].pool].end - b
  {
    assert BlockOk(g, pools, b);
    if g[b].size != 0 {
      assert BlockOk(g, pools, Next(g, b));
      TourBytes(g, pools, Next(g, b));
      assert Tour(g, pools, b)[1..] == Tour(g, pools, Next(g, b));
    }
  }

  /** The walk visits every block of the pool at or after b but the sentinel. */
  lemma {:induction false} TourVisits(g: Heap, pools: seq<Pool>, b: int, c: int)
    requires Chain(g, pools) && b in g && g[b].pool < |pools|
    ensures c in Tour(g, pools, b) <==> c in g && g[c].pool == g[b].pool && b <= c && g[c].size != 0
    decreases pools[g[b].pool].end - b
  {
    assert BlockOk(g, pools, b);
    if g[b].size == 0 {
      if c in g && g[c].pool == g[b].pool { assert BlockOk(g, pools, c); }
    } else {
      var n := Next(g, b);
      assert BlockOk(g, pools, n);
      TourVisits(g, pools, n, c);
      if c in g { assert Apart(g, b, c); }
    }
  }

  /** Conservation: headers and payloads of the blocks of a pool always add up to
      the bytes the pool was created with. */
  lemma PoolConserved(g: Heap, pools: seq<Pool>, i: nat)
    requires Chain(g, pools) && i < |pools|
    ensures pools[i].start in g
    ensures forall c :: c in Tour(g, pools, pools[i].start) <==> c in g && g[c].pool == i && g[c].size != 0
    ensures Bytes(g, Tour(g, pools, pools[i].start)) == pools[i].end - pools[i].start
  {
    assert PoolOk(g, pools, i);
    TourBytes(g, pools, pools[i].start);
    forall c ensures c in Tour(g, pools, pools[i].start) <==> c in g && g[c].pool == i && g[c].size != 0 {
      TourVisits(g, pools, pools[i].start, c);
      if c in g && g[c].pool == i { assert BlockOk(g, pools, c); }
    }
  }

  /** A pool without live blocks is one free block again, of its original size. */
  lemma PoolRestored(g: Heap, pools: seq<Pool>, i: nat)
    requires Chain(g, pools) && Coalesced(g) && i < |pools|
    requires forall c :: IsLive(g, c) ==> g[c].pool != i
    ensures var s := pools[i].start;
            && IsFree(g, s) && g[s].size == pools[i].end - s - OVERHEAD
            && forall c :: c in g && g[c].pool == i ==> c == s || c == pools[i].end
  {
    var s := pools[i].start;
    assert PoolOk(g, pools, i);
    assert BlockOk(g, pools, s);
    var n := Next(g, s);
    assert BlockOk(g, pools, n);
    assert PrevIsFree(g, n);
    forall c | c in g && g[c].pool == i ensures c == s || c == pools[i].end {
      assert BlockOk(g, pools, c);
      assert Apart(g, s, c);
    }
  }
}

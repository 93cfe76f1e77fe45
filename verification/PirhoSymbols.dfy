/**
 The symbol list of np_symbol.c with its lookup cache.
 */
module PirhoSymbols {

  const SYMCACHE_LEN := 32

  datatype Symbol = Symbol(id: nat, addr: string)

  class SymList {
    var symq: seq<Symbol>
    var nsym: nat
    const cache: array<Symbol>
    var cacheI: nat

    /** symlist_init; the cache holds whatever memory held. */
    constructor ()
      ensures Valid() && fresh(cache) && symq == []
    {
      symq, nsym, cacheI := [], 0, 0;
      cache := new Symbol[SYMCACHE_LEN](i => Symbol(0, ""));
    }

    /** Ids number the symbols; whatever the cache offers is in the list. */
    ghost predicate Valid()
      reads this, cache
    {
      && nsym == |symq| && cache.Length == SYMCACHE_LEN && cacheI <= SYMCACHE_LEN
      && (forall i :: 0 <= i < |symq| ==> symq[i].id == i)
      && forall i :: 0 <= i < cacheI ==> cache[i] in symq
    }

    /** symbol_alloc */
    method Alloc(addr: string) returns (sym: Symbol)
      requires Valid()
      modifies this
      ensures Valid() && sym == Symbol(old(nsym), addr) && symq == old(symq) + [sym]
    {
      sym := Symbol(nsym, addr);
      symq := symq + [sym];
      nsym := nsym + 1;
    }

    /** symbol_cache: the next place, wrapping around. */
    method Cache(s: Symbol)
      requires Valid() && s in symq
      modifies this`cacheI, cache
      ensures Valid()
    {
      if cacheI >= SYMCACHE_LEN {
        cacheI := 0;
      }
      cache[cacheI] := s;
      cacheI := cacheI + 1;
    }

    /** symbol_lookup_id: cached or not, the symbol with the id, if there is one. */
    method LookupId(id: nat) returns (r: int, sym: Symbol)
      requires Valid()
      modifies this`cacheI, cache
      ensures Valid() && (r == 0 || r == -1) && (r == 0 <==> id < |symq|) && (r == 0 ==> sym == symq[id])
    {
      assert id < |symq| ==> symq[id].id == id;
      var i := 0;
      while i < cacheI
        invariant 0 <= i <= cacheI && forall j :: 0 <= j < i ==> cache[j].id != id
      {
        if cache[i].id == id {
          return 0, cache[i];
        }
        i := i + 1;
      }
      i := 0;
      while i < |symq|
        invariant 0 <= i <= |symq| && forall j :: 0 <= j < i ==> symq[j].id != id
      {
        if symq[i].id == id {
          sym := symq[i];
          Cache(sym);
          return 0, sym;
        }
        i := i + 1;
      }
      r, sym := -1, Symbol(0, "");
    }
  }
}

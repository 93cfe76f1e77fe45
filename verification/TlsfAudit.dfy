/**
 The allocator's own consistency checks: `tlsf_check` and `tlsf_check_pool` find
 nothing wrong in a valid allocator.
 */
module TlsfAudit {
  import opened Bits
  import opened TlsfMapping
  import opened TlsfHeap
  import opened TlsfMemory
  import opened TlsfLists
  import opened TlsfBlocks
  import opened TlsfSteps
  import opened TlsfWalk
  import opened Tlsf

  /** What `tlsf_check` insists on for one listed block of class c, as the number
      of failed conditions. */
  method CheckBlock(a: Allocator, block: int, c: Class) returns (failed: int)
    requires a.Valid() && block in a.st && a.st[block].cls == c
    ensures failed == 0
  {
    assert FiledAt(a.g, a.st, a.clock, block);
    FreeAlone(a.g, a.pools, block);
    assert BlockOk(a.g, a.pools, block);
    assert HeaderOk(a.mem, a.g, PrevFreeSet(a.g), block);
    var next := NextOf(a.mem, block);
    NextPrev(a.g, a.pools, block, next);
    assert HeaderOk(a.mem, a.g, PrevFreeSet(a.g), next);
    var size := SizeOf(a.mem, block);
    failed := 0;
    if !a.mem(block + 8).bit0 { failed := failed + 1; }
    if a.mem(block + 8).bit1 { failed := failed + 1; }
    if a.mem(next + 8).bit0 { failed := failed + 1; }
    if !a.mem(next + 8).bit1 { failed := failed + 1; }
    if size < BLOCK_MIN { failed := failed + 1; }
    if size >= 0 && MappingInsert(size) != c { failed := failed + 1; }
  }

  /** The inner walk of `tlsf_check` along one list; the stamps fall, so it ends. */
  method CheckList(a: Allocator, c: Class) returns (failed: int)
    requires a.Valid() && c.InRange()
    ensures failed == 0
  {
    failed := 0;
    var block := a.ctl.Head(c);
    assert HeadOk(a.mem, a.ctl, a.st, c);
    while block != a.ctl.nul
      invariant block != a.ctl.nul ==> block in a.st && a.st[block].cls == c
      invariant failed == 0
      decreases if block in a.st then a.st[block].stamp + 1 else 0
    {
      var f := CheckBlock(a, block, c);
      failed := failed + f;
      assert NodeOk(a.mem, a.ctl, a.st, block);
      block := NextFree(a.mem, block);
    }
  }

  /** `tlsf_check` returns 0 in every valid state. */
  method Check(a: Allocator) returns (status: int)
    requires a.Valid()
    ensures status == 0
  {
    status := 0;
    for i := 0 to FL_COUNT
      invariant status == 0
    {
      for j := 0 to SL_COUNT
        invariant status == 0
      {
        var flMap, slList := Bit(a.ctl.flBitmap, i), a.ctl.slBitmap[i];
        var slMap, block := Bit(slList, j), a.ctl.heads[i][j];
        ZeroHasNoBit(slList);
        if !flMap && slMap { status := status - 1; }
        if !slMap {
          if block != a.ctl.nul { status := status - 1; }
        } else {
          if slList == 0 { status := status - 1; }
          if block == a.ctl.nul { status := status - 1; }
          var failed := CheckList(a, Class(i, j));
          status := status - failed;
        }
      }
    }
  }

  /** `tlsf_walk_pool` with `integrity_walker`, that is `tlsf_check_pool`, on pool i:
      the previous-free flag of every block matches the block visited before it;
      the walk goes once over exactly the blocks of the pool. */
  method CheckPool(a: Allocator, pool: int, ghost i: nat) returns (status: int, visited: seq<int>)
    requires a.Valid() && i < |a.pools| && pool == a.pools[i].start + OVERHEAD
    ensures status == 0
    ensures a.pools[i].start in a.g && visited == Tour(a.g, a.pools, a.pools[i].start)
  {
    assert PoolOk(a.g, a.pools, i);
    status, visited := 0, [];
    var prevStatus := false;
    var block := pool - OVERHEAD;
    assert BlockOk(a.g, a.pools, block) && HeaderOk(a.mem, a.g, PrevFreeSet(a.g), block);
    while SizeOf(a.mem, block) != 0
      invariant status == 0 && block in a.g && a.g[block].pool == i
      invariant BlockOk(a.g, a.pools, block) && HeaderOk(a.mem, a.g, PrevFreeSet(a.g), block)
      invariant prevStatus == PrevIsFree(a.g, block)
      invariant visited + Tour(a.g, a.pools, block) == Tour(a.g, a.pools, a.pools[i].start)
      decreases a.pools[i].end - block
    {
      if prevStatus != a.mem(block + 8).bit1 { status := status - 1; }
      prevStatus := a.mem(block + 8).bit0;
      visited := visited + [block];
      var next := NextOf(a.mem, block);
      NextPrev(a.g, a.pools, block, next);
      assert BlockOk(a.g, a.pools, next) && HeaderOk(a.mem, a.g, PrevFreeSet(a.g), next);
      assert Tour(a.g, a.pools, block) == [block] + Tour(a.g, a.pools, next);
      block := next;
    }
  }
}

# L5 kernel: proofs about its data structures, allocators, codecs and compiler

This project models the algorithmic core of the L5 operating system and proves
what it promises for every input, every run and every reachable state. Code that
updates memory in place is modelled by classes and methods whose loops and field
updates follow the C code; each is tied to an abstract meaning, and the theorems
are about that meaning.

| part | modules | what is proved |
|---|---|---|
| TLSF heap | `Bits`, `Tlsf*` | a heap invariant kept by every operation; whole runs refine independent byte arrays; good fit; bytes conserved and pools restored; the built-in checkers pass after every run |
| red-black tree | `Rb*`, `RedBlack` | insertion and removal keep a red-black search tree of exactly the right keys; searches and stepping find what they should; height at most 2 lg (n+1) |
| splay tree | `SplayTrees`, `SplayCost`, `SplayMeasure`, `Splay`, `SplayRun` | top-down splaying keeps the in-order sequence and brings the key or a neighbour to the root; runs answer as an ordered set and take O(m lg n) rounds |
| BLAKE2b | `BlakeWords`, `Rfc7693`, `BlakeCompress`, `BlakeStream`, `Blake2b` | every way of cutting a message gives the digest of RFC 7693 |
| OMAR archives | `Omar` | what the host tool writes, the kernel reader finds |
| page frames | `Frames`, `FramesRun` | next-fit bitmap allocation is exact, disjoint and zeroed; whole runs conserve frames and counts, and a free frame 0 costs frames at most once |
| run queue | `Tailq`, `SchedQueue`, `RunQueue` | pointer list refines a sequence; mutual exclusion, conservation and fairness over all interleavings |
| Pirho compiler | `PirhoText`, `PirhoLexer`, `PirhoGrammar`, `Piir`, `PirhoSymbols`, `Pirho` | lexing and parsing of every source text; printed programs come back; which operations and strings reach the engine, for every program |
| pi/2 reduction | `Pio2` | the integer kernel is exact: a multiple of pi/2, counted modulo 8, and the distance to the nearest one |
| formatting | `Decimals`, `Itoa`, `Printf` | bounded output is a cut of unbounded output; number round trips |

## How the model is laid out

- **Memory.** The TLSF heap, both trees and the tail queue work on one store
  from addresses to fields, as the C code works on shared memory: reading and
  writing a field through a stale or aliased pointer does in the model what it
  does in the program. Address 0 is NULL. In the TLSF heap a word is kept as a
  multiple of four and two flag bits, so the size word carries its flags and
  `prev_phys_block` lies in the previous block's payload as in the source.
- **Abstract state.** Ghost fields (the block map `g`, the listed blocks `st`, the
  node set `n` with key intervals `sp` and black heights `bh`, the tree value
  `t`) describe what the store means. `Valid()` ties them to the real fields and
  every operation re-establishes it.
- **Sides.** The mirrored left/right halves of the tree macros are one model
  with a side parameter.
- **Words.** 64-bit wrap-around is explicit wherever the code can reach it.
  Bit operations are defined digit by digit and given their arithmetic meaning
  by lemmas.
- **Concurrency.** `RunQueue` gives each core a program counter; a step is one
  shared-memory access, and the list macros are interleaved write by write.
- **Spec parameters.** `Blake2b.State` is generic in the compression function
  it stands for, and the cost of splaying is argued over any measure that obeys
  a few laws (`SplayCost.Gauge`) before it is measured in sizes and logarithms
  (`SplayMeasure.Scale`); both keep large definitions out of proofs that do not
  need them.
- **Cost.** `rounds` in `Splay.Head` is a ghost counter of the iterations of the
  splaying loops; it does not influence what the code does.

## What was found

Where the code does not do what its documentation says, the code is modelled and
the exact boundary is proved:

- `tlsf_malloc` of a size within 7 bytes of 2^64 wraps and hands out a small
  block: `TlsfMapping.RequestCovers` says exactly when a request is covered.
- `tlsf_realloc` of a live block to a size the request limit refuses returns the
  old pointer. A block of 24 bytes is left alone; a larger one loses its size and
  its payload goes to a free list while the caller still holds it. The
  documentation says the buffer stays untouched and NULL comes back.
  `Tlsf.Allocator.Realloc` states the documented contract and that it is kept if
  and only if the request limit accepts the size and the rounding does not wrap.
- `tlsf_memalign` with alignment 2^63 asks for the smallest block
  (`TlsfAlign.PaddedRequestWraps`) and takes the free block that search offers.
  `Tlsf.Allocator.MemalignTop` says from that block's place and size where the
  payload is, and that it is aligned and large enough if and only if
  `TopServes`: the block starts at 2^63 or can be cut there, and enough is left.
  `Tlsf.TopMissed` is a run that misses. Alignment 0 passes the test for powers
  of two and is plain malloc: `Tlsf.Allocator.MemalignZero`.
- A free frame 0 has the address that means failure: `__vm_alloc_frame` takes the
  frames, and they are lost. `Frames.Allocator.AllocFrame` says exactly when a
  request succeeds and what is lost, `FramesRun.LostOnce` that it happens at most
  once in a run, and `Frames.FrameZero` gives both failures.
- `tlsf_add_pool` accepts 2^32 pool bytes, which no list can hold:
  `TlsfPool.TopClass`.
- An empty file in an OMAR archive is not padded, so the reader loses the next
  record: `Omar.StrideAgrees` (if and only if non-empty) and
  `Omar.EmptyFileHides`.
- The frame bitmap may be one page short: `Frames.BitmapReaches` (if and only if).
- A PIIR operand is cut to a signed byte. If that is negative, the decoder drops
  this one operation; else the operand arrives modulo 256: `Piir.DrainCut` for
  every program and every queue length, `Piir.LargeOperands` for 200 and 256. A
  program arrives as it is if and only if it fits (`Pirho.Delivered`), and its
  strings come back if and only if there are at most 128 and their bytes fit
  (`Pirho.AllNamed`).
- An identifier that is followed by another character may have 31 characters,
  not 32: `PirhoText.WordTooLong`.
- Padding zeros of `%0Nd` go before the minus sign and such text does not read
  back: `Printf.PaddedReads` (if and only if). A pad width given to another
  conversion waits for the next `%d`: `Printf.PadCarriesOver`. The result is 0
  when a conversion fills the buffer: `Printf.Vsnprintf`.
- `itoa` prints the lowest 64-bit number as a bare minus sign: `Itoa.Base10`. Its
  `value *= -1` is signed overflow in C there, which the model takes as a wrap.

## Model

| member | source | states |
|---|---|---|
| `TlsfMapping.MappingInsertBounds` | src/sys/vm/vm_tlsf.c:513-530 | every size lies between the bounds of the class it is filed under, and that class is in the table exactly when the size is below 2^32 |
| `TlsfMapping.ClassBounds` | src/sys/vm/vm_tlsf.c:513-530 | class (f, s) with f > 0 holds the sizes from (32+s) 2^(f+2) up to (33+s) 2^(f+2) |
| `TlsfMapping.ClassOrder` | src/sys/vm/vm_tlsf.c:513-530 | the size ranges of the classes are disjoint and in index order |
| `TlsfMapping.MappingInsertUnique` | src/sys/vm/vm_tlsf.c:513-530 | the class of a size is the only one whose range holds it |
| `TlsfMapping.MappingInsertMonotone` | src/sys/vm/vm_tlsf.c:513-530 | a larger size never maps to a lower class |
| `TlsfMapping.MappingSearchBounds` | src/sys/vm/vm_tlsf.c:532-541 | the class searched starts at or above the request, by less than one class width |
| `TlsfMapping.GoodFit` | src/sys/vm/vm_tlsf.c:532-573 | any block filed in the searched class or a later one is large enough |
| `TlsfMapping.MissBound` | src/sys/vm/vm_tlsf.c:532-573 | a block filed before the searched class is smaller than the request plus 2^(floor(log2 n)-5), and smaller than the request itself below 256 bytes |
| `TlsfMapping.AlignUpSpec` | src/sys/vm/vm_tlsf.c:468-472 | the mask arithmetic yields the least multiple of the alignment at or above the argument |
| `TlsfMapping.RequestCovers` | src/sys/vm/vm_tlsf.c:492-506 | when a request is refused, and when the adjusted size covers it: exactly if the size is at most 2^64-8 |
| `TlsfLists.RemoveLists` | src/sys/vm/vm_tlsf.c:576-602 | unlinking a block leaves well-formed doubly linked lists of all the other free blocks and bitmaps that mark exactly the non-empty lists |
| `TlsfLists.InsertLists` | src/sys/vm/vm_tlsf.c:605-623 | pushing a block gives well-formed lists holding one block more and exact bitmaps |
| `TlsfLists.SearchRow` | src/sys/vm/vm_tlsf.c:552-569 | the lowest set bit of the masked second-level map is the first non-empty list at or after an index; no set bit means none is |
| `TlsfLists.SearchRows` | src/sys/vm/vm_tlsf.c:556-563 | the same for the first-level map and its rows |
| `TlsfLists.FirstNonEmpty` | src/sys/vm/vm_tlsf.c:543-573 | the two-level bitmap search finds the first non-empty list at or after a class, or none exactly if all of them are empty |
| `TlsfBlocks.MarkFreeOk` | src/sys/vm/vm_tlsf.c:446-459 | after the writes of block_mark_as_free every header, flag and prev_phys link in memory again matches the block map |
| `TlsfBlocks.AbsorbOk` | src/sys/vm/vm_tlsf.c:669-676 | after the writes of block_absorb memory describes the map with the two neighbours joined |
| `TlsfBlocks.SplitOk` | src/sys/vm/vm_tlsf.c:647-666 | after a split, whatever stale flag bits the new header kept, memory describes the map with the block cut in two |
| `Tlsf.Allocator.constructor` | src/sys/vm/vm_tlsf.c:797-813 | an empty heap is valid |
| `Tlsf.Allocator.RemoveFreeBlock` | src/sys/vm/vm_tlsf.c:576-602 | the statement-by-statement body performs the unlinking that RemoveLists is about |
| `Tlsf.Allocator.InsertFreeBlock` | src/sys/vm/vm_tlsf.c:605-623 | the statement-by-statement body performs the insertion that InsertLists is about |
| `Tlsf.Allocator.BlockRemove` | src/sys/vm/vm_tlsf.c:626-631 | takes exactly one block off the lists and touches no live byte |
| `Tlsf.Allocator.BlockInsert` | src/sys/vm/vm_tlsf.c:634-639 | adds exactly one block to the lists and touches no live byte |
| `Tlsf.Allocator.BlockMarkAsFree` | src/sys/vm/vm_tlsf.c:453-459 | the block leaves the live set, nothing else changes and other live bytes stay |
| `Tlsf.Allocator.BlockMarkAsUsed` | src/sys/vm/vm_tlsf.c:461-466 | the heap becomes valid with the block live; bytes already live stay |
| `Tlsf.Allocator.BlockAbsorb` | src/sys/vm/vm_tlsf.c:669-676 | two neighbours become one block and live bytes stay |
| `Tlsf.Allocator.BlockMergePrev` | src/sys/vm/vm_tlsf.c:679-691 | the result is a free block whose predecessor is not free; live bytes stay |
| `Tlsf.Allocator.BlockMergeNext` | src/sys/vm/vm_tlsf.c:694-707 | no two free blocks remain neighbours; joins exactly if the next block was free |
| `Tlsf.Allocator.SearchSuitableBlock` | src/sys/vm/vm_tlsf.c:543-573 | returns the head of the first non-empty list at or after the class, or NULL exactly when all of them are empty |
| `Tlsf.Allocator.BlockLocateFree` | src/sys/vm/vm_tlsf.c:753-781 | returns a free block at least as large as asked, taken off its list; NULL only if every free block is below the miss bound, and then nothing changed |
| `Tlsf.Allocator.SplitFreeBlock` | src/sys/vm/vm_tlsf.c:647-666 | the split performed by the two trims of a free block |
| `Tlsf.Allocator.BlockTrimFree` | src/sys/vm/vm_tlsf.c:710-720 | the block keeps at least the size asked and less than 32 bytes more; the rest is free and listed |
| `Tlsf.Allocator.BlockTrimUsed` | src/sys/vm/vm_tlsf.c:723-735 | the same for a live block, whose kept bytes stay |
| `Tlsf.Allocator.BlockTrimFreeLeading` | src/sys/vm/vm_tlsf.c:737-751 | if the block can be split, the returned block starts the given distance later and the leading piece is a legal listed free block; otherwise the block itself comes back and nothing changed |
| `Tlsf.Allocator.BlockPrepareUsed` | src/sys/vm/vm_tlsf.c:783-794 | a NULL block changes nothing; any other becomes the one new live block |
| `Tlsf.Allocator.Malloc` | src/sys/vm/vm_tlsf.c:1115-1121 | keeps the heap valid; returns a new aligned block of at least the adjusted size, keeping all live bytes, or NULL with nothing changed and every free block below the miss bound |
| `Tlsf.Allocator.Memalign` | src/sys/vm/vm_tlsf.c:1123-1178 | for every alignment the assertion lets through: 0 is plain malloc; up to 2^62 the same as malloc at an address divisible by the alignment, failure bounding every free block by the padded size searched; at 2^63 the outcome of MemalignTop |
| `Tlsf.Allocator.MemalignZero` | src/sys/vm/vm_tlsf.c:1123-1178 | alignment 0: the gap is never one a block can be split at, so the outcome is that of malloc |
| `Tlsf.Allocator.MemalignTop` | src/sys/vm/vm_tlsf.c:1123-1178 | at 2^63 it succeeds exactly if some block is free; the block x is the head of the first non-empty list, the payload is at 2^63 if x can be cut there and at x otherwise, its size follows, and it is aligned and large enough if and only if TopServes(x); the heap stays valid and all live bytes stay |
| `Tlsf.TopMissed` | src/sys/vm/vm_tlsf.c:1123-1178 | a run from an empty heap, one pool and one request, whose result is not divisible by 2^63 |
| `TlsfLists.OffersOne` | src/sys/vm/vm_tlsf.c:543-573 | the block a search offers is determined by the lists |
| `Tlsf.Allocator.Free` | src/sys/vm/vm_tlsf.c:1180-1193 | keeps the heap valid and coalesced, removes exactly that block from the live set and keeps all other live bytes; NULL is ignored |
| `Tlsf.Allocator.ReallocInPlace` | src/sys/vm/vm_tlsf.c:1248-1260 | growing into the next block and shrinking keep the contents and every other live byte |
| `Tlsf.Allocator.ReallocMove` | src/sys/vm/vm_tlsf.c:1238-1247 | moving keeps the first min(old, new) bytes; failure changes nothing |
| `Tlsf.Allocator.Realloc` | src/sys/vm/vm_tlsf.c:1208-1264 | all cases for every size; the documented contract is kept if and only if the request limit accepts the size and its rounding does not wrap; a refused size returns the old pointer, leaves blocks below 32 bytes alone and gives the payload of larger ones away |
| `Tlsf.Allocator.Resize` | src/sys/vm/vm_tlsf.c:1223-1261 | an accepted size leaves a valid heap and a block of the adjusted size with the old contents, here or elsewhere, or NULL with nothing changed |
| `Tlsf.Allocator.TrimToNothing` | src/sys/vm/vm_tlsf.c:723-735 | trimming a live block to 0 bytes leaves a 24-byte block alone, and puts the payload of a larger one at the head of a free list while the block keeps size 0 |
| `TlsfRefused.AbsorbLists` | src/sys/vm/vm_tlsf.c:694-707 | taking the next block off its list and absorbing it keeps every list head, and leaves one free block of both sizes behind the emptied one |
| `Tlsf.Allocator.AddPool` | src/sys/vm/vm_tlsf.c:980-1027 | a region becomes a pool exactly if it is aligned and of a size the heap can hold; live bytes stay; otherwise nothing changes |
| `TlsfPool.PoolSize` | src/sys/vm/vm_tlsf.c:985-986 | the usable size of a region, and that a region below the overhead wraps to more than any pool |
| `TlsfPool.TopClass` | src/sys/vm/vm_tlsf.c:995 | the largest size accepted has no list |
| `TlsfAlign.AlignedSize` | src/sys/vm/vm_tlsf.c:1136-1143 | the padded size is large enough for request, alignment and gap, and less than one alignment above that |
| `TlsfAlign.PaddedRequestWraps` | src/sys/vm/vm_tlsf.c:1137 | alignment 2^63 makes the padded request the smallest block |
| `TlsfAlign.TopGap` | src/sys/vm/vm_tlsf.c:1152-1168 | at alignment 2^63 the gap reaches to 2^63 exactly if the pointer is there or at least 32 below, else to the end of the address space; it is 0 or at least 32 |
| `Bits.PowerTest` | src/sys/vm/vm_tlsf.c:470 | x & (x - 1) is zero exactly for the powers of two |
| `TlsfAlign.AlignPtr` | src/sys/vm/vm_tlsf.c:480-486 | the next address divisible by the alignment |
| `TlsfAlign.PickBoundary` | src/sys/vm/vm_tlsf.c:1152-1174 | the gap is 0 or between 32 and alignment + 24, and the chosen address is aligned |
| `TlsfAlign.NextBoundary` | src/sys/vm/vm_tlsf.c:1158-1168 | a gap that is too small is moved to the next boundary, still aligned and within the block |
| `TlsfAlign.SecondBoundary` | src/sys/vm/vm_tlsf.c:1160-1165 | the second rounding lands exactly one alignment further for alignments of at least 32 |
| `TlsfBytes.Memcpy` | src/sys/vm/vm_tlsf.c:1243-1244 | copies the bytes of disjoint ranges and writes no word outside the target |
| `TlsfWalk.TourVisits` | src/sys/vm/vm_tlsf.c:904-919 | the walk from a block visits exactly the non-sentinel blocks at or after it in its pool |
| `TlsfWalk.TourBytes` | src/sys/vm/vm_tlsf.c:904-919 | sizes plus headers along the walk add up to the distance to the sentinel |
| `TlsfWalk.PoolConserved` | src/sys/vm/vm_tlsf.c:904-1027 | in every valid heap the blocks of a pool, headers included, account for all its bytes |
| `TlsfWalk.PoolRestored` | src/sys/vm/vm_tlsf.c:1180-1193 | a pool with no live block is again one free block of the original size |
| `TlsfAudit.CheckBlock` | src/sys/vm/vm_tlsf.c:877-889 | no assertion fails for a listed block of a valid heap |
| `TlsfAudit.CheckList` | src/sys/vm/vm_tlsf.c:856-889 | none fails along any list |
| `TlsfAudit.Check` | src/sys/vm/vm_tlsf.c:844-894 | tlsf_check returns 0 in every valid heap |
| `TlsfAudit.CheckPool` | src/sys/vm/vm_tlsf.c:932-939 | tlsf_check_pool returns 0 in every valid heap and visits the whole pool |
| `TlsfRun.Perform` | src/sys/vm/vm_tlsf.c:980-1264 | each request, whatever its size and alignment, takes a step of the reference model of independent byte arrays, and the heap still implements it |
| `TlsfRun.Run` | src/sys/vm/vm_tlsf.c:980-1264 | every run of any length from an empty heap, over all interleavings of add_pool, malloc, memalign, free, realloc and client stores, follows the reference model request by request with a valid heap; once all arrays are freed every pool is one free block of its original size |
| `TlsfRun.RunChecked` | src/sys/vm/vm_tlsf.c:844-939 | after every such run tlsf_check and tlsf_check_pool of every pool return 0 |
| `TlsfRun.ArrayPlaced` | src/sys/vm/vm_tlsf.c:1115-1178 | in every implemented state each allocation is 8-aligned and inside one pool |
| `TlsfRun.ArraysApart` | src/sys/vm/vm_tlsf.c:1115-1178 | in every implemented state two allocations share no byte |
| `RbShape.RotateShape` | src/sys/include/sys/tree.h:338-376 | a rotation keeps search order, parent links and the node set |
| `RbReach.Reach` | src/sys/include/sys/tree.h:294-328 | in a tree of this shape every node whose key falls in a subtree's interval is in that subtree |
| `RbReach.AllReached` | src/sys/include/sys/tree.h:294-328 | the root reaches exactly the node set |
| `RbReach.KeysDistinct` | src/sys/include/sys/tree.h:592-607 | no two nodes have equal keys |
| `RbHeight.DepthBlack` | src/sys/include/sys/tree.h:49-57 | a subtree is at most twice as deep as its black height, plus one for a red root |
| `RbHeight.BlackNodes` | src/sys/include/sys/tree.h:49-57 | a subtree of black height h has at least 2^h - 1 nodes |
| `RbHeight.Logarithmic` | src/sys/include/sys/tree.h:57 | the height of a tree of n nodes is at most 2 lg (n+1) |
| `RbInsert.LinkPending` | src/sys/include/sys/tree.h:608-616 | linking a red leaf at the place found leaves only a possible red parent to repair |
| `RbInsert.RecolorPending` | src/sys/include/sys/tree.h:412-417 | recolouring under a red uncle keeps black heights and moves the one defect to the grandparent |
| `RbInsert.InnerPending` | src/sys/include/sys/tree.h:418-423 | the first rotation turns an inner defect into an outer one |
| `RbInsert.OuterPending` | src/sys/include/sys/tree.h:424-425 | the second rotation removes the defect |
| `RbInsert.InsertSettled` | src/sys/include/sys/tree.h:444 | blackening the root of a tree without a defect gives a red-black tree |
| `RbSplice.SpliceShape` | src/sys/include/sys/tree.h:572-583 | taking out a node with one child keeps search order and links |
| `RbSplice.ReplaceShape` | src/sys/include/sys/tree.h:552-563 | putting the successor in the removed node's place keeps search order and links |
| `RbRemove.SpliceBalance` | src/sys/include/sys/tree.h:572-586 | removing a red node keeps balance and removing a black one leaves exactly one short side |
| `RbRemove.ReplaceOwes` | src/sys/include/sys/tree.h:550-563 | the replacement keeps the balance, or the one short side, of the tree |
| `RbRemove.RedSibling` | src/sys/include/sys/tree.h:455-459 | a red sibling becomes a black one under a red parent, the short side staying where it is |
| `RbRemove.BlackNephews` | src/sys/include/sys/tree.h:460-466 | with black nephews the shortage moves to the parent |
| `RbRemove.NearNephew` | src/sys/include/sys/tree.h:468-476 | a red near nephew is turned into a red far nephew |
| `RbRemove.FarNephew` | src/sys/include/sys/tree.h:477-481 | with a red far nephew one rotation balances the tree |
| `RbRemove.Settled` | src/sys/include/sys/tree.h:519-520 | blackening a red or root node pays the shortage |
| `RedBlack.Head.constructor` | src/sys/include/sys/tree.h:302-304 | an initialised head is an empty tree |
| `RedBlack.Head.ColorFlip` | src/sys/include/sys/tree.h:411-417 | one round with a red uncle moves the defect up and comes closer to termination |
| `RedBlack.Head.Straighten` | src/sys/include/sys/tree.h:418-425 | a round with a black uncle is the last |
| `RedBlack.Head.InsertColor` | src/sys/include/sys/tree.h:403-445 | the loop terminates in a red-black tree of the same nodes and keys |
| `RedBlack.Head.Descend` | src/sys/include/sys/tree.h:597-607 | finds a node with the key, or the one place where the new node belongs |
| `RedBlack.Head.Insert` | src/sys/include/sys/tree.h:590-619 | keeps a red-black tree; returns NULL and adds exactly the node and its key, or returns the node already holding the key, be it the same one, and changes nothing |
| `RedBlack.Head.RaiseSibling` | src/sys/include/sys/tree.h:453-459 | after the first case the sibling is black and the parent red |
| `RedBlack.Head.PassUp` | src/sys/include/sys/tree.h:460-466 | the shortage moves up, and the loop ends at once after a rotation |
| `RedBlack.Head.TurnNephew` | src/sys/include/sys/tree.h:468-476 | makes the far nephew red without changing the shortage |
| `RedBlack.Head.LastTurn` | src/sys/include/sys/tree.h:477-483 | ends in a red-black tree |
| `RedBlack.Head.Round` | src/sys/include/sys/tree.h:451-517 | every round keeps the nodes and comes closer to termination |
| `RedBlack.Head.RemoveColor` | src/sys/include/sys/tree.h:447-521 | from one short side the loop terminates in a red-black tree of the same nodes and keys |
| `RedBlack.Head.TakeOut` | src/sys/include/sys/tree.h:572-583 | removes exactly a node with at most one child and says what is still owed |
| `RedBlack.Head.Leftmost` | src/sys/include/sys/tree.h:534-536 | finds the in-order successor below a node with two children |
| `RedBlack.Head.TakePlace` | src/sys/include/sys/tree.h:550-563 | one node stands in for another without changing what is owed |
| `RedBlack.Head.RemoveInner` | src/sys/include/sys/tree.h:532-571 | removing a node with two children gives a red-black tree of the others |
| `RedBlack.Head.Remove` | src/sys/include/sys/tree.h:523-588 | keeps a red-black tree and removes exactly the node and its key |
| `RedBlack.Head.Find` | src/sys/include/sys/tree.h:621-637 | returns the node with the key if there is one, else NULL |
| `RedBlack.Head.NFind` | src/sys/include/sys/tree.h:639-658 | returns the node with the least key at or above the given one, else NULL |
| `RedBlack.Head.MinMax` | src/sys/include/sys/tree.h:702-715 | returns the extreme node of the tree, NULL exactly when it is empty |
| `RedBlack.Head.Step` | src/sys/include/sys/tree.h:660-700 | NEXT and PREV return the neighbour in key order, NULL exactly at the end |
| `RedBlack.Head.Foreach` | src/sys/include/sys/tree.h:729-732 | the walk visits every node once in ascending order |
| `SplayTrees.TurnMidway` | src/sys/include/sys/tree.h:84-94 | a rotation of the middle tree keeps the split into left, middle and right |
| `SplayTrees.LinkMidway` | src/sys/include/sys/tree.h:96-106 | a link moves the root and one subtree to a side tree and keeps the split |
| `SplayTrees.AssembleRep` | src/sys/include/sys/tree.h:108-113 | assembling yields a search tree of left, middle and right in order |
| `SplayTrees.StuckNeighbour` | src/sys/include/sys/tree.h:216-233 | when the loop stops without the key, every key on that side lies beyond it |
| `SplayCost.LinkPays` | src/sys/include/sys/tree.h:96-106 | a link without a rotation pays for its round, or leaves at most one round owed |
| `SplayCost.DoublePays` | src/sys/include/sys/tree.h:216-233 | a rotation and a link together pay for their round and for one owed |
| `SplayCost.AssembledPot` | src/sys/include/sys/tree.h:108-113 | assembling costs at most one logarithm of potential |
| `SplayMeasure.MeasureLawful` | src/sys/include/sys/tree.h:45-47 | subtree sizes, counts, the sum of their logarithms and floor(lg n) obey the laws the cost analysis needs |
| `Splay.Head.Rotate` | src/sys/include/sys/tree.h:84-94 | keeps the in-order sequence and the split |
| `Splay.Head.Link` | src/sys/include/sys/tree.h:96-106 | keeps the whole in-order sequence and shrinks the middle |
| `Splay.Head.Round` | src/sys/include/sys/tree.h:215-235 | one iteration keeps the sequence and either stops or shrinks the middle, and the potential it frees pays for it |
| `Splay.Head.Search` | src/sys/include/sys/tree.h:213-235 | the whole loop terminates with the key or a neighbour at the root of the middle, within the potential freed |
| `Splay.Head.Assemble` | src/sys/include/sys/tree.h:108-113 | yields the original sequence with the key or a neighbour at the root |
| `Splay.Head.Splay` | src/sys/include/sys/tree.h:205-238 | terminates, keeps the in-order sequence exactly, leaves the key or its neighbour at the root, and takes at most 6 lg n + 2 rounds amortised |
| `Splay.Head.MinMax` | src/sys/include/sys/tree.h:243-274 | keeps the sequence and brings the least or greatest node to the root, within the same bound |
| `Splay.Head.Find` | src/sys/include/sys/tree.h:124-133 | returns the node with the key if and only if there is one |
| `Splay.Head.Insert` | src/sys/include/sys/tree.h:160-182 | adds exactly the node, or returns the one already holding its key and keeps the sequence; at most 8 lg (n+1) + 2 rounds amortised |
| `Splay.Head.Put` | src/sys/include/sys/tree.h:169-180 | the new root splits the splayed tree at its key |
| `Splay.Head.Remove` | src/sys/include/sys/tree.h:184-203 | removes exactly the node with the key; without one, returns NULL and keeps the sequence; at most 12 lg n + 4 rounds amortised |
| `Splay.Head.Unroot` | src/sys/include/sys/tree.h:192-199 | taking out the root leaves a search tree of all the others |
| `Splay.Head.Graft` | src/sys/include/sys/tree.h:195-198 | hanging the right part below the splayed left part loses nothing |
| `Splay.Head.Next` | src/sys/include/sys/tree.h:135-147 | returns the in-order successor, NULL exactly at the end |
| `SplayRun.Perform` | src/sys/include/sys/tree.h:124-274 | every operation answers as an ordered set of keys would and costs at most 12 lg n + 4 rounds amortised |
| `SplayRun.Run` | src/sys/include/sys/tree.h:45-47 | every run of m operations from an empty tree, n of them inserts, answers as an ordered set and takes at most m (12 lg n + 4) rounds |
| `SplayRun.InAscends` | src/sys/include/sys/tree.h:45-47 | the in-order sequence of a splay tree ascends |
| `SplayRun.Foreach` | src/sys/include/sys/tree.h:288-291 | the walk visits every node once in ascending order although every step splays the tree |
| `BlakeWords.RotrRotates` | src/cmd/login/blake2-impl.h:148-151 | two shifts and an or are a rotation, moving the low bits to the top |
| `BlakeWords.LoadLittleEndian` | src/cmd/login/blake2-impl.h:48-65 | the shifted bytes or'ed together are the little-endian value |
| `BlakeWords.StoreLittleEndian` | src/cmd/login/blake2-impl.h:104-119 | the shifted and truncated bytes are the little-endian digits |
| `BlakeWords.LeRoundTrip` | src/cmd/login/blake2-impl.h:48-119 | loading stored bytes gives the word back |
| `Rfc7693.FCompression` | src/cmd/login/blake2b.c:177-216 | the compression function F of section 3.2 of RFC 7693, with its 128-bit offset and final flag, is the one with two counter and two flag words |
| `BlakeCompress.SigmaTable` | src/cmd/login/blake2b.c:31-45 | the twelve-row table is the message schedule of section 2.7 of RFC 7693 |
| `BlakeCompress.Mix` | src/cmd/login/blake2b.c:153-163 | the in-place mixing is G of section 3.1 of RFC 7693 on four of the sixteen words |
| `BlakeCompress.MixRounds` | src/cmd/login/blake2b.c:165-211 | twelve in-place rounds are the rounds of F |
| `BlakeCompress.CompressBlock` | src/cmd/login/blake2b.c:177-216 | the chaining words become the compression of the block |
| `BlakeStream.FeedConcat` | src/cmd/login/blake2b.c:221-246 | feeding two pieces in turn is feeding their concatenation |
| `BlakeStream.FeedBlock` | src/cmd/login/blake2b.c:228-240 | a block is compressed only when more input follows it |
| `BlakeStream.FeedChain` | src/cmd/login/blake2b.c:221-246 | after any input the chain has absorbed all blocks but the last, the counter equals the bytes absorbed and the buffer holds the rest |
| `BlakeStream.FinishFed` | src/cmd/login/blake2b.c:259-262 | finishing compresses the padded last block with the total length and the final flag |
| `Blake2b.ChainF` | src/cmd/login/blake2b.c:177-216 | the chain of compressions is the chain of section 3.3 of RFC 7693 |
| `Blake2b.FinishHash` | src/cmd/login/blake2b.c:248-270 | finishing any fed state gives the final chain value of section 3.3 of RFC 7693 |
| `Blake2b.DigestRfc` | src/cmd/login/blake2b.c:120-151 | with the key block fed first, the output bytes are the RFC 7693 digest, keyed or not |
| `Blake2b.ParamStart` | src/cmd/login/blake2b.c:81-117 | the parameter block xor'ed into the IV gives the starting words of RFC 7693 |
| `Blake2b.State.IncrementCounter` | src/cmd/login/blake2b.c:66-70 | the two counter words add as one 128-bit number |
| `Blake2b.State.CompressWith` | src/cmd/login/blake2b.c:177-216 | compresses with the state's own counter and flags |
| `Blake2b.State.Update` | src/cmd/login/blake2b.c:221-246 | the block loop over any input equals feeding it byte by byte |
| `Blake2b.State.Init` | src/cmd/login/blake2b.c:98-117 | succeeds exactly for digest lengths 1 to 64 and starts the unkeyed stream |
| `Blake2b.State.InitKey` | src/cmd/login/blake2b.c:120-151 | succeeds exactly for valid lengths and keys and has fed the zero-padded key |
| `Blake2b.State.Final` | src/cmd/login/blake2b.c:248-270 | succeeds exactly once on a large enough buffer, writes only the digest; otherwise changes nothing |
| `Blake2b.FeedChunks` | src/cmd/login/blake2b.c:221-246 | any list of updates has the effect of one on their concatenation |
| `Blake2b.HashChunks` | src/cmd/login/blake2b.c:221-270 | for every way of cutting a message the digest is that of RFC 7693, keyed or not |
| `Blake2b.Hash` | src/cmd/login/blake2b.c:273-300 | the one-shot call validates its arguments exactly and yields the RFC 7693 digest, including for the empty message |
| `Omar.Writer.FilePush` | src/tools/omar/omar.c:150-247 | appends exactly the record of the entry; fails exactly for an empty regular file, after writing its header |
| `Omar.Writer.EofPush` | src/tools/omar/omar.c:187-200 | appends the end record |
| `Omar.Archive` | src/tools/omar/omar.c:455-456 | the archive is its records in order and the end record |
| `Omar.StrideAgrees` | src/tools/omar/omar.c:202-243 | the writer's record length equals the reader's block offset if and only if the entry is not an empty file |
| `Omar.RecordAt` | src/sys/os/os_omar.c:98-127 | at a written header the reader decodes the entry's kind, mode, length and name |
| `Omar.EofAt` | src/sys/os/os_omar.c:100-103 | at the end record the reader stops |
| `Omar.ArchiveHolds` | src/tools/omar/omar.c:150-247 | in any archive each record decodes at its place as far as no empty file comes before it, and the end record follows the last |
| `Omar.TrailHolds` | src/sys/os/os_omar.c:98-140 | the walk visits exactly those places in order |
| `Omar.TrailFull` | src/sys/os/os_omar.c:98-140 | the reader comes from each of the first k records to the next if and only if none of the first k entries is an empty file |
| `Omar.PlacesAligned` | src/tools/omar/omar.c:202-243 | every record starts on a 512-byte boundary |
| `Omar.GetFile` | src/sys/os/os_omar.c:89-143 | on any byte image the loop terminates and its answer is that of the walk over the decoded records |
| `Omar.RepliesUnique` | src/sys/os/os_omar.c:89-143 | that answer is the only one the image allows |
| `Omar.GetFromArchive` | src/sys/os/os_omar.c:89-143 | on a written archive the lookup returns mode, length and bytes of the first record with the name, and ENOENT exactly if there is none, as long as no empty file comes before it |
| `Omar.EmptyFileHides` | src/tools/omar/omar.c:222-226 | a concrete archive in which a file after an empty one is not found |
| `Frames.Allocator.SetUse` | src/sys/include/sys/param.h:53 | sets exactly one bit |
| `Frames.Allocator.ClearUse` | src/sys/include/sys/param.h:54 | clears exactly one bit |
| `Frames.Allocator.Scan` | src/sys/vm/vm_seg.c:185-201 | finds the first run of free frames at or after the last index, or shows that there is none |
| `Frames.Allocator.AllocOnce` | src/sys/vm/vm_seg.c:182-216 | takes the first run at or after the last index and zeroes exactly its bytes, also if it is at frame 0; takes nothing exactly if none fits there |
| `Frames.Allocator.Search` | src/sys/vm/vm_seg.c:226-230 | when the two passes succeed, which run they take, and what a run at frame 0 costs |
| `Frames.Allocator.AllocFrame` | src/sys/vm/vm_seg.c:221-240 | succeeds exactly if some run of count frames is free and, if one is at frame 0, another behind it or from the last index on; the run taken is the next fit, was free, is now used and zeroed, overlaps nothing handed out; the counts move by count with a constant sum; frames are lost exactly if the search ends at frame 0 |
| `Frames.Allocator.FreeFrame` | src/sys/vm/vm_seg.c:245-259 | frees exactly count frames from the next page boundary on, whatever allocations they belonged to, and moves the counts back |
| `Frames.Hand` | src/sys/vm/vm_seg.c:182-216 | handing out a free run keeps the books: every frame is free, handed out or lost, just one of these, and the counter is exact |
| `Frames.Lose` | src/sys/vm/vm_seg.c:208-213 | a run taken at frame 0 keeps them too, and makes it the only loss |
| `Frames.ServesPlain` | src/sys/vm/vm_seg.c:221-240 | without a free frame 0 a request succeeds exactly if some run is free, and nothing is lost |
| `Frames.FrameZero` | src/sys/vm/vm_seg.c:221-240 | a free frame 0 that costs a frame, and one that fails a request that would fit |
| `Frames.TakeBack` | src/sys/vm/vm_seg.c:245-259 | taking any handed out frames back keeps them |
| `Frames.Allocator.Populate` | src/sys/vm/vm_seg.c:80-105 | the free frames are exactly those of the usable entries and the counts agree |
| `Frames.BitmapReaches` | src/sys/vm/vm_seg.c:170-171 | the bitmap has a bit for every frame if and only if the frame count is a multiple of 8 or its eighth is not a multiple of the page size |
| `Frames.HighestAddress` | src/sys/vm/vm_seg.c:148-168 | the end of the highest usable entry |
| `Frames.CarveOk` | src/sys/vm/vm_seg.c:125-131 | cutting the bitmap off an entry leaves a sound memory map that excludes the bitmap's frames |
| `Frames.Boot` | src/sys/vm/vm_seg.c:140-175 | on a sound map start-up gives a valid allocator whose free frames are the usable ones without the bitmap |
| `FramesRun.TurnKeeps` | src/sys/vm/vm_seg.c:182-259 | every allocation and release keeps the books and the set of all frames |
| `FramesRun.Conserved` | src/sys/vm/vm_seg.c:182-259 | at any time of any run every frame is free, handed out or lost, just one of these, and the counters add up to what they did |
| `FramesRun.HandedOnce` | src/sys/vm/vm_seg.c:182-259 | in any run, between two operations that hand out the same frame it was given back |
| `FramesRun.LostOnce` | src/sys/vm/vm_seg.c:221-240 | in any run at most one operation loses frames, and none does if frame 0 is not free at the start |
| `FramesRun.Run` | src/sys/vm/vm_seg.c:182-259 | the allocator performs such runs, up to the first request the kernel panics on |
| `Tailq.InsertAppends` | src/sys/include/sys/queue.h:118-124 | the pointer writes of insert-tail append to the sequence |
| `Tailq.RemoveDeletes` | src/sys/include/sys/queue.h:145-155 | the pointer writes of remove delete one element and keep the others in order |
| `SchedQueue.Queue.InsertTail` | src/sys/include/sys/queue.h:118-124 | the macro's statements append and count the element |
| `SchedQueue.Queue.Remove` | src/sys/include/sys/queue.h:145-155 | the macro's statements delete and uncount the element |
| `SchedQueue.Queue.Enq` | src/sys/os/os_sched.c:82-94 | appends the process and keeps nproc the length |
| `SchedQueue.Queue.Deq` | src/sys/os/os_sched.c:99-140 | takes the first process that is not asleep and keeps the others in order; EAGAIN exactly if all are asleep |
| `RunQueue.StepKeeps` | src/sys/os/os_sched.c:82-140 | every step of every core keeps the protocol invariant |
| `RunQueue.RunKeeps` | src/sys/os/os_sched.c:82-140 | the invariant holds in every state of every run |
| `RunQueue.Safety` | src/sys/os/os_synch.c:34-46 | in every interleaving at most one core is inside, and whenever the lock is free nproc, the element count and the queue length agree |
| `RunQueue.StepOwners` | src/sys/os/os_sched.c:82-140 | in one step a process changes hands only from the queue to the core that dequeues it or back |
| `RunQueue.Conserved` | src/sys/os/os_sched.c:82-140 | in every state of every run no process has been lost or made up, and the queue holds exactly the queued ones, each once |
| `RunQueue.HandedOnce` | src/sys/os/os_sched.c:99-140 | in every run, between two dequeues of a process lies an enqueue of it |
| `RunQueue.StepQueue` | src/sys/os/os_sched.c:119-137 | a dequeue removes one element past which only sleepers were skipped; every other step leaves the queue or appends |
| `RunQueue.FairStep` | src/sys/os/os_sched.c:119-137 | an always-awake process moves forward at every dequeue of another |
| `RunQueue.Fair` | src/sys/os/os_sched.c:82-140 | an always-awake process at position p is passed by at most p dequeues in any run, re-enqueueing included |
| `PirhoText.TokenReads` | src/sys/np/core/np_lex.c:376-459 | every printable token followed by a space lexes to itself |
| `PirhoText.ShowTokens` | src/sys/np/core/np_lex.c:376-459 | lexing a printed token list recovers exactly the list |
| `PirhoText.WordTooLong` | src/sys/np/core/np_lex.c:198-209 | a word of 32 or more characters is refused when a character follows it |
| `PirhoText.Lex` | src/sys/np/core/np_lex.c:376-459 | every token that is not end of file shortens the remaining text |
| `PirhoLexer.Lexer.Pop` | src/sys/np/core/np_lex.c:60-87 | the cached character and the source index read one text in order |
| `PirhoLexer.Lexer.MatchStr` | src/sys/np/core/np_lex.c:187-220 | the word loop agrees with the specification on every text, errors included |
| `PirhoLexer.Lexer.NomNum` | src/sys/np/core/np_lex.c:287-304 | the number loop agrees with the specification, 64-bit wrap and swallowed character included |
| `PirhoLexer.Lexer.NomStr` | src/sys/np/core/np_lex.c:316-371 | the string loop agrees with the specification, length limit included |
| `PirhoLexer.Lexer.Nom` | src/sys/np/core/np_lex.c:376-459 | on every text and lexer state the result, the error and the remaining text are those of the specification |
| `Piir.DrainCut` | src/sys/np/codegen/piir_engine.c:65-67 | what the engine decodes from the first n bytes of any program: the operations that fit, without those whose operand is negative as a byte, operands modulo 256 |
| `Piir.HeardWhole` | src/sys/np/core/np_parse.c:195-209 | operations arrive as they were sent if and only if every operand is below 128 |
| `Piir.LargeOperands` | src/sys/arch/amd64/np/piir_conv.c:157-171 | an operand of 200 loses its own operation only, one of 256 arrives as 0 |
| `Piir.Stack.DecodeOp` | src/sys/arch/amd64/np/piir_conv.c:137-199 | the decoder pops its operand from the same queue, and a negative or missing one drops the operation |
| `Piir.Stack.Push` | src/sys/np/codegen/gen_piir.c:62-77 | appends one byte, or drops it exactly when the store is full |
| `Piir.Stack.Pop` | src/sys/np/codegen/gen_piir.c:82-109 | takes the oldest byte across the index reset, -1 exactly when empty |
| `Piir.Stack.Inject` | src/sys/np/codegen/piir_engine.c:41-70 | the loop terminates and decodes the queue as Drain says |
| `PirhoSymbols.SymList.Alloc` | src/sys/np/core/np_symbol.c:135-175 | the new symbol's id is its place in the list |
| `PirhoSymbols.SymList.LookupId` | src/sys/np/core/np_symbol.c:102-133 | finds exactly the symbols with an allocated id, and cache and list always agree |
| `PirhoGrammar.StmtReads` | src/sys/np/core/np_parse.c:184-368 | parsing a printed statement has the statement's meaning and goes on with the text after it |
| `PirhoGrammar.SourceReads` | src/sys/np/core/np_parse.c:370-427 | parsing a printed program gives its meaning, and fails exactly if its meaning fails |
| `PirhoGrammar.StringNamed` | src/sys/np/core/np_parse.c:201-209 | every returned string has an operation whose id names that string in the symbol table |
| `PirhoGrammar.MeaningsGrow` | src/sys/np/core/np_parse.c:303-368 | later statements never change emitted operations or symbols |
| `Pirho.Work.ParseReturn` | src/sys/np/core/np_parse.c:184-219 | emits what the grammar says, or fails as it does |
| `Pirho.Work.ParseProc` | src/sys/np/core/np_parse.c:229-295 | accepts exactly the headers the grammar accepts, with the two arrow tokens unchecked |
| `Pirho.Work.ParseToken` | src/sys/np/core/np_parse.c:303-368 | takes the grammar's step on every token |
| `Pirho.Work.ParseWork` | src/sys/np/core/np_parse.c:370-427 | terminates on every source text; the engine decodes what arrives of the program, as the store limit and its operands allow, and nothing on a failed parse |
| `Pirho.Arrived` | src/sys/np/codegen/piir_engine.c:41-70 | what is drained of the bytes the store took is what arrives of the program |
| `Pirho.Delivered` | src/sys/np/codegen/piir_engine.c:41-70 | the program arrives as it is if and only if it has at most 4095 bytes and operands up to 127 |
| `Pirho.Compile` | src/sys/np/core/np_parse.c:370-427 | for every printed program, the engine decodes what arrives of its meaning, all of it if and only if it fits, and the symbol table holds its strings |
| `Pirho.MeaningsName` | src/sys/np/core/np_parse.c:201-209 | the symbol operands of a program name, in order, exactly the strings it returns |
| `Pirho.LookUpAll` | src/sys/np/core/np_symbol.c:102-133 | looking the operands of any operations up gives the names the table holds for them |
| `Pirho.AllNamed` | src/sys/np/core/np_symbol.c:102-133 | what arrives names all returned strings in order if and only if there are at most 128 and the queue takes the bytes of every return of one |
| `Pirho.FitsStrings` | src/sys/np/codegen/piir_engine.c:41-70 | a program that fits as a whole is one whose strings all come back |
| `Pirho.Execute` | src/sys/np/core/np_parse.c:370-427 | compiling a printed program and looking up the symbols the engine is given yields the strings of its return statements if and only if so |
| `Pio2.TermExact` | src/lib/libc/src/musl-math/__rem_pio2_large.c:292-297 | with 24-bit digits and at most three inputs every partial sum is an integer below 2^53 |
| `Pio2.Terms` | src/lib/libc/src/musl-math/__rem_pio2_large.c:292-297 | the product terms are the exact convolution of the digits |
| `Pio2.Distill` | src/lib/libc/src/musl-math/__rem_pio2_large.c:301-306 | distillation into 24-bit digits preserves the weighted sum and its casts fit |
| `Pio2.TrimTop` | src/lib/libc/src/musl-math/__rem_pio2_large.c:308-320 | for q0 > 0 the wholes, modulo 8, and the remaining fraction make up the distilled sum, and ih says whether the fraction is at least one half |
| `Pio2.TrimLow` | src/lib/libc/src/musl-math/__rem_pio2_large.c:308-320 | the same for q0 <= 0 |
| `Pio2.ComplementValue` | src/lib/libc/src/musl-math/__rem_pio2_large.c:324-333 | the digitwise complement of a non-zero value is the base power minus the value |
| `Pio2.ComplementLoop` | src/lib/libc/src/musl-math/__rem_pio2_large.c:324-333 | the in-place loop computes that complement and carries exactly if a digit is non-zero |
| `Pio2.MaskValue` | src/lib/libc/src/musl-math/__rem_pio2_large.c:334-341 | masking the top digit turns it into the complement with respect to the smaller power |
| `Pio2.Flip` | src/lib/libc/src/musl-math/__rem_pio2_large.c:322-341 | loop and mask together yield 2^(24 jz - max(q0, 0)) minus the old value, all digits in range |
| `Pio2.RoundToNearest` | src/lib/libc/src/musl-math/__rem_pio2_large.c:308-347 | n is the whole nearest to the sum, modulo 8, and the digits and z are the distance to it, above or below as ih says |
| `Pio2.Reduce` | src/lib/libc/src/musl-math/__rem_pio2_large.c:292-347 | from the digits of x and of 2/pi through products, distillation and rounding, the same of the exact sum of products |
| `Decimals.DecimalValue` | src/sys/lib/string/itoa.c:58-76 | a printed number reads back as itself |
| `Itoa.TextFits` | src/sys/lib/string/itoa.c:36-123 | 21 bytes hold any 64-bit number in base 10 and 19 in base 16, terminator included |
| `Itoa.HexRoundTrip` | src/sys/lib/string/itoa.c:79-123 | base-16 text reads back as the number |
| `Itoa.TurnRound` | src/sys/lib/string/itoa.c:69-74 | swapping from both ends reverses the buffer in place |
| `Itoa.Base10` | src/sys/lib/string/itoa.c:36-77 | the buffer holds the signed decimal text and a terminator, and only a minus sign for the lowest number |
| `Itoa.Base16` | src/sys/lib/string/itoa.c:79-123 | the buffer holds the prefixed text of at least two digits and a terminator |
| `Itoa.Convert` | src/sys/lib/string/itoa.c:125-136 | any other base is refused and nothing is written |
| `Itoa.Atoi` | src/sys/lib/string/atoi.c:34-51 | the signed value of the digits after spaces and a sign, on every text whose digits fit an int |
| `Itoa.AtoiItoa` | src/sys/lib/string/atoi.c:34-51 | atoi undoes itoa for every n with absolute value below 2^31, after any spaces |
| `Itoa.LowestUnreadable` | src/sys/lib/string/atoi.c:47-49 | the lowest 32-bit number prints but reading it back exceeds an int |
| `Printf.OutConcat` | src/sys/lib/string/vsnprintf.c:74-145 | formats compose, the second starting from the arguments and the pad width the first leaves |
| `Printf.CarriedWidth` | src/sys/lib/string/vsnprintf.c:86-114 | the pad width a format leaves behind is the number its unused width digits make, modulo 256 |
| `Printf.NothingCarried` | src/sys/lib/string/vsnprintf.c:74-145 | it leaves none if and only if that is 0, and then what follows prints as if it stood alone |
| `Printf.PadCarriesOver` | src/sys/lib/string/vsnprintf.c:86-114 | a concrete format whose pad width reaches a later conversion |
| `Printf.PaddedReads` | src/sys/lib/string/vsnprintf.c:103-114 | padded decimal text reads back as its number if and only if no zeros come before a minus sign |
| `Printf.PointerLength` | src/sys/lib/string/vsnprintf.c:115-133 | a pointer prints as 18 characters |
| `Printf.Printc` | src/sys/lib/string/vsnprintf.c:35-42 | the buffer shows one character more as far as there is room |
| `Printf.Printstr` | src/sys/lib/string/vsnprintf.c:44-51 | the buffer shows the string as far as there is room |
| `Printf.Conversion` | src/sys/lib/string/vsnprintf.c:82-144 | each conversion shows its text as far as there is room and leaves the rest of the format to print |
| `Printf.Vsnprintf` | src/sys/lib/string/vsnprintf.c:65-148 | the buffer holds the first size - 1 characters of the unbounded output, terminated once anything is printed, with nothing written at size or beyond; the result is the length shown, or 0 exactly if a conversion fills the buffer |

## Left out

- TlsfRun.Run: skips requests after which the heap need not be one: regions AddPool excludes, alignments that are no power of two, pointers that are not live, and a realloc to a size the request limit refuses, which Tlsf.Allocator.Realloc covers.
- Tlsf.Allocator.Memalign: takes alignments the assertion lets through.
- TlsfAlign.AlignedSize: covers alignments up to 2^62; PaddedRequestWraps covers 2^63.
- TlsfAlign.PickBoundary: covers alignments up to 2^62; TopGap covers 2^63.
- Tlsf.Allocator.AddPool: excludes a pool of exactly 2^32 bytes, which has no list (TopClass), and regions that overlap other pools or the control structure.
- Frames.Boot: takes page-aligned, disjoint usable entries and a bitmap that covers every frame; BitmapReaches says when it does.
- Frames.Allocator.AllocFrame: a result of 0 stands for the panic.
- Frames.Allocator.FreeFrame: takes frames that are handed out; the code does not check and its counters would be off.
- Omar.GetFromArchive: takes names without NUL bytes, sizes below 2^32 and no empty file before the one sought; StrideAgrees and EmptyFileHides cover the empty ones.
- Omar.GetFile: bytes past the end of the image read as zero.
- Itoa.Atoi: digits beyond an int are signed overflow in C and have no meaning.
- Printf.Vsnprintf: takes formats and strings without NUL, every % with its letter and its argument; size 0 is excluded, where the room computed wraps.
- Pirho.Compile: takes statements whose names, numbers and strings are within the lexer's limits; Work.ParseWork covers every source text.
- tlsf_remove_pool, tlsf_get_pool and the size queries: easy beside the operations modelled.
- os_kalloc.c: a lock around the heap.
- cpu_sched and the round-robin over cores: a single counter.
- RB_AUGMENT and the RBT function interface.
- TAILQ_CONCAT, TAILQ_INSERT_BEFORE and the other list kinds of sys/queue.h.
- The steps SPLAY_NEXT takes down to the leftmost node, which are not counted as rounds.
- Lexer line numbers, diagnostics, allocation failures and symbol lookup by name.
- PirhoSymbols.SymList.Alloc: leaves out the name, which the lookups modelled do not use.
- The machine code md_piir_decode pushes and its buffer limit; what it decodes is modelled.
- The floating-point rounding of __rem_pio2_large.c, its recompute path and the final summation.
- Archive extraction to disk and the directory walk of omar.c.
- secure_zero_memory, which changes no result.
- Drivers, boot code, system calls, file systems and the C library wrappers.

# A verified model of the malloc lab, with its timer, a sort and a bit puzzle

The repository's central program is a dynamic memory allocator with boundary tags and an
explicit free list (`22-Lab3-malloclab/mm.c`), on a simulated `sbrk` heap (`memlib.c`), under
a trace driver that checks it (`mdriver.c`). This project models the three together and proves
them correct end to end. Three small programs with a real loop or arithmetic argument stand
beside it: the K-best sampler of `fcyc.c`, the comparator-driven bubble sort of `ex18.c`, and
`howManyBits` of the data lab.

## How it is built

- `MemLib.dfy` is the arena: an array of bytes with a break. The ghost field `words` is the same
  memory read as little-endian words, and `BytesKept` turns unchanged words into unchanged bytes.
- `Tiles.dfy` and `FreeList.dfy` are the two abstract structures: a map from payload addresses to
  blocks that tile the heap (the prologue is the block at `lo`, the epilogue sits at the break
  `hi`), and the free list as a sequence of addresses.
- `HeapModel.dfy` is a pure allocator on those two, with the full invariant `Inv`: the blocks tile
  the heap, aligned, at least 16 bytes, no two adjacent ones free, and the list holds every free
  block once. `HeapEffects.dfy` tells the exact effect of
  each call on both structures, and `HeapTheorems.dfy` proves what follows for single calls and
  for all runs.
- `Layout.dfy` says how an abstract heap lies in memory (tags and links) and which words each step
  may touch. Everything about a block lies in its own range of words, which is the one framing
  argument used throughout.
- `MM.dfy` is the allocator itself, a class whose methods read and write memory words in the
  order of the C code. Each method states its effect on the ghost field `heap`; `Valid()` says
  that memory represents `heap` and that `Inv(heap)` holds. Every memory access is proved to be
  an aligned word of the arena.
- `Runs.dfy` carries the theorems over runs to memory: a run of calls takes the bytes, the break and
  the list head where the abstract allocator goes. `Reinit.dfy` follows `mm_init` statement by
  statement on top of any list head left over from an earlier heap, with every access checked.
- `TraceRuns.dfy` turns a trace into a run of the abstract allocator and says when it has room.
- `Traces.dfy`, `Ranges.dfy` and `Driver.dfy` are the driver's oracle and its two interpreters.
- `Bits.dfy` gives the C bit operators and relates the macros to them. `Fcyc.dfy`,
  `BubbleSort.dfy` and `HowManyBits.dfy` stand alone.

Long C functions are split into several Dafny methods that run in the same order; `MmMalloc`, for
example, is `Reserve`, `RemoveFromFreeList` and `Place`.

## Where code and claims part

- The header comment of `mm.c` says that only free blocks have footers. The code writes footers of
  allocated blocks too and `coalesce` reads them; the model follows the code.
- `mm_init` does not clear the old free-list head. On a heap reset after an earlier trace it works
  if and only if that head is not the address 4088 bytes above the first block
  (`Reinit.InitAgain`, `Reinit.StartNext`): from there the write of a previous-link lands on the new
  epilogue header, and `coalesce` takes what lies beyond the break for a free block. Whatever the two
  words there are, the run ends in an access outside the arena or not at a word boundary, or without
  its epilogue header (`Reinit.BadHeadNoEpilogue`). Three calls lead to that head
  (`Runs.ReachBadHead`), so a second trace in the same process can start from it.
- `eval_mm_valid` compares a plain, hence signed, `char` with a value from 0 to 255. It accepts
  this allocator on a sensible trace if and only if every reallocated id has a low byte below 128;
  `Driver.RejectLargeId` gives the shortest trace it rejects.
- `add_range` looks only for an endpoint of the new range inside an old one. It takes every
  disjoint range, and also one that surrounds an old range (`Ranges.DisjointAccepted`).
- `bubble_sort` sorts every input if and only if its comparator is a total preorder
  (`BubbleSort.SortsExactly`). `strange_order` is none, and leaves 5 and 3 out of order.
- `mem_sbrk` is to refuse what the arena has no room for. It does so if and only if the break and the
  increment add up to less than 2^32; a larger sum wraps around, is granted, and takes the break below
  the arena (`MemLib.Memory.Sbrk`), for example from 0xE0000000 by 0x20000000 to 0
  (`MemLib.WrapGranted`).
- The block size for a request wraps around exactly from a size of 2^32 - 15 on, and is then 0 or 8
  (`Bits.CalcBlockSizeExact`).

## Model

| member | source | states |
|---|---|---|
| MM.Allocator.MmInit | 22-Lab3-malloclab/mm.c:119-146 | From an empty heap, and from no list head or any left-over head but one, it succeeds and leaves exactly one free block of 4096 bytes, alone on the list, with the full invariant |
| MM.Allocator.MmMalloc | 22-Lab3-malloclab/mm.c:152-180 | Keeps the full invariant, refines the pure allocator on tiling and list, and changes no byte of any live payload; a request of 0 does nothing |
| MM.Allocator.MmFree | 22-Lab3-malloclab/mm.c:185-199 | Keeps the full invariant, refines the pure release with merging, and changes no byte of any other live payload |
| MM.Allocator.MmRealloc | 22-Lab3-malloclab/mm.c:204-262 | On all its paths keeps the full invariant and every other live payload, and the result starts with the first min(old payload, size) bytes of the old block |
| MM.Allocator.CopyRanges | 22-Lab3-malloclab/mm.c:256 | The two ranges of the copy lie in the arena and are disjoint, even when the source runs over its footer and the next header |
| MM.Allocator.CopyPayload | 22-Lab3-malloclab/mm.c:256 | The copy arrives, memory still represents the same heap, and every payload other than the target is unchanged |
| MM.Allocator.Coalesce | 22-Lab3-malloclab/mm.c:338-388 | In all four neighbour cases memory afterwards represents the heap with the free run merged, the run's members off the list and the merged block at its head; no live payload word changes |
| MM.Allocator.Place | 22-Lab3-malloclab/mm.c:285-309 | Restores tags over a possibly stale footer, splits exactly when 16 bytes remain, and keeps the payload of the placed block as well as of all others |
| MM.Allocator.ExtendHeap | 22-Lab3-malloclab/mm.c:312-331 | Unless the break would wrap around: without room it changes nothing and returns null; with room the heap grows by the rounded size, the new block is merged with a free last block, and the result heads the list |
| MM.Allocator.AddToFreeList | 22-Lab3-malloclab/mm.c:407-413 | The doubly linked list in memory becomes the old one with the block in front; no tag and no live payload changes |
| MM.Allocator.RemoveFromFreeList | 22-Lab3-malloclab/mm.c:415-430 | The doubly linked list in memory becomes the old one without that entry, the others in order; no tag and no live payload changes |
| MM.Allocator.FindFit | 22-Lab3-malloclab/mm.c:267-279 | Terminates and returns the first entry of the free list that is large enough, or null when there is none |
| MM.Allocator.MmCheck | 22-Lab3-malloclab/mm.c:505-562 | On any finite list that can be read it ends, with 0 if and only if every entry is marked free, its links stay in the heap, and it lacks a previous link exactly where it is the first; with -1 otherwise |
| MM.Allocator.CheckBetweenCalls | 22-Lab3-malloclab/mm.c:505-562 | It returns 0 in every state between calls, so -1 always means a broken invariant |
| HeapModel.FirstFit | 22-Lab3-malloclab/mm.c:267-279 | A result is on the list and large enough; no result means that every entry is too small |
| HeapModel.CoalesceInv | 22-Lab3-malloclab/mm.c:333-388 | When only the given free block may touch free neighbours and all are listed, merging restores the full invariant |
| HeapModel.CoalesceList | 22-Lab3-malloclab/mm.c:344-387 | After merging, the list holds each free block exactly once |
| HeapModel.RunOff | 22-Lab3-malloclab/mm.c:344-351 | Removing the free neighbours and the block one after the other removes exactly the blocks of the merged range |
| HeapModel.PlaceInv | 22-Lab3-malloclab/mm.c:285-309 | Placing restores the full invariant, makes the block live with n or up to n + 8 bytes, and leaves the other live blocks as they were |
| HeapModel.ExtendInv | 22-Lab3-malloclab/mm.c:312-331 | Extending keeps the invariant and the live blocks, raises the break by exactly n, and puts a free block of at least n bytes at the list head |
| HeapModel.MallocInv | 22-Lab3-malloclab/mm.c:152-180 | Allocation keeps the invariant, returns a block that was not live, leaves the live blocks alone, and moves the break only when nothing fits |
| HeapModel.ReleasedInv | 22-Lab3-malloclab/mm.c:185-199 | Release keeps the invariant, ends exactly that block's life and leaves the break and all other live blocks alone |
| HeapModel.ReallocInv | 22-Lab3-malloclab/mm.c:204-262 | Reallocation keeps the invariant on reuse, growth and move: the result is live and large enough, the old block is gone unless it is the result, and the break rises by at most one extension |
| HeapEffects.FirstFitIsFirst | 22-Lab3-malloclab/mm.c:267-279 | Every list entry before the one found is too small, and with none found every entry is |
| HeapEffects.MallocEffect | 22-Lab3-malloclab/mm.c:162-179 | With a fit only the chosen block changes: it keeps its end, or ends where a new free block begins; the list loses it and gains that block in front, the rest in order |
| HeapEffects.MallocGrows | 22-Lab3-malloclab/mm.c:165-179 | Without a fit the block starts at the free block that ended the old heap, or at the old break, and it or its free rest ends at the new break; the list effect is exact |
| HeapEffects.ExtendBlocks | 22-Lab3-malloclab/mm.c:312-331 | Extending leaves one free block that ends at the new break and starts at a free last block or the old break, and changes nothing below it |
| HeapEffects.ReleasedBlocks | 22-Lab3-malloclab/mm.c:185-199 | Freeing makes exactly one free block of the freed one and its free neighbours, first on the list, not followed by a free block, and changes no other block |
| HeapEffects.ReleasedList | 22-Lab3-malloclab/mm.c:185-199 | The list after freeing is the merged block followed by the old list without the swallowed neighbours, in order |
| HeapEffects.GrowEffect | 22-Lab3-malloclab/mm.c:234-245 | Growing in place changes only the two joined blocks; the upper one leaves the list and a rest of 16 bytes or more is free again and first on it |
| HeapEffects.ReallocStays | 22-Lab3-malloclab/mm.c:220-245 | Reallocation keeps the address if and only if the block is large enough, alone or with a free block just above it; alone, nothing changes |
| HeapEffects.ReallocMoves | 22-Lab3-malloclab/mm.c:247-261 | Anywhere else it returns what an allocation returns, and then makes one free block of the old one and its free neighbours, first on the list, changing nothing else |
| HeapTheorems.ExactFitStays | 22-Lab3-malloclab/mm.c:234-245 | One byte grown to 4088 in a fresh heap fits exactly and keeps its address and the break |
| HeapTheorems.TilingIsAWalk | 22-Lab3-malloclab/mm.c:76-77 | Walking up from the prologue meets every block exactly once, and the block sizes add up to the heap size less 16 |
| Tiles.Covered | 22-Lab3-malloclab/mm.c:6-15 | Every address of the heap lies in a block |
| Tiles.CoalescedTiling | 22-Lab3-malloclab/mm.c:353-381 | The merged blocks still tile the heap, no two free blocks touch afterwards, and live blocks are unchanged |
| HeapTheorems.MallocExtends | 22-Lab3-malloclab/mm.c:162-170 | Allocation moves the break if and only if no free block anywhere in the tiling is large enough |
| HeapTheorems.MallocThenFree | 22-Lab3-malloclab/mm.c:152-199 | Freeing what was just allocated gives back the tiling exactly, with the used block first on the list; without a fit, the heap just after the extension |
| HeapTheorems.NothingLive | 22-Lab3-malloclab/mm.c:26-27 | With nothing live the heap is one free block of the heap size less 16, the only list entry |
| HeapTheorems.RunKeeps | 22-Lab3-malloclab/mm.c:119-430 | Over every run of the abstract allocator: the full invariant, each live block within 8 bytes of what its largest request needs, a break that never falls, at most one extension per call |
| HeapTheorems.HeapSizeBound | 22-Lab3-malloclab/mm.c:165-170 | From initialisation on, the abstract heap takes at most 4112 bytes plus one extension for each allocation or reallocation |
| TraceRuns.GrowthMeans | 22-Lab3-malloclab/mm.c:161-170 | That extension is 8 bytes plus the aligned size, or 4096 bytes if that is less |
| HeapTheorems.AllFreed | 22-Lab3-malloclab/mm.c:185-199 | Any abstract run that ends with nothing live ends with one free block and a list of just that block |
| HeapTheorems.FreshBlockSize | 22-Lab3-malloclab/mm.c:285-309 | A fresh allocation of size bytes uses between size + 8 and size + 23 bytes |
| HeapTheorems.StepLive | 22-Lab3-malloclab/mm.c:152-262 | A call changes no live block but the one it frees or resizes |
| HeapTheorems.BadHeadReachable | 22-Lab3-malloclab/mm.c:135-143 | Three given calls of the abstract allocator are allowed, fit the arena and end with the list head from which a later initialisation goes wrong |
| HeapTheorems.RoomIsExact | 22-Lab3-malloclab/mm.c:152-262 | A call stays below a limit if and only if it need not extend the heap or the extension fits below the limit |
| HeapTheorems.RunRoomIsExact | 22-Lab3-malloclab/mm.c:152-262 | Every call of a run finds the room it needs if and only if the heap the run ends with stays below the limit |
| HeapTheorems.LoopHasRoom | 22-Lab3-malloclab/mm.c:152-199 | Allocating and freeing one byte any number of times needs no more room than initialisation took |
| Runs.RunCalls | 22-Lab3-malloclab/mm.c:152-262 | Every run of calls, each of which fits or has room to extend the heap when its turn comes, takes memory to what represents the abstract heap after the run, and changes no byte of a live block that it neither frees nor resizes |
| Runs.RunFromInit | 22-Lab3-malloclab/mm.c:119-262 | Every such run from initialisation on keeps memory valid, each live block within 8 bytes of what its largest request needs and the heap size between 4112 bytes and that plus one extension per request; with everything freed, memory holds one free block |
| Runs.ReachBadHead | 22-Lab3-malloclab/mm.c:135-143 | From a first initialisation on, three calls leave the actual list head at the bad address |
| Runs.SecondInitFails | 22-Lab3-malloclab/mm.c:119-146 | So a first heap of three calls makes the next initialisation end in a stray access or without its epilogue header |
| Reinit.InitAgain | 22-Lab3-malloclab/mm.c:119-146 | From any list head an earlier heap can leave, initialisation takes the specified steps and ends with its epilogue header in place if and only if the head is not 4088 bytes above the first block; it then ends with a valid heap |
| Reinit.LinkFirst | 22-Lab3-malloclab/mm.c:119-146 | The statements of initialisation, run on memory from any left-over head, do exactly what is specified word by word, and end early only at a stray access |
| Reinit.GoodInit | 22-Lab3-malloclab/mm.c:119-146 | From any other left-over head these steps end, with all tags in place and the first block alone on the list |
| Reinit.RawRemoveRep | 22-Lab3-malloclab/mm.c:415-430 | On a sound heap the checked removal of any entry ends, and represents the list without it |
| Reinit.RawCoalesceRep | 22-Lab3-malloclab/mm.c:338-388 | On any sound heap the checked coalescing above an allocated block ends, and does what the allocator's does, with or without a free block above |
| Reinit.BadHeadNoEpilogue | 22-Lab3-malloclab/mm.c:338-388 | From that head, for all contents of memory, the steps end in a stray access or leave something other than the epilogue header |
| Reinit.BadHeadOnZeros | 22-Lab3-malloclab/mm.c:338-388 | On memory that is zero beyond the break they do end, with the first block's address in place of the epilogue header |
| Reinit.StartNext | 22-Lab3-malloclab/mdriver.c:587-595 | After any calls, resetting the break and initialising again gives a valid heap if and only if those calls did not leave the bad list head |
| Layout.AddRep | 22-Lab3-malloclab/mm.c:407-413 | The three link writes turn a doubly linked list into the one with the block in front, on any tagged heap |
| Layout.RemoveRep | 22-Lab3-malloclab/mm.c:415-430 | The link writes of a removal, at the head, in the middle or at the end, leave a doubly linked list of the other entries in order |
| Layout.MergeRep | 22-Lab3-malloclab/mm.c:358-381 | Writing only the two outer tags makes memory represent the merged block; everything else is untouched |
| Layout.PayloadRep | 22-Lab3-malloclab/mdriver.c:625 | A user's write inside a live payload changes no tag, no link and no other payload |
| Layout.PayloadsKeptMeans | 22-Lab3-malloclab/mm.c:152-262 | Kept payloads are unchanged byte by byte |
| MemLib.BytesKept | 22-Lab3-malloclab/mm.c:63-64 | Where all words of an aligned range are unchanged, so is every byte |
| MemLib.Memory.Sbrk | 22-Lab3-malloclab/memlib.c:58-69 | An increment is refused if and only if it is negative or its sum with the break lies above the arena and below 2^32; the heap stays valid if and only if the sum does not wrap around, and a break that wrapped lies below the arena |
| MemLib.WrapGranted | 22-Lab3-malloclab/memlib.c:62 | An increment far too large for the arena that the test lets through, taking the break to 0 |
| MemLib.WrappedFooter | 22-Lab3-malloclab/mm.c:324-325 | Whenever the sum wraps around, the footer of the new block lies outside the arena |
| Bits.GetSizeBits | 22-Lab3-malloclab/mm.c:67 | The size field is the header with its three low bits masked off, on all 32-bit words |
| Bits.MakeHeaderBits | 22-Lab3-malloclab/mm.c:60 | The packed header is the bitwise or of size and flag, for every aligned size |
| Bits.IsAllocatedBits | 22-Lab3-malloclab/mm.c:68 | The allocation flag is the header masked with 1, on all 32-bit words |
| Bits.HeaderFields | 22-Lab3-malloclab/mm.c:60-68 | Packing a size and a flag into a header loses neither |
| Bits.AlignBits | 22-Lab3-malloclab/mm.c:53 | Rounding up is addition of 7 modulo 2^32 and masking, for every size, wrap-around included |
| Bits.CalcBlockSizeExact | 22-Lab3-malloclab/mm.c:95 | The block size leaves room for the request and both tags if and only if it does not wrap around; where it does, it is 0 or 8 |
| Bits.CalcBlockSizeBounds | 22-Lab3-malloclab/mm.c:95 | Without wrap-around the block size is a multiple of 8, at least size + 8 and below size + 16 |
| Ranges.RangeList.Add | 22-Lab3-malloclab/mdriver.c:381-429 | Accepts a range if and only if it is aligned, inside the heap and has no endpoint in a recorded range; then records it first |
| Ranges.RangeList.Remove | 22-Lab3-malloclab/mdriver.c:434-449 | Removes exactly the first range with that start, if there is one |
| Ranges.SurroundingAccepted | 22-Lab3-malloclab/mdriver.c:408-416 | For every aligned start, a range of 32 bytes is taken although one of 8 bytes lies inside it |
| Ranges.DisjointAccepted | 22-Lab3-malloclab/mdriver.c:408-416 | The overlap test passes exactly the disjoint ranges and those that surround an old one |
| Driver.PayloadAccepted | 22-Lab3-malloclab/mdriver.c:390-416 | The payload of any new live block passes every test of the range list: alignment, heap bounds, overlap |
| TraceRuns.SimOwned | 22-Lab3-malloclab/mdriver.c:597-681 | In every sensible trace each live id has a live block of its own in the abstract allocator |
| TraceRuns.TraceRoomIsExact | 22-Lab3-malloclab/mdriver.c:597-681 | Each request of a sensible trace can be served if and only if no block size wraps around and the heap after the trace fits the arena |
| TraceRuns.BoundIsTraceRoom | 22-Lab3-malloclab/mdriver.c:597-681 | Room for 4112 bytes and one extension per request is enough |
| Driver.EvalMmValid | 22-Lab3-malloclab/mdriver.c:577-685 | On every sensible trace each of whose requests can be served in the arena it returns 1 if and only if every reallocated id is below 128 modulo 256; then the range list is the set of live payload extents, every live payload holds its fill byte, and heap and block table are those of the abstract allocator |
| Driver.EvalMmUtil | 22-Lab3-malloclab/mdriver.c:698-778 | On every trace each of whose requests can be served the reported value is the peak of the live sizes over the heap size, where the peak is attained and never exceeded over the trace, is at least 16 below the heap size, and the value is below 1 |
| Traces.PeakIsMax | 22-Lab3-malloclab/mdriver.c:725-728 | The peak is the largest total of live sizes after any of the requests |
| Traces.LastDecides | 22-Lab3-malloclab/mdriver.c:597-681 | The last request on an id decides whether it is live and with what size |
| Driver.TotalFits | 22-Lab3-malloclab/mdriver.c:687-696 | The sizes of live ids, whose blocks are disjoint, add up to no more than the bytes below any bound on their blocks |
| Driver.NextCanStart | 22-Lab3-malloclab/mdriver.c:587-595 | What the interpreters ask of the list head holds after any trace if and only if the head is not the bad one, that is, exactly where `Reinit.StartNext` succeeds |
| Driver.LivePayloads | 22-Lab3-malloclab/mdriver.c:597-681 | Once accepted, every live payload is aligned, in the heap, full of the low byte of its id and apart from all others, and the range list holds exactly their extents, one each |
| Driver.CheckBytes | 22-Lab3-malloclab/mdriver.c:653-661 | On any memory the byte check passes if and only if every byte, read as signed, equals the low byte of the id |
| Driver.SignedCharIs | 22-Lab3-malloclab/mdriver.c:656 | A plain char is the byte's value from -128 to 127, equal to the byte exactly below 128 |
| Driver.LargeIdIsGood | 22-Lab3-malloclab/mdriver.c:654-660 | A trace of two requests on id 128 makes sense, fits the arena and is not one the byte check can accept |
| Driver.RejectLargeId | 22-Lab3-malloclab/mdriver.c:654-660 | On that trace the interpreter finds fault with the correct allocator |
| Traces.OrderIsLive | 22-Lab3-malloclab/mdriver.c:597-681 | In every sensible trace the order of the range list holds each live id exactly once |
| Fcyc.Sampler.AddSample | 22-Lab3-malloclab/fcyc.c:67-88 | The kept values are the kbest smallest samples seen since the start, in order |
| Fcyc.BestAreSmallest | 22-Lab3-malloclab/fcyc.c:64-88 | Those values are sorted, are taken from the samples as a multiset, and nothing left out is smaller |
| Fcyc.BestNext | 22-Lab3-malloclab/fcyc.c:67-76 | The kbest smallest after one more sample depend only on the kbest smallest before it |
| Fcyc.ConvergedMeans | 22-Lab3-malloclab/fcyc.c:93-98 | The samples have converged if and only if there are kbest of them and the kbest smallest all lie within the factor 1 + epsilon of the least |
| Fcyc.Sampler.Fcyc | 22-Lab3-malloclab/fcyc.c:129-168 | Stops at the first convergence, at the latest after maxsamples samples, and returns the minimum of the samples taken |
| BubbleSort.BubbleSort | lecture-6/ex18.c:18-41 | Returns a new array that holds the specified sort of the first count numbers and leaves its input unchanged |
| BubbleSort.SortPermutes | lecture-6/ex18.c:30-38 | The result is a permutation of the input for any comparator at all |
| BubbleSort.SortSorts | lecture-6/ex18.c:30-38 | The result is sorted for every total preorder |
| BubbleSort.SortsExactly | lecture-6/ex18.c:18-41 | A comparator sorts every input if and only if it is a total preorder |
| BubbleSort.SortStable | lecture-6/ex18.c:30-38 | Numbers that compare equal keep their order, for every total preorder |
| BubbleSort.SortTurns | lecture-6/ex18.c:30-38 | Under a comparator that exchanges any two of some numbers, and none of them with a last one, the numbers turn round by one place: as many passes as numbers, each over all of them |
| BubbleSort.ReverseOrderReverses | lecture-6/ex18.c:43-51 | Sorting in reverse order gives exactly the reverse of sorting in order |
| BubbleSort.StrangeOrderFails | lecture-6/ex18.c:53-55 | The strange order is no preorder, so it fails on some input: 5 and 3 stay out of order |
| BubbleSort.StrangeIsRemainder | lecture-6/ex18.c:53-55 | The strange order is the remainder of a division that rounds towards zero, and 0 where either number is 0 |
| BubbleSort.StrangeOrderTurns | lecture-6/ex18.c:53-55 | Under it 5 3 1 comes out as 3 5 1 |
| HowManyBits.BitLenHalved | 22-Lab1-datalab-bits.c:336-377 | Shifting out k bits that are not the whole number takes exactly k off its length |
| HowManyBits.SearchCounts | 22-Lab1-datalab-bits.c:348-392 | The five halving stages count the bits of every non-negative number |
| HowManyBits.LeastWidth | 22-Lab1-datalab-bits.c:323-396 | A number fits in n bits of two's complement if and only if n is at least the result, for every 32-bit pattern |
| HowManyBits.Examples | 22-Lab1-datalab-bits.c:312-318 | The results given in the description of the puzzle |

## Left out

- MM.Allocator.MmMalloc: requires that a block fits or the arena has room, because the code dereferences the null result of a failed extension, and that the block size does not wrap around, because it is then smaller than any block (`Bits.CalcBlockSizeExact`).
- MM.Allocator.MmRealloc: excludes the call with a null pointer and size 0, which the code would pass on to `mm_free`.
- MM.Allocator.ExtendHeap: requires that the new break does not wrap around 32 bits, because the code then writes the footer outside the arena (`MemLib.WrappedFooter`).
- Reinit.InitAgain: an access that is not at a word boundary ends the run, as C leaves it undefined; what a processor that allows it would go on to do is not followed.
- Ranges.RangeList.Add: the linked list of ranges is a sequence that the methods reassign, so the pointer updates of the list nodes are not modelled.
- Driver.EvalMmValid: error messages and counters are left out; a trace one of whose requests cannot be served is excluded, since the allocator does not survive a full arena.
- Fcyc.Sampler.Fcyc: doubles are reals and measurements are an input sequence; the hardware counters, cache clearing and parameter setters are left out, and kbest must be positive.
- BubbleSort.BubbleSort: comparators are total functions on unbounded integers, so the overflow of INT_MIN % -1 does not arise.
- `mem_init`'s own `malloc`: the arena is a given array of 20 MB at an 8-aligned base below 2^32; `mem_pagesize` is not part of this model.
- `read_trace`, `main`, result printing, `eval_mm_speed` and the libc evaluators of the driver: file input, output and timing.
- Debug printing in `mm.c` and the team struct: output only.
- The other data-lab puzzles, lectures 1, 2 and 5, `ex19` and the attack lab: only easy members or no correctness property.

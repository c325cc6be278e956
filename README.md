# duMalloc in Dafny

A model of the three versions of the `duMalloc` heap allocator in `project_1`, with proofs about it.

All three versions carve a 1024-byte arena (`HEAP_SIZE`) into blocks. Each block starts with a header `{free, size, [managedIndex], next}`. FREE blocks are threaded on a singly linked free list kept in address order.

- **duMalloc** rounds the request up to a multiple of 8 and picks a node by first fit or best fit. It splits the node into a USED block and a FREE remainder, and the remainder takes the node's place on the list.
- **duFree** splices a block back into the list in address order. Neighbours are never merged.
- **Version 2** adds a 128-slot handle table (`managedList`, `managedListSize`), `duManagedMalloc` and `duManagedFree`. Its list splices contain two statements that store nothing.
- **Version 3** keeps two arenas (`heap[ROWS]`, `freeListHeaders[ROWS]`, `currentHeapIndex`) and adds `minorCollection`.

How the model represents the C code:

- Pointers become byte offsets from the start of an arena, and `NULL` is `-1`.
- An arena is a `map<int, Header>` from header offset to header.
- Two ghost sequences record the blocks in address order (`blocks`) and the free-list nodes in list order (`chain`). They give the walks a termination measure and make acyclicity explicit.
- `H` is `sizeof(memoryBlockHeader)` on an LP64 target: 16 in version 1 and 24 in versions 2 and 3.
- The global arrays (`managedList`, and in version 3 `heap` and `freeListHeaders`) are `const` fields of the class: their elements change, the arrays themselves never do. Each constructor allocates them fresh, so a heap the client creates can be used at once.

Modules:

- `Bits`: the 32-bit `& ~7` mask.
- `Fit`: rounding, and first-fit and best-fit selection over the sizes met along the list.
- `Blocks`:
  - the arena invariant: tiling, linked and ascending list, FREE exactly when on the list;
  - the split and free transformers on values, with their preservation lemmas;
  - the dump walk.
- `Search`: the list-walking `while` loops, as read-only methods proved against `Fit` and `Blocks`, and the header writes of the split that versions 1 and 3 share, on one arena's headers as a value.
- `Version1`, `Version2`, `Version3`: one class `Heap` each, holding the globals of that version. Its methods update them in place.

The arena invariant `ArenaOk`, kept by every method of versions 1 and 3, says:

- the blocks tile `[0, HEAP_SIZE)`;
- every size is a non-negative multiple of 8;
- following `next` from the head visits exactly `chain` and then NULL;
- `chain` is strictly ascending;
- a header is FREE exactly when it is on the list.

Version 2 keeps only the first three parts and ascending order (`WellFormed`). It also keeps `OnlyTail`: from `duInitMalloc` on, the list is exactly the last block, and that block is FREE.

## Model

| member | source | states |
|---|---|---|
| Fit.RoundUp | project_1/version1/duMalloc.c:97 | the rounded size is a multiple of 8, at least the request and less than the request + 8 |
| Fit.RoundUpIsLeast | project_1/version3/duMalloc.c:145 | no multiple of 8 below the rounded size holds the request, so it is the least such multiple |
| Fit.MaskIsRoundUp | project_1/version2/duMalloc.c:129 | `(size + 7) & ~7` on a 32-bit pattern equals the least multiple of 8 at or above `size`, for every `size` whose `size + 7` fits in an `int` |
| Bits.AndNotSeven | project_1/version1/duMalloc.c:97 | `x & ~7` for a 32-bit `x` clears its three low-order bits: `x - x % 8` |
| Fit.FirstFitIsFirst | project_1/version1/duMalloc.c:101-112 | first fit returns a node with size >= blockSize + H, every node before it is too small, and it returns nothing exactly when no node qualifies |
| Fit.BestFitIsBest | project_1/version1/duMalloc.c:113-134 | best fit returns a qualifying node no larger than any qualifying node and strictly smaller than every qualifying node before it (the strict `<` keeps the earliest minimum); nothing exactly when none qualifies |
| Fit.BestFitNoLargerThanFirstFit | project_1/version3/duMalloc.c:149-182 | best fit finds a node exactly when first fit does, its size never exceeds first fit's choice, and it never comes earlier in the list |
| Fit.SelectedNodeFits | project_1/version2/duMalloc.c:133-166 | the node chosen under either strategy has room for the rounded request plus a header |
| Search.FindFirstFit | project_1/version3/duMalloc.c:149-160 | the first-fit `while` loop stops at the node first fit selects, with the node before it as `prevBlock`, or at NULL when none qualifies |
| Search.FindBestFit | project_1/version3/duMalloc.c:161-182 | the best-fit `while` loop ends with the node best fit selects and its predecessor, or NULL when none qualifies |
| Search.FindFit | project_1/version3/duMalloc.c:149-187 | the search under the configured strategy yields the selected node and its predecessor (NULL when nothing fits) |
| Search.FindInsertionPoint | project_1/version3/duMalloc.c:219-227 | duFree's walk stops at the first node whose address is not below the block, with the node before it as `prevBlock` |
| Search.FindTail | project_1/version3/duMalloc.c:305-311 | minorCollection's walk ends with the last node of the list, or NULL for an empty list |
| Search.SplitRow | project_1/version3/duMalloc.c:194-210 | the header writes of the split, on one arena's headers with header size `hdr` (shared by versions 1 and 3), produce exactly the split transformer's headers and head; the arena stays valid, the chosen node was FREE and is now USED with the rounded size, its payload offset is a multiple of 8, and every USED block keeps its header |
| Blocks.InsertionPointOrdered | project_1/version1/duMalloc.c:174-178 | on an ascending list every node before the insertion point is below the block and every node from it on is at or above it |
| Blocks.SplitKeepsUsed | project_1/version3/duMalloc.c:194-210 | the split writes only the chosen node (FREE), the FREE node before it and the new remainder header, so every USED block of a valid arena keeps its header |
| Blocks.SplitStep | project_1/version1/duMalloc.c:146-164 | splitting node k keeps the arena invariant: the remainder header at chosen + H + blockSize joins the tiling right after the node and takes its place in the list; the node becomes USED with size blockSize and `next` NULL; the node offset is a multiple of 8 |
| Blocks.SplitArenaOk | project_1/version3/duMalloc.c:194-210 | the headers, head, block order and list after a split with relinking satisfy the arena invariant again |
| Blocks.TilesAfterCut | project_1/version3/duMalloc.c:194-195 | cutting a block into two that together cover its old extent (H + blockSize + H + remainder == H + old size) keeps the tiling, with the new header inserted right after the cut block |
| Blocks.SplitStepNoRelink | project_1/version2/duMalloc.c:172-191 | the split as written in version 2 keeps tiling, linkage and ascending order, with the list now the old list truncated at the chosen node (or the head replaced when it was chosen); the remainder is FREE |
| Blocks.SplitHeadersAt | project_1/version1/duMalloc.c:146-162 | header by header what a split writes: the remainder is FREE with the node's old `next` and size old size - blockSize - H, the predecessor points at the remainder only when relinking, the node becomes USED with `next` NULL, and every other header is untouched |
| Blocks.FreeKeepsUsed | project_1/version3/duMalloc.c:229-240 | the splice writes only the freed block and the FREE node before it, so every other USED block of a valid arena keeps its header |
| Blocks.FreeStep | project_1/version1/duMalloc.c:166-192 | freeing a USED block keeps the arena invariant with the block inserted into the list at its address position (at the head when it is below every node); the list grows by one, the block is FREE, and no size and no block changes |
| Blocks.FreeArenaOk | project_1/version3/duMalloc.c:229-240 | the headers after duFree's splice, with the head replaced when the block goes first, satisfy the arena invariant |
| Blocks.FreeWellFormedNoHead | project_1/version2/duMalloc.c:208-219 | version 2's duFree keeps tiling, linkage and ascending order when the head is never updated: the list gains the block only when a node precedes it |
| Blocks.FreeHeadersAt | project_1/version1/duMalloc.c:180-191 | header by header what duFree writes: the block becomes FREE pointing at the first node not below it, the predecessor (if any) points at the block, every other header is untouched |
| Blocks.DumpWalk | project_1/version1/duMalloc.c:62-84 | on a tiled arena the dump walk, stepping by H + size from offset 0, visits exactly the blocks in address order and stops at HEAP_SIZE |
| Blocks.BlockAligned | project_1/version1/duMalloc.c:146-147 | every header offset of a tiled arena is a multiple of 8, since H and every size are |
| Blocks.BlocksInside | project_1/version3/duMalloc.c:107-129 | every block of a tiled arena starts at or after 0 and ends no later than HEAP_SIZE |
| Version1.Heap.InitMalloc | project_1/version1/duMalloc.c:21-36 | after duInitMalloc the arena is one FREE block of HEAP_SIZE - H bytes at offset 0, the only node of the list, with `next` NULL, and the arena invariant holds |
| Version1.Heap.Malloc | project_1/version1/duMalloc.c:93-165 | with no qualifying node, NULL and no state change; otherwise the selected node is split, the remainder replaces it in the list, the returned payload is node + H, 8-aligned, and its block is USED with size the rounded request (>= size, < size + 8); the arena invariant is kept |
| Version1.Heap.Split | project_1/version1/duMalloc.c:146-164 | the header updates of the split, with the new state given by the split transformer, the arena invariant kept and the payload offset 8-aligned |
| Version1.Heap.Free | project_1/version1/duMalloc.c:166-192 | the block becomes FREE and is inserted at its address position in the list (head when below every node); list length grows by one; no size changes; the arena invariant is kept |
| Version2.Heap.InitMalloc | project_1/version2/duMalloc.c:26-41 | one FREE block of HEAP_SIZE - H at offset 0 as the head, `next` NULL, the zeroed `managedIndex` of that header 0, and the reachable shape `OnlyTail` established |
| Version2.Heap.ManagedInitMalloc | project_1/version2/duMalloc.c:61-71 | duInitMalloc's state (one FREE block as head, `managedIndex` the entry 0 for it, `OnlyTail`) and, after the `for` loop, all 128 slots NULL and the count 0 |
| Version2.Heap.Malloc | project_1/version2/duMalloc.c:125-192 | given a qualifying node (no NULL check), the selected node is split; the remainder becomes the head only when the head was chosen, otherwise the list is cut short at the now USED node; the payload at node + H is 8-aligned and USED with the rounded size; `OnlyTail` is preserved |
| Version2.Heap.Split | project_1/version2/duMalloc.c:172-191 | the split with line 184 storing nothing: new headers, head and truncated list, `OnlyTail` preserved, and the node USED with the rounded size and its payload offset 8-aligned |
| Version2.Heap.Free | project_1/version2/duMalloc.c:194-220 | the block becomes FREE pointing at the first node not below it; it joins the list only when a node precedes it, the head never changes, and from `OnlyTail` the list stays the same single node, so freed blocks are never reused |
| Version2.Heap.ManagedMalloc | project_1/version2/duMalloc.c:222-247 | on success the payload goes in slot `managedListSize`, the header's `managedIndex` gets that index, the count grows by one and that slot is returned; with the table full it returns NULL, the table is unchanged and the block stays allocated |
| Version2.Heap.ManagedFree | project_1/version2/duMalloc.c:249-260 | a NULL slot changes nothing; otherwise the block is freed as duFree does and the slot becomes NULL, so a second call changes nothing |
| Version2.FreeBelowHeadIsLost | project_1/version2/duMalloc.c:211-215 | after init, duMalloc(8) and freeing it, block 0 is FREE but the list from the head is only block 32, breaking "FREE exactly when on the list" |
| Version2.SplitPastHeadDropsRemainder | project_1/version2/duMalloc.c:182-185 | on a valid two-node arena a 24-byte first-fit request takes the second node; the first node still points at it though it is USED, and the FREE remainder at 112 is off the list |
| Version2.NoFitAfterInit | project_1/version2/duMalloc.c:172-175 | right after init a request of 1000 bytes fits no node under either strategy, so the walk yields NULL, which line 173 dereferences |
| Version2.OnlyTailAfterSplit | project_1/version2/duMalloc.c:176-181 | splitting the only node when it is the last block leaves the remainder as both the last block and the only node, FREE |
| Version2.OnlyTailAfterFree | project_1/version2/duMalloc.c:202-206 | with the last block as the only node, any other block lies below it, so duFree's walk stops at once and that node's header is unchanged |
| Version3.Heap.InitMalloc | project_1/version3/duMalloc.c:36-54 | both rows zeroed; the current row becomes one FREE block of HEAP_SIZE - H at offset 0, the only node of its list; the other row's list head is untouched |
| Version3.Heap.ManagedInitMalloc | project_1/version3/duMalloc.c:74-84 | duInitMalloc's state (the current row one FREE block as head, the other row zeroed with its head untouched, `managedIndex` the one entry for (row, 0)), then every slot NULL and the count 0, so the handles are live (`LiveSlots`) |
| Version3.Heap.Malloc | project_1/version3/duMalloc.c:141-213 | on the current row: NULL exactly when no node qualifies, then no state change; otherwise the version 1 split with the remainder in the node's place, the payload 8-aligned and USED with the rounded size, its block FREE before the call; every USED block keeps its header; the other row and its head are untouched |
| Version3.Heap.Split | project_1/version3/duMalloc.c:193-212 | the split on the current row, with the other row untouched and the arena invariant kept |
| Version3.Heap.Free | project_1/version3/duMalloc.c:215-241 | on the current row, the block becomes FREE and is inserted at its address position (head included); the list grows by one; sizes and blocks unchanged; every other USED block keeps its header; the other row untouched |
| Version3.Heap.ManagedMalloc | project_1/version3/duMalloc.c:243-268 | duMalloc failing gives NULL with the table unchanged; otherwise the slot, `managedIndex` and count are updated as in version 2, or NULL with the table unchanged and the block still allocated when the table is full; the other slots, the other row and its head are unchanged; live handles stay live (`LiveSlots`) |
| Version3.Heap.ManagedFree | project_1/version3/duMalloc.c:270-281 | a NULL slot changes nothing; otherwise duFree on the current row and the slot becomes NULL; the count, `managedIndex`, the other slots, the other row and its head are unchanged in both cases; live handles stay live (`LiveSlots`) |
| Version3.ManagedFreeTwice | project_1/version3/duMalloc.c:273-276 | two duManagedFree calls on one slot have exactly the effect of one: the slot ends NULL, the current row, its head and list are one duFree's, and the count, `managedIndex`, the strategy, the other slots, the other row and its head are unchanged |
| Version3.Heap.MinorCollection | project_1/version3/duMalloc.c:283-323 | given live handles (distinct payloads of USED blocks, so each copy stays inside its own block): the handles are live again with the count 0 and every previously used slot NULL; the old row's head is its former last node (NULL for an empty list), FREE with `next` NULL, and its FREE headers are unchanged; the index flips; the new current row is one FREE block of HEAP_SIZE - H at offset 0 with `next` NULL as its only node; `managedIndex` keeps its keys and every entry except those of the blocks the slots held |
| Version3.Heap.ClearSlots | project_1/version3/duMalloc.c:298-303 | the slot-clearing `for` loop sets every slot below the count to NULL, leaves the others, and sets the count to 0 |
| Version3.SlotsLiveAfterAlloc | project_1/version3/duMalloc.c:246-259 | recording a fresh payload keeps the handles live: its block was FREE, so no slot held it, and every USED block keeps its header |
| Version3.SlotsLiveAfterFree | project_1/version3/duMalloc.c:278-280 | freeing the block of one slot and setting that slot to NULL keeps the other handles live, since no other slot held that block |
| Version3.ListTail | project_1/version3/duMalloc.c:305-312 | on a valid row the walk yields the last list node, which is FREE and has `next` NULL, or NULL when the list is empty |
| Version3.TailOfList | project_1/version3/duMalloc.c:307-311 | the last node of a valid row's list is FREE and ends the list |
| Version3.InitialBlockOverrunsRows | project_1/version3/duMalloc.c:28 | the block duInitMalloc writes ends at HEAP_SIZE, beyond one declared row (COLS bytes) and beyond both rows together |

## Left out

- Payload bytes are not modelled. This covers the zeroing loops of duInitMalloc, the payload contents, and the `memcpy` at project_1/version3/duMalloc.c:294. That copy moves the `size` payload bytes of each handle's block onto the block's own header. Up to 24 bytes (H) the two regions are disjoint and the header's bytes are replaced by payload bytes (its `managedIndex` too from 16 bytes on). Above 24 bytes they overlap, and C leaves the effect of `memcpy` undefined.
- Version3.Heap.MinorCollection: the headers of USED blocks in the old row, and the `managedIndex` entries of the blocks the slots held, are not stated after the call, because that `memcpy` overwrites them with payload bytes. The model body leaves them as they were.
- `exit(1)` on an unknown strategy is not modelled. Every `duMalloc` model requires `allocationStrategy` to be FIRST_FIT (0) or BEST_FIT (1).
- The print and dump routines (`printMemoryBlock`, `printFreeList`, `printManagedList`, `duMemoryDump`) are output only. Their header walk is modelled as `Blocks.Walk`, with `Blocks.DumpWalk`.
- `int` overflow is excluded: requests are bounded by `MaxRequest(H)`, so `(size + 7) & ~7` and `blockSize + H` stay within `int`. Negative sizes are excluded too.
- Undefined uses are preconditions, not modelled behaviour:
  - freeing a pointer that is not the payload of a USED block;
  - double free, which makes a self-loop;
  - in version 2, freeing the USED node a truncated list now ends with;
  - in version 2 and version 3, `duManagedFree` on a slot holding anything other than such a payload;
  - minorCollection with a dangling handle (a slot below the count whose block was freed by duFree, or left from before a duInitMalloc) or two slots holding one payload: the copy would overwrite a FREE header or read a size already overwritten. `Version3.Heap.MinorCollection` requires `LiveSlots`, which duManagedInitMalloc establishes and duManagedMalloc, duManagedFree and minorCollection keep.
- Version2.Heap.Malloc: it requires a qualifying node, because line 173 dereferences NULL otherwise. `Version2.NoFitAfterInit` shows an input where none qualifies.
- The `managedIndex` header field is write-only in the source. It is kept as a separate map (by offset in version 2, by row and offset in version 3). Its stale entries for headers that later become FREE or vanish are kept as the code leaves them.
- Version 3's rows are modelled as the 1024-byte arenas all its logic uses, not as the declared `COLS` = 128-byte rows. Out-of-bounds writes are not modelled. `Version3.InitialBlockOverrunsRows` records the mismatch.
- The inactive row of version 3 has no invariant. It is not read until minorCollection resets it, and its `managedIndex` entries are left as they were.
- Pointer and `sizeof` arithmetic are modelled as integer offsets and a constant `H`. Padding follows LP64.
- The commented-out collector at project_1/version3/duMalloc.c:325-353 is dead code.
- The header files (`duMalloc.h`) contribute the constants `FIRST_FIT` and `BEST_FIT` and the prototypes. Version 3's also defines the macros `Managed(p)` and `Managed_t(t)`, with which client code declares a handle (`t*` seen through a `void**` slot) and dereferences it; they are client-side syntax with no state of their own. `HEAP_SIZE`, `USED` and `FREE` are defined in each duMalloc.c (line 6, and line 8 in version 3).

## Findings

| source | as written | input that shows it | evidently intended | confidence | as-written member | corrected member |
|---|---|---|---|---|---|---|
| project_1/version2/duMalloc.c:214 | `freeListHead;` stores nothing when the freed block is below every node | duInitMalloc, duMalloc(8), duFree of that payload: block 0 is FREE, the head is still 32 | `freeListHead = blockHeader;` so the block becomes the head | high, not executed | Version2.FreeBelowHeadIsLost | Blocks.FreeStep |
| project_1/version2/duMalloc.c:184 | `prevBlock->next;` stores nothing when a node after the head is chosen | FREE blocks at 0 (40 bytes, next 64) and 64 (936 bytes), first fit, request 24: the list still reaches the USED block 64, and the remainder at 112 is lost | `prevBlock->next = newBlock;` | high, not executed | Version2.SplitPastHeadDropsRemainder | Blocks.SplitStep |
| project_1/version2/duMalloc.c:173 | no NULL check before the split | after duInitMalloc, request 1000: no node has 1024 bytes, `currentBlock` is NULL and is dereferenced | return NULL as version 1 does at lines 141-144 | high, not executed | Version2.NoFitAfterInit | Version1.Heap.Malloc |
| project_1/version3/duMalloc.c:28 | `heap[ROWS][COLS]` with COLS = HEAP_SIZE / 8 = 128 bytes per row | duInitMalloc writes a header whose block ends at 1024, beyond 256 bytes of storage | rows of HEAP_SIZE bytes | high, not executed | Version3.InitialBlockOverrunsRows | Version3.Heap.InitMalloc |

Version 2's two list defects hide each other. From `duInitMalloc` on, the list is always exactly the last block (`Version2.Heap.OnlyTail`, preserved by every version 2 method). So duMalloc always chooses the head, and the line 184 path is never taken. Each freed block lies below that node, so every free takes the line 214 path and the block is never reused.

The comment at project_1/version3/duMalloc.c:293 says a live pointer now points to a new address, and the commented-out collector at lines 325-353 copies each USED block into the other arena: both describe an evacuating pass. The code does not do this, and the model follows the code. It copies each live payload onto its own header inside the current arena, clears the handle table, reduces the old arena's list to its last node, flips the index and resets the other arena. Nothing is moved into it, and no handle survives.

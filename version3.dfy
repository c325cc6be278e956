/** Version 3 of the allocator: two arenas (`heap[ROWS]`), one free list per
    arena (`freeListHeaders[ROWS]`), `currentHeapIndex` naming the arena in use,
    the handle table of version 2, and minorCollection. duMalloc and duFree work
    on the current arena exactly as in version 1, with 24-byte headers. */
module Version3 {
  import opened Fit
  import opened Blocks
  import opened Search

  /** sizeof(memoryBlockHeader) on an LP64 target: three ints, padding, a pointer. */
  const H := 24

  /** ROWS, the number of arenas. */
  const ROWS := 2

  /** COLS as declared: the length in bytes of each row of `heap`. */
  const COLS := HEAP_SIZE / 8

  /** HEAP_SIZE / 8, the slots of `managedList`. */
  const SLOTS := HEAP_SIZE / 8

  /** The globals `heap`, `freeListHeaders`, `currentHeapIndex`,
      `allocationStrategy`, `managedList` and `managedListSize`. Each row of
      `heap` is seen through the headers of its blocks, keyed by offset in the
      row; the `managedIndex` field of a header is kept in its own map, keyed by
      row and offset. */
  class Heap {
    const heap: array<map<int, Header>>
    const freeListHeaders: array<int>
    var currentHeapIndex: int
    var allocationStrategy: int
    /** The `managedIndex` fields that have been written, by (row, header offset). */
    var managedIndex: map<(int, int), int>
    /** `managedList`: the payload offset (in the current row) held by each slot, NULL when empty. */
    const managedList: array<int>
    var managedListSize: int
    /** The blocks of the current row in address order. */
    ghost var blocks: seq<int>
    /** The free-list nodes of the current row in list order. */
    ghost var chain: seq<int>

    /** The arrays have their declared lengths and the indices are in range. */
    ghost predicate Shape()
      reads this
    {
      && heap.Length == ROWS && freeListHeaders.Length == ROWS
      && 0 <= currentHeapIndex < ROWS
      && managedList.Length == SLOTS && 0 <= managedListSize <= SLOTS
    }

    /** The current row satisfies version 1's arena invariant. The other row is
        not read until minorCollection resets it, so nothing is required of it. */
    ghost predicate Valid()
      reads this, heap, freeListHeaders
    {
      Shape() && ArenaOk(Row(), Head(), blocks, chain, H)
    }

    /** The current row. */
    ghost function Row(): map<int, Header>
      reads this, heap
      requires Shape()
    {
      heap[currentHeapIndex]
    }

    /** The current row's list head. */
    ghost function Head(): int
      reads this, freeListHeaders
      requires Shape()
    {
      freeListHeaders[currentHeapIndex]
    }

    /** The handle table as minorCollection's copy loop needs it: the slots below
        the count hold distinct payloads of USED blocks of the current row (or
        NULL), and the slots at or above the count are NULL. */
    ghost predicate LiveSlots()
      reads this, heap, managedList
      requires Shape()
    {
      && SlotsLive(Row(), managedList[..managedListSize])
      && forall i :: managedListSize <= i < SLOTS ==> managedList[i] == NULL
    }

    /** The globals before duInitMalloc: zeroed rows, NULL heads, row 0 current. */
    constructor ()
      ensures Shape() && currentHeapIndex == 0 && managedListSize == 0
      ensures forall r :: 0 <= r < ROWS ==> heap[r] == map[] && freeListHeaders[r] == NULL
      ensures forall i :: 0 <= i < SLOTS ==> managedList[i] == NULL
      ensures allocationStrategy == FIRST_FIT && managedIndex == map[]
      ensures blocks == [] && chain == []
      ensures LiveSlots()
      ensures fresh(heap) && fresh(freeListHeaders) && fresh(managedList)
    {
      heap := new map<int, Header>[ROWS](_ => map[]);
      freeListHeaders := new int[ROWS](_ => NULL);
      currentHeapIndex := 0;
      allocationStrategy := FIRST_FIT;
      managedIndex := map[];
      managedList := new int[SLOTS](_ => NULL);
      managedListSize := 0;
      blocks := [];
      chain := [];
    }

    /** duInitMalloc: records the strategy, zeroes both rows and makes the current
        row one FREE block of HEAP_SIZE - H bytes at offset 0, the only node of its
        list. The other row's list head and the handle table are left alone. */
    method InitMalloc(strategy: int)
      requires Shape()
      modifies this, heap, freeListHeaders
      ensures Valid() && allocationStrategy == strategy
      ensures currentHeapIndex == old(currentHeapIndex)
      ensures heap[currentHeapIndex] == map[0 := Header(true, HEAP_SIZE - H, NULL)] && freeListHeaders[currentHeapIndex] == 0
      ensures forall r :: 0 <= r < ROWS && r != currentHeapIndex ==> heap[r] == map[] && freeListHeaders[r] == old(freeListHeaders[r])
      ensures managedIndex == map[(currentHeapIndex, 0) := 0]
      ensures blocks == [0] && chain == [0]
      ensures managedListSize == old(managedListSize)
    {
      allocationStrategy := strategy;
      for i := 0 to ROWS
        modifies heap
        invariant forall r :: 0 <= r < i ==> heap[r] == map[]
      {
        heap[i] := map[];
      }
      managedIndex := map[(currentHeapIndex, 0) := 0];
      heap[currentHeapIndex] := heap[currentHeapIndex][0 := Header(true, HEAP_SIZE - H, NULL)];
      freeListHeaders[currentHeapIndex] := 0;
      blocks := [0];
      chain := [0];
      InitialArenaOk(H);
    }

    /** duManagedInitMalloc: duInitMalloc, then every slot NULL and the count 0. */
    method ManagedInitMalloc(strategy: int)
      requires Shape()
      modifies this, heap, freeListHeaders, managedList
      ensures Valid() && allocationStrategy == strategy
      ensures currentHeapIndex == old(currentHeapIndex)
      ensures Row() == map[0 := Header(true, HEAP_SIZE - H, NULL)] && Head() == 0
      ensures forall r :: 0 <= r < ROWS && r != currentHeapIndex ==> heap[r] == map[] && freeListHeaders[r] == old(freeListHeaders[r])
      ensures managedIndex == map[(currentHeapIndex, 0) := 0]
      ensures blocks == [0] && chain == [0]
      ensures managedListSize == 0
      ensures forall i :: 0 <= i < SLOTS ==> managedList[i] == NULL
      ensures LiveSlots()
    {
      InitMalloc(strategy);
      for i := 0 to SLOTS
        modifies managedList
        invariant forall m :: 0 <= m < i ==> managedList[m] == NULL
      {
        managedList[i] := NULL;
      }
      managedListSize := 0;
    }

    /** duMalloc on the current row: rounds the request up to a multiple of 8,
        picks a node with room for it and a header under the strategy, and splits
        it. With no such node it returns NULL and changes nothing. Otherwise the
        remainder takes the node's place in the list and the node becomes USED
        with exactly the rounded size; its payload offset is returned. The other
        row is not touched. */
    method Malloc(size: int) returns (p: int)
      requires Valid()
      requires allocationStrategy == FIRST_FIT || allocationStrategy == BEST_FIT
      requires 0 <= size <= MaxRequest(H)
      modifies this, heap, freeListHeaders
      ensures Valid() && allocationStrategy == old(allocationStrategy) && currentHeapIndex == old(currentHeapIndex)
      ensures managedIndex == old(managedIndex) && managedListSize == old(managedListSize)
      ensures forall r :: 0 <= r < ROWS && r != currentHeapIndex ==> heap[r] == old(heap[r]) && freeListHeaders[r] == old(freeListHeaders[r])
      ensures var b := RoundUp(size);
        var s := Select(old(allocationStrategy), ChainSizes(old(Row()), old(chain)), b + H);
        && (p == NULL <==> s.None?)
        && (s.None? ==> Row() == old(Row()) && Head() == old(Head())
                        && chain == old(chain) && blocks == old(blocks))
        && (s.Some? ==>
              var k := s.value;
              && p == old(chain)[k] + H
              && Row() == SplitHeaders(old(Row()), old(chain), k, b, H, true)
              && Head() == SplitHead(old(Head()), old(chain), k, b, H)
              && chain == old(chain)[k := Remainder(old(chain)[k], b, H)])
      ensures p != NULL ==> p - H in Row() && !Row()[p - H].free && size <= Row()[p - H].size < size + 8
      ensures p != NULL ==> Aligned(p)
      ensures p != NULL ==> p - H in old(Row()) && old(Row())[p - H].free
      ensures forall q :: q in old(Row()) && !old(Row())[q].free ==> q in Row() && Row()[q] == old(Row())[q]
    {
      var cur := currentHeapIndex;
      var blockSize := RoundUp(size);
      var totalSize := blockSize + H;
      WellFormedWalkable(heap[cur], freeListHeaders[cur], blocks, chain, H);
      ghost var sizes := ChainSizes(heap[cur], chain);
      var currentBlock, prevBlock := FindFit(heap[cur], freeListHeaders[cur], chain, allocationStrategy, totalSize);
      ghost var s := Select(allocationStrategy, sizes, totalSize);
      assert s == Select(old(allocationStrategy), ChainSizes(old(Row()), old(chain)), RoundUp(size) + H);
      if currentBlock == NULL {
        return NULL;
      }
      ghost var k := s.value;
      SelectedNodeFits(allocationStrategy, sizes, totalSize);
      Split(k, currentBlock, prevBlock, blockSize);
      p := currentBlock + H;
      assert p - H == currentBlock;
    }

    /** The split at the end of duMalloc, on the current row: node `k` of its list
        (at `currentBlock`, after `prevBlock`) is cut after `blockSize` payload
        bytes; the remainder becomes a FREE block that takes the node's place. */
    method Split(ghost k: int, currentBlock: int, prevBlock: int, blockSize: int)
      requires Valid()
      requires 0 <= k < |chain| && currentBlock == chain[k] && prevBlock == PrevOf(chain, k)
      requires blockSize >= 0 && blockSize % 8 == 0 && Row()[currentBlock].size >= blockSize + H
      modifies this, heap, freeListHeaders
      ensures Valid() && allocationStrategy == old(allocationStrategy) && currentHeapIndex == old(currentHeapIndex)
      ensures managedIndex == old(managedIndex) && managedListSize == old(managedListSize)
      ensures forall r :: 0 <= r < ROWS && r != currentHeapIndex ==> heap[r] == old(heap[r]) && freeListHeaders[r] == old(freeListHeaders[r])
      ensures Row() == SplitHeaders(old(Row()), old(chain), k, blockSize, H, true)
      ensures Head() == SplitHead(old(Head()), old(chain), k, blockSize, H)
      ensures chain == old(chain)[k := Remainder(currentBlock, blockSize, H)]
      ensures Aligned(currentBlock + H) && Row()[currentBlock] == Header(false, blockSize, NULL)
      ensures old(Row())[currentBlock].free
      ensures forall q :: q in old(Row()) && !old(Row())[q].free ==> q in Row() && Row()[q] == old(Row())[q]
    {
      var cur := currentHeapIndex;
      var hs, head := SplitRow(heap[cur], freeListHeaders[cur], blocks, chain, k, currentBlock, prevBlock, blockSize, H);
      ghost var after := SplitBlocks(blocks, chain, k, blockSize, H);
      heap[cur] := hs;
      freeListHeaders[cur] := head;
      blocks, chain := after.0, after.1;
    }

    /** duFree on the current row: walks to the first node not below the block,
        marks the block FREE, points it at that node and splices it in after the
        node before (or at the head). The list grows by this one block in address
        order; no size changes and no neighbours are merged. */
    method Free(ptr: int)
      requires Valid()
      requires ptr - H in Row() && !Row()[ptr - H].free
      modifies this, heap, freeListHeaders
      ensures Valid() && allocationStrategy == old(allocationStrategy) && currentHeapIndex == old(currentHeapIndex)
      ensures managedIndex == old(managedIndex) && managedListSize == old(managedListSize)
      ensures forall r :: 0 <= r < ROWS && r != currentHeapIndex ==> heap[r] == old(heap[r]) && freeListHeaders[r] == old(freeListHeaders[r])
      ensures var blk := ptr - H;
        var i := InsertionPoint(old(chain), blk);
        && Row() == FreeHeaders(old(Row()), old(chain), i, blk)
        && Head() == (if i == 0 then blk else old(Head()))
        && chain == InsertAt(old(chain), i, blk)
        && blocks == old(blocks)
      ensures Row()[ptr - H].free && |chain| == |old(chain)| + 1
      ensures Row().Keys == old(Row()).Keys
      ensures forall q :: q in Row() ==> Row()[q].size == old(Row())[q].size
      ensures forall q :: q in old(Row()) && !old(Row())[q].free && q != ptr - H ==> Row()[q] == old(Row())[q]
    {
      var cur := currentHeapIndex;
      var blockHeader := ptr - H;
      WellFormedWalkable(heap[cur], freeListHeaders[cur], blocks, chain, H);
      var currentBlock, prevBlock := FindInsertionPoint(heap[cur], freeListHeaders[cur], chain, blockHeader);
      ghost var i := InsertionPoint(chain, blockHeader);
      FreeStep(heap[cur], freeListHeaders[cur], blocks, chain, blockHeader, H);
      FreeKeepsUsed(heap[cur], freeListHeaders[cur], blocks, chain, blockHeader, H);
      ghost var target := FreeHeaders(heap[cur], chain, i, blockHeader);
      var hs := heap[cur];
      var head := freeListHeaders[cur];
      hs := hs[blockHeader := hs[blockHeader].(free := true, next := currentBlock)];
      if prevBlock == NULL {
        assert i == 0;
        head := blockHeader;
      } else {
        assert i > 0 && prevBlock == chain[i - 1];
        hs := hs[prevBlock := hs[prevBlock].(next := blockHeader)];
      }
      assert hs == target;
      heap[cur] := hs;
      freeListHeaders[cur] := head;
      chain := InsertAt(chain, i, blockHeader);
    }

    /** duManagedMalloc: allocates; on success records the payload in slot
        `managedListSize`, writes that index into the block's `managedIndex` and
        returns the slot. If duMalloc fails it returns NULL with the table
        unchanged; with the table full it also returns NULL and leaves the table
        as it was, but the block stays allocated. */
    method ManagedMalloc(size: int) returns (slot: int)
      requires Valid()
      requires allocationStrategy == FIRST_FIT || allocationStrategy == BEST_FIT
      requires 0 <= size <= MaxRequest(H)
      modifies this, heap, freeListHeaders, managedList
      ensures Valid() && allocationStrategy == old(allocationStrategy) && currentHeapIndex == old(currentHeapIndex)
      ensures var b := RoundUp(size);
        var s := Select(old(allocationStrategy), ChainSizes(old(Row()), old(chain)), b + H);
        && (s.None? ==>
              && slot == NULL && Row() == old(Row()) && Head() == old(Head())
              && chain == old(chain) && managedListSize == old(managedListSize) && managedIndex == old(managedIndex))
        && (s.Some? ==>
              var k := s.value;
              && Row() == SplitHeaders(old(Row()), old(chain), k, b, H, true)
              && Head() == SplitHead(old(Head()), old(chain), k, b, H)
              && chain == old(chain)[k := Remainder(old(chain)[k], b, H)]
              && (old(managedListSize) < SLOTS ==>
                    && slot == old(managedListSize) && managedListSize == old(managedListSize) + 1
                    && managedList[slot] == old(chain)[k] + H
                    && managedIndex == old(managedIndex)[(currentHeapIndex, old(chain)[k]) := slot])
              && (old(managedListSize) == SLOTS ==>
                    slot == NULL && managedListSize == old(managedListSize) && managedIndex == old(managedIndex)))
      ensures forall i :: 0 <= i < SLOTS && i != slot ==> managedList[i] == old(managedList[i])
      ensures slot != NULL ==> managedList[slot] - H in Row() && !Row()[managedList[slot] - H].free
      ensures forall r :: 0 <= r < ROWS && r != currentHeapIndex ==> heap[r] == old(heap[r]) && freeListHeaders[r] == old(freeListHeaders[r])
      ensures old(LiveSlots()) ==> LiveSlots()
    {
      ghost var hs0, slots0, live := Row(), managedList[..managedListSize], LiveSlots();
      var ptr := Malloc(size);
      if ptr == NULL {
        slot := NULL;
        return;
      }
      if live {
        SlotsLiveAfterAlloc(hs0, Row(), slots0, ptr);
      }
      if managedListSize < SLOTS {
        managedList[managedListSize] := ptr;
        var blockHeader := ptr - H;
        managedIndex := managedIndex[(currentHeapIndex, blockHeader) := managedListSize];
        managedListSize := managedListSize + 1;
        assert managedList[..managedListSize] == slots0 + [ptr];
      } else {
        slot := NULL;
        return;
      }
      slot := managedListSize - 1;
    }

    /** duManagedFree: a NULL slot is left alone; otherwise its block is freed and
        the slot set to NULL, so a second call on the same slot changes nothing. */
    method ManagedFree(slot: int)
      requires Valid() && 0 <= slot < SLOTS
      requires managedList[slot] != NULL ==>
        managedList[slot] - H in Row() && !Row()[managedList[slot] - H].free
      modifies this, heap, freeListHeaders, managedList
      ensures Valid() && allocationStrategy == old(allocationStrategy) && currentHeapIndex == old(currentHeapIndex)
      ensures managedList[slot] == NULL
      ensures forall i :: 0 <= i < SLOTS && i != slot ==> managedList[i] == old(managedList[i])
      ensures managedListSize == old(managedListSize) && managedIndex == old(managedIndex)
      ensures forall r :: 0 <= r < ROWS && r != currentHeapIndex ==> heap[r] == old(heap[r]) && freeListHeaders[r] == old(freeListHeaders[r])
      ensures old(LiveSlots()) ==> LiveSlots()
      ensures old(managedList[slot]) == NULL ==>
        && Row() == old(Row()) && Head() == old(Head())
        && chain == old(chain) && blocks == old(blocks)
      ensures old(managedList[slot]) != NULL ==>
        var blk := old(managedList[slot]) - H;
        var i := InsertionPoint(old(chain), blk);
        && Row() == FreeHeaders(old(Row()), old(chain), i, blk)
        && Head() == (if i == 0 then blk else old(Head()))
        && chain == InsertAt(old(chain), i, blk)
        && blocks == old(blocks)
    {
      if managedList[slot] == NULL {
        return;
      }
      ghost var hs0, slots0, live := Row(), managedList[..managedListSize], LiveSlots();
      Free(managedList[slot]);
      managedList[slot] := NULL;
      if live && slot < managedListSize {
        SlotsLiveAfterFree(hs0, Row(), slots0, slot);
        assert managedList[..managedListSize] == slots0[slot := NULL];
      }
    }

    /** minorCollection as written: every slot below the count is set to NULL
        and the count to 0; the current row's list head becomes its last node
        (NULL for an empty list), which alone is left on that list; the other row
        becomes current and is reset to one FREE block of HEAP_SIZE - H bytes at
        offset 0, the only node of its list. Nothing is moved into the new row.
        The first loop copies each live payload over its own header, so only the
        FREE headers of the old row are stated unchanged. */
    method MinorCollection()
      requires Valid() && LiveSlots()
      modifies this, heap, freeListHeaders, managedList
      ensures Valid() && LiveSlots() && allocationStrategy == old(allocationStrategy)
      ensures managedIndex.Keys == old(managedIndex).Keys
      ensures forall key :: key in old(managedIndex) && (key.0 != old(currentHeapIndex) || key.1 + H !in old(managedList[..managedListSize])) ==>
        managedIndex[key] == old(managedIndex)[key]
      ensures currentHeapIndex == (old(currentHeapIndex) + 1) % ROWS && currentHeapIndex != old(currentHeapIndex)
      ensures managedListSize == 0
      ensures forall i :: 0 <= i < old(managedListSize) ==> managedList[i] == NULL
      ensures forall i :: old(managedListSize) <= i < SLOTS ==> managedList[i] == old(managedList[i])
      ensures var prev := old(currentHeapIndex);
        && heap[prev].Keys == old(heap[prev]).Keys
        && (forall q :: q in old(heap[prev]) && old(heap[prev])[q].free ==> heap[prev][q] == old(heap[prev])[q])
        && freeListHeaders[prev] == (if old(chain) == [] then NULL else Last(old(chain)))
        && (old(chain) != [] ==> Last(old(chain)) in heap[prev] && heap[prev][Last(old(chain))].free
                                 && heap[prev][Last(old(chain))].next == NULL)
      ensures Row() == map[0 := Header(true, HEAP_SIZE - H, NULL)] && Head() == 0
      ensures blocks == [0] && chain == [0]
    {
      ClearSlots();
      var cur := currentHeapIndex;
      var prevBlock := ListTail(heap[cur], freeListHeaders[cur], blocks, chain);
      freeListHeaders[cur] := prevBlock;
      currentHeapIndex := (currentHeapIndex + 1) % ROWS;
      // `heap[currentHeapIndex] != NULL` always holds: a row of an array is never NULL
      InitialArenaOk(H);
      heap[currentHeapIndex] := InitialHeaders(H);
      freeListHeaders[currentHeapIndex] := 0;
      blocks := [0];
      chain := [0];
    }

    /** The first loop of minorCollection, after the copy: slots below the
        count become NULL, the rest keep their contents, and the count drops to 0. */
    method ClearSlots()
      requires Shape()
      modifies this`managedListSize, managedList
      ensures Shape() && managedListSize == 0
      ensures forall i :: 0 <= i < old(managedListSize) ==> managedList[i] == NULL
      ensures forall i :: old(managedListSize) <= i < SLOTS ==> managedList[i] == old(managedList[i])
    {
      for i := 0 to managedListSize
        modifies managedList
        invariant forall m :: 0 <= m < i ==> managedList[m] == NULL
        invariant forall m :: i <= m < SLOTS ==> managedList[m] == old(managedList[m])
      {
        managedList[i] := NULL;
      }
      managedListSize := 0;
    }
  }

  /** duManagedFree called twice on one slot has the effect of one call: the
      second call finds the slot NULL and changes nothing. */
  method ManagedFreeTwice(h: Heap, slot: int)
    requires h.Valid() && 0 <= slot < SLOTS
    requires h.managedList[slot] != NULL ==>
      h.managedList[slot] - H in h.Row() && !h.Row()[h.managedList[slot] - H].free
    modifies h, h.heap, h.freeListHeaders, h.managedList
    ensures h.Valid() && h.managedList[slot] == NULL && h.currentHeapIndex == old(h.currentHeapIndex)
    ensures h.allocationStrategy == old(h.allocationStrategy)
    ensures h.managedListSize == old(h.managedListSize) && h.managedIndex == old(h.managedIndex)
    ensures forall i :: 0 <= i < SLOTS && i != slot ==> h.managedList[i] == old(h.managedList[i])
    ensures forall r :: 0 <= r < ROWS && r != h.currentHeapIndex ==>
      h.heap[r] == old(h.heap[r]) && h.freeListHeaders[r] == old(h.freeListHeaders[r])
    ensures h.blocks == old(h.blocks)
    ensures old(h.managedList[slot]) == NULL ==>
      h.Row() == old(h.Row()) && h.Head() == old(h.Head()) && h.chain == old(h.chain)
    ensures old(h.managedList[slot]) != NULL ==>
      var blk := old(h.managedList[slot]) - H;
      var i := InsertionPoint(old(h.chain), blk);
      && h.Row() == FreeHeaders(old(h.Row()), old(h.chain), i, blk)
      && h.Head() == (if i == 0 then blk else old(h.Head()))
      && h.chain == InsertAt(old(h.chain), i, blk)
  {
    h.ManagedFree(slot);
    h.ManagedFree(slot);
  }

  /** Every slot that is not NULL holds the payload offset of a USED block of
      `hs`, and no two slots hold the same payload. */
  ghost predicate SlotsLive(hs: map<int, Header>, slots: seq<int>) {
    && (forall i :: 0 <= i < |slots| && slots[i] != NULL ==> slots[i] - H in hs && !hs[slots[i] - H].free)
    && (forall i, j :: 0 <= i < j < |slots| && slots[i] != NULL ==> slots[i] != slots[j])
  }

  /** duManagedMalloc keeps the handles live: the allocation leaves every USED
      block as it was, and the new payload's block was FREE, so it is held by no
      slot yet; recording it, or not when the table is full, keeps them live. */
  lemma SlotsLiveAfterAlloc(hs: map<int, Header>, hs': map<int, Header>, slots: seq<int>, p: int)
    requires SlotsLive(hs, slots)
    requires forall q :: q in hs && !hs[q].free ==> q in hs' && hs'[q] == hs[q]
    requires p - H in hs && hs[p - H].free && p - H in hs' && !hs'[p - H].free
    ensures SlotsLive(hs', slots) && SlotsLive(hs', slots + [p])
  {
    var slots' := slots + [p];
    forall i, j | 0 <= i < j < |slots'| && slots'[i] != NULL
      ensures slots'[i] != slots'[j]
    {
      if j == |slots| {
        assert !hs[slots[i] - H].free;
      }
    }
  }

  /** duManagedFree keeps the handles live: the freed block is held by slot `s`
      alone, every other USED block is left as it was, and the slot becomes NULL. */
  lemma SlotsLiveAfterFree(hs: map<int, Header>, hs': map<int, Header>, slots: seq<int>, s: int)
    requires SlotsLive(hs, slots) && 0 <= s < |slots| && slots[s] != NULL
    requires forall q :: q in hs && !hs[q].free && q != slots[s] - H ==> q in hs' && hs'[q] == hs[q]
    ensures SlotsLive(hs', slots[s := NULL])
  {
    var slots' := slots[s := NULL];
    forall i | 0 <= i < |slots'| && slots'[i] != NULL
      ensures slots'[i] - H in hs' && !hs'[slots'[i] - H].free
    {
      if i < s {
        assert slots[i] != slots[s];
      } else {
        assert i != s && slots[s] != slots[i];
      }
    }
  }

  /** The walk at the start of minorCollection's relink: the last node of the
      row's list, NULL when the list is empty; that node is FREE and ends the list. */
  method ListTail(hs: map<int, Header>, head: int, ghost blocks: seq<int>, ghost chain: seq<int>) returns (tail: int)
    requires ArenaOk(hs, head, blocks, chain, H)
    ensures tail == (if chain == [] then NULL else Last(chain))
    ensures chain != [] ==> tail in hs && hs[tail].free && hs[tail].next == NULL
  {
    WellFormedWalkable(hs, head, blocks, chain, H);
    tail := FindTail(hs, head, chain);
    if chain != [] {
      TailOfList(hs, head, blocks, chain, H);
    }
  }

  /** The last node of a version 1 / version 3 free list is FREE and ends the list. */
  lemma TailOfList(hs: map<int, Header>, head: int, blocks: seq<int>, chain: seq<int>, hdr: int)
    requires ArenaOk(hs, head, blocks, chain, hdr) && chain != []
    ensures Last(chain) in hs && hs[Last(chain)].free && hs[Last(chain)].next == NULL
  {
    var n := |chain| - 1;
    assert chain[n] in hs && hs[chain[n]].next == NextOf(chain, n);
    ElemsMembers(chain);
    assert chain[n] in chain;
  }

  /** Line 28 declares each row COLS = HEAP_SIZE / 8 bytes long, and the two rows
      together 2 * COLS bytes, but duInitMalloc and minorCollection make a row one
      block ending at HEAP_SIZE: the block and every header later cut from it past
      byte COLS lie outside its row, and past byte 2 * COLS outside `heap`. */
  lemma InitialBlockOverrunsRows()
    ensures BlockEnd(InitialHeaders(H), 0, H) == HEAP_SIZE
    ensures COLS < ROWS * COLS < HEAP_SIZE
  {
  }
}

/** Version 2 of the allocator: version 1's arena with 24-byte headers
    {int free; int size; int managedIndex; memoryBlockHeader *next;}, a table of
    handles (`managedList`), and two list splices whose statements store nothing
    (lines 184 and 214), which this model keeps as written. */
module Version2 {
  import opened Fit
  import opened Blocks
  import opened Search

  /** sizeof(memoryBlockHeader) on an LP64 target: three ints, padding, a pointer. */
  const H := 24

  /** HEAP_SIZE / 8, the slots of `managedList`. */
  const SLOTS := HEAP_SIZE / 8

  /** The globals `heap`, `freeListHead`, `allocationStrategy`, `managedList` and
      `managedListSize`. Headers are keyed by their offset in `heap`; the
      `managedIndex` field of a header is kept in its own map beside them. */
  class Heap {
    var headers: map<int, Header>
    var freeListHead: int
    var allocationStrategy: int
    /** The `managedIndex` fields that have been written, by header offset. */
    var managedIndex: map<int, int>
    /** `managedList`: the payload offset held by each slot, NULL when empty. */
    const managedList: array<int>
    var managedListSize: int
    /** The blocks in address order, as the dump walk visits them. */
    ghost var blocks: seq<int>
    /** The nodes reachable from `freeListHead` by `next`, in list order. */
    ghost var chain: seq<int>

    /** The handle table has its declared 128 slots and a count within them. */
    ghost predicate TableOk()
      reads this
    {
      managedList.Length == SLOTS && 0 <= managedListSize <= SLOTS
    }

    /** The arena is tiled and the reachable list is acyclic and ascending. Unlike
        version 1, a FREE block need not be on the list, and the last node of a
        list cut short by line 184 is USED. */
    ghost predicate Valid()
      reads this
    {
      WellFormed(headers, freeListHead, blocks, chain, H) && TableOk()
    }

    /** The list is the last block alone, FREE. Every state reached from
        duInitMalloc has this shape (see `Malloc` and `Free`). */
    ghost predicate OnlyTail()
      reads this
    {
      |blocks| > 0 && chain == [Last(blocks)] && Last(blocks) in headers && headers[Last(blocks)].free
    }

    /** The globals before duInitMalloc: no block, an empty list, every slot NULL. */
    constructor ()
      ensures TableOk() && managedListSize == 0
      ensures forall i :: 0 <= i < SLOTS ==> managedList[i] == NULL
      ensures headers == map[] && freeListHead == NULL && allocationStrategy == FIRST_FIT
      ensures managedIndex == map[] && blocks == [] && chain == []
      ensures fresh(managedList)
    {
      headers := map[];
      freeListHead := NULL;
      allocationStrategy := FIRST_FIT;
      managedIndex := map[];
      managedList := new int[SLOTS](_ => NULL);
      managedListSize := 0;
      blocks := [];
      chain := [];
    }

    /** duInitMalloc: records the strategy, zeroes the arena and makes it one FREE
        block of HEAP_SIZE - H bytes at offset 0, the only node of the list. The
        handle table is left as it was. */
    method InitMalloc(strategy: int)
      requires TableOk()
      modifies this
      ensures Valid() && OnlyTail()
      ensures allocationStrategy == strategy
      ensures headers == map[0 := Header(true, HEAP_SIZE - H, NULL)] && freeListHead == 0
      ensures managedIndex == map[0 := 0]
      ensures blocks == [0] && chain == [0]
      ensures managedListSize == old(managedListSize)
    {
      allocationStrategy := strategy;
      headers := map[];
      managedIndex := map[];
      headers := headers[0 := Header(true, HEAP_SIZE - H, NULL)];
      managedIndex := managedIndex[0 := 0];
      freeListHead := 0;
      blocks := [0];
      chain := [0];
      InitialArenaOk(H);
    }

    /** duManagedInitMalloc: duInitMalloc, then every slot NULL and the count 0. */
    method ManagedInitMalloc(strategy: int)
      requires TableOk()
      modifies this, managedList
      ensures Valid() && OnlyTail()
      ensures allocationStrategy == strategy
      ensures headers == map[0 := Header(true, HEAP_SIZE - H, NULL)] && freeListHead == 0
      ensures managedIndex == map[0 := 0]
      ensures blocks == [0] && chain == [0]
      ensures managedListSize == 0
      ensures forall i :: 0 <= i < SLOTS ==> managedList[i] == NULL
    {
      InitMalloc(strategy);
      for i := 0 to SLOTS
        modifies managedList
        invariant forall m :: 0 <= m < i ==> managedList[m] == NULL
      {
        managedList[i] := NULL;
      }
      managedListSize := 0;
    }

    /** duMalloc as written: the request is rounded up to a multiple of 8 and a node
        with room for it and a header is picked as in version 1, but there is no
        NULL check (line 173), so a fitting node must exist. The remainder replaces
        the node only when it is the head; otherwise the predecessor keeps pointing
        at the node (line 184), which is now USED with `next` NULL, so the list ends
        there. From a state reached by duInitMalloc the head is always chosen. */
    method Malloc(size: int) returns (p: int)
      requires Valid()
      requires allocationStrategy == FIRST_FIT || allocationStrategy == BEST_FIT
      requires 0 <= size <= MaxRequest(H)
      requires Select(allocationStrategy, ChainSizes(headers, chain), RoundUp(size) + H).Some?
      modifies this
      ensures var b := RoundUp(size);
        var s := Select(old(allocationStrategy), ChainSizes(old(headers), old(chain)), b + H);
        s.Some? ==>
          var k := s.value;
          && p == old(chain)[k] + H
          && headers == SplitHeaders(old(headers), old(chain), k, b, H, false)
          && freeListHead == SplitHead(old(freeListHead), old(chain), k, b, H)
          && chain == TruncatedChain(old(chain), k, Remainder(old(chain)[k], b, H))
      ensures Valid() && allocationStrategy == old(allocationStrategy)
      ensures managedIndex == old(managedIndex) && managedListSize == old(managedListSize)
      ensures Aligned(p) && p - H in headers && !headers[p - H].free
      ensures size <= headers[p - H].size < size + 8
      ensures old(OnlyTail()) ==> OnlyTail()
    {
      var blockSize := RoundUp(size);
      var totalSize := blockSize + H;
      WellFormedWalkable(headers, freeListHead, blocks, chain, H);
      ghost var sizes := ChainSizes(headers, chain);
      var currentBlock, prevBlock := FindFit(headers, freeListHead, chain, allocationStrategy, totalSize);
      ghost var s := Select(allocationStrategy, sizes, totalSize);
      assert s == Select(old(allocationStrategy), ChainSizes(old(headers), old(chain)), RoundUp(size) + H);
      ghost var k := s.value;
      SelectedNodeFits(allocationStrategy, sizes, totalSize);
      Split(k, currentBlock, prevBlock, blockSize);
      p := currentBlock + H;
    }

    /** The split at the end of duMalloc, with line 184's statement that stores nothing. */
    method Split(ghost k: int, currentBlock: int, prevBlock: int, blockSize: int)
      requires Valid()
      requires 0 <= k < |chain| && currentBlock == chain[k] && prevBlock == PrevOf(chain, k)
      requires blockSize >= 0 && blockSize % 8 == 0 && headers[currentBlock].size >= blockSize + H
      modifies this
      ensures Valid() && allocationStrategy == old(allocationStrategy)
      ensures managedIndex == old(managedIndex) && managedListSize == old(managedListSize)
      ensures headers == SplitHeaders(old(headers), old(chain), k, blockSize, H, false)
      ensures freeListHead == SplitHead(old(freeListHead), old(chain), k, blockSize, H)
      ensures chain == TruncatedChain(old(chain), k, Remainder(currentBlock, blockSize, H))
      ensures old(OnlyTail()) ==> OnlyTail()
      ensures Aligned(currentBlock + H) && headers[currentBlock] == Header(false, blockSize, NULL)
    {
      SplitStepNoRelink(headers, freeListHead, blocks, chain, k, blockSize, H);
      AddMultiplesOf8(currentBlock, H);
      var totalSize := blockSize + H;
      var newBlock := currentBlock + totalSize;
      assert newBlock == Remainder(currentBlock, blockSize, H);
      var hs := headers;
      var head := freeListHead;
      hs := hs[newBlock := Header(true, hs[currentBlock].size - totalSize, hs[currentBlock].next)];
      if prevBlock == NULL {
        head := newBlock;
      } else {
        // line 184 evaluates `prevBlock->next` and discards it
      }
      hs := hs[currentBlock := Header(false, blockSize, NULL)];
      assert hs == SplitHeaders(headers, chain, k, blockSize, H, false);
      if OnlyTail() {
        OnlyTailAfterSplit(headers, freeListHead, blocks, chain, blockSize);
      }
      headers, freeListHead, blocks, chain := hs, head, InsertAt(blocks, IndexOf(blocks, currentBlock) + 1, newBlock), TruncatedChain(chain, k, newBlock);
    }

    /** duFree as written: walks to the first node not below the block, marks the
        block FREE and points it at that node. With a node before it the block is
        spliced in after that node; below every node, line 214 leaves the head
        alone, so the block is FREE but not on the list. From a state reached by
        duInitMalloc every freed block is below the only node, so the list never
        changes and freed blocks are never handed out again. */
    method Free(ptr: int)
      requires Valid()
      requires ptr - H in headers && !headers[ptr - H].free && ptr - H !in chain
      modifies this
      ensures Valid() && allocationStrategy == old(allocationStrategy)
      ensures managedIndex == old(managedIndex) && managedListSize == old(managedListSize)
      ensures var blk := ptr - H;
        var i := InsertionPoint(old(chain), blk);
        && headers == FreeHeaders(old(headers), old(chain), i, blk)
        && freeListHead == old(freeListHead)
        && chain == (if i == 0 then old(chain) else InsertAt(old(chain), i, blk))
        && blocks == old(blocks)
      ensures headers[ptr - H].free
      ensures headers.Keys == old(headers).Keys && forall q :: q in headers ==> headers[q].size == old(headers)[q].size
      ensures old(OnlyTail()) ==> OnlyTail() && chain == old(chain)
    {
      var blockHeader := ptr - H;
      WellFormedWalkable(headers, freeListHead, blocks, chain, H);
      var currentBlock, prevBlock := FindInsertionPoint(headers, freeListHead, chain, blockHeader);
      ghost var i := InsertionPoint(chain, blockHeader);
      ghost var hs0, head0, chain0 := headers, freeListHead, chain;
      ghost var target := FreeHeaders(headers, chain, i, blockHeader);
      InsertionPointOrdered(chain, blockHeader);
      headers := headers[blockHeader := headers[blockHeader].(free := true, next := currentBlock)];
      if prevBlock == NULL {
        // line 214 evaluates `freeListHead` and discards it
        assert i == 0;
      } else {
        assert i > 0 && prevBlock == chain[i - 1];
        headers := headers[prevBlock := headers[prevBlock].(next := blockHeader)];
      }
      assert headers == target;
      if i > 0 {
        chain := InsertAt(chain, i, blockHeader);
      }
      FreeWellFormedNoHead(hs0, head0, blocks, chain0, blockHeader, H);
      FreeHeadersAt(hs0, chain0, i, blockHeader);
      if old(OnlyTail()) {
        OnlyTailAfterFree(hs0, head0, blocks, chain0, blockHeader);
      }
    }

    /** duManagedMalloc: allocates, then records the payload in slot
        `managedListSize`, writes that index into the block's `managedIndex` and
        returns the slot. With the table full it returns NULL and leaves the table
        as it was, but the block stays allocated. */
    method ManagedMalloc(size: int) returns (slot: int)
      requires Valid()
      requires allocationStrategy == FIRST_FIT || allocationStrategy == BEST_FIT
      requires 0 <= size <= MaxRequest(H)
      requires Select(allocationStrategy, ChainSizes(headers, chain), RoundUp(size) + H).Some?
      modifies this, managedList
      ensures var b := RoundUp(size);
        var s := Select(old(allocationStrategy), ChainSizes(old(headers), old(chain)), b + H);
        s.Some? ==>
          var k := s.value;
          && headers == SplitHeaders(old(headers), old(chain), k, b, H, false)
          && freeListHead == SplitHead(old(freeListHead), old(chain), k, b, H)
          && chain == TruncatedChain(old(chain), k, Remainder(old(chain)[k], b, H))
          && (old(managedListSize) < SLOTS ==>
                && slot == old(managedListSize) && 0 <= slot < managedList.Length
                && managedList[slot] == old(chain)[k] + H && managedIndex == old(managedIndex)[old(chain)[k] := slot])
      ensures Valid() && allocationStrategy == old(allocationStrategy)
      ensures old(managedListSize) < SLOTS ==> managedListSize == old(managedListSize) + 1
      ensures old(managedListSize) == SLOTS ==> slot == NULL && managedListSize == old(managedListSize) && managedIndex == old(managedIndex)
      ensures forall i :: 0 <= i < SLOTS && i != slot ==> managedList[i] == old(managedList[i])
      ensures slot != NULL ==> managedList[slot] - H in headers && !headers[managedList[slot] - H].free
      ensures old(OnlyTail()) ==> OnlyTail()
    {
      var ptr := Malloc(size);
      if ptr == NULL {
        slot := NULL;
        return;
      }
      if managedListSize < SLOTS {
        managedList[managedListSize] := ptr;
        var blockHeader := ptr - H;
        managedIndex := managedIndex[blockHeader := managedListSize];
        managedListSize := managedListSize + 1;
      } else {
        slot := NULL;
        return;
      }
      slot := managedListSize - 1;
    }

    /** duManagedFree: a NULL slot is left alone; otherwise its block is freed and
        the slot set to NULL, so a second call on the same slot changes nothing. */
    method ManagedFree(slot: int)
      requires Valid() && 0 <= slot < SLOTS
      requires managedList[slot] != NULL ==>
        var blk := managedList[slot] - H;
        blk in headers && !headers[blk].free && blk !in chain
      modifies this, managedList
      ensures Valid() && allocationStrategy == old(allocationStrategy)
      ensures managedList[slot] == NULL
      ensures forall i :: 0 <= i < SLOTS && i != slot ==> managedList[i] == old(managedList[i])
      ensures managedListSize == old(managedListSize) && managedIndex == old(managedIndex)
      ensures old(managedList[slot]) == NULL ==>
        headers == old(headers) && freeListHead == old(freeListHead) && chain == old(chain) && blocks == old(blocks)
      ensures old(managedList[slot]) != NULL ==>
        var blk := old(managedList[slot]) - H;
        var i := InsertionPoint(old(chain), blk);
        && headers == FreeHeaders(old(headers), old(chain), i, blk)
        && freeListHead == old(freeListHead)
        && chain == (if i == 0 then old(chain) else InsertAt(old(chain), i, blk))
        && blocks == old(blocks)
      ensures old(OnlyTail()) ==> OnlyTail()
    {
      if managedList[slot] == NULL {
        return;
      }
      Free(managedList[slot]);
      managedList[slot] := NULL;
    }
  }

  /** A split of the only node, when it is the last block, leaves the remainder as
      the last block and the only node. */
  lemma OnlyTailAfterSplit(hs: map<int, Header>, head: int, blocks: seq<int>, chain: seq<int>, b: int)
    requires WellFormed(hs, head, blocks, chain, H)
    requires |blocks| > 0 && chain == [Last(blocks)]
    requires b >= 0 && b % 8 == 0 && hs[chain[0]].size >= b + H
    ensures var r := Remainder(chain[0], b, H);
      && Last(blocks) in blocks
      && Last(InsertAt(blocks, IndexOf(blocks, Last(blocks)) + 1, r)) == r
      && TruncatedChain(chain, 0, r) == [r]
      && SplitHeaders(hs, chain, 0, b, H, false)[r].free
  {
    var r := Remainder(chain[0], b, H);
    var n := |blocks| - 1;
    assert blocks[n] == Last(blocks);
    AscendingIncreasing(blocks);
    CutInside(hs, blocks, n, r, H);
    var j := IndexOf(blocks, Last(blocks));
    assert j == n;
    SplitHeadersAt(hs, chain, 0, b, H, false);
  }

  /** A block other than the last lies below it, so with the last block as the only
      node duFree's walk stops at once and the list keeps that node alone. */
  lemma OnlyTailAfterFree(hs: map<int, Header>, head: int, blocks: seq<int>, chain: seq<int>, blk: int)
    requires WellFormed(hs, head, blocks, chain, H)
    requires |blocks| > 0 && chain == [Last(blocks)] && Last(blocks) in hs && hs[Last(blocks)].free
    requires blk in hs && !hs[blk].free
    ensures InsertionPoint(chain, blk) == 0
    ensures FreeHeaders(hs, chain, 0, blk)[Last(blocks)] == hs[Last(blocks)]
  {
    ElemsMembers(blocks);
    AscendingIncreasing(blocks);
    var j :| 0 <= j < |blocks| && blocks[j] == blk;
    assert j < |blocks| - 1;
    assert blk < Last(blocks);
    assert chain[0] >= blk;
    assert chain[1..] == [];
    FreeHeadersAt(hs, chain, 0, blk);
  }

  // ---------------------------------------------------------------------------
  // Inputs on which the statements at lines 173, 184 and 214 go wrong

  /** Line 214: after duInitMalloc, duMalloc(8) and freeing that block, block 0
      is FREE but the list from the head is still the remainder alone, so block 0
      is never handed out again and the arena no longer has every FREE block on
      its list. */
  lemma FreeBelowHeadIsLost()
    ensures var hs1 := SplitHeaders(InitialHeaders(H), [0], 0, RoundUp(8), H, false);
      var head1 := SplitHead(0, [0], 0, RoundUp(8), H);
      var hs2 := FreeHeaders(hs1, [head1], InsertionPoint([head1], 0), 0);
      && head1 == 32 && InsertionPoint([head1], 0) == 0
      && hs2[0].free && Linked(hs2, head1, [32])
      && !FreeExactly(hs2, [32])
  {
    var hs1 := SplitHeaders(InitialHeaders(H), [0], 0, RoundUp(8), H, false);
    assert RoundUp(8) == 8;
    assert hs1 == map[0 := Header(false, 8, NULL), 32 := Header(true, HEAP_SIZE - H - 32, NULL)];
    var hs2 := FreeHeaders(hs1, [32], 0, 0);
    FreeHeadersAt(hs1, [32], 0, 0);
    assert hs2[0].free;
    assert 0 !in Elems([32]) by { ElemsMembers([32]); }
  }

  /** Two FREE blocks, 0 (40 bytes, first on the list) and 64 (936 bytes). */
  function TwoNodeHeaders(): map<int, Header> {
    map[0 := Header(true, 40, 64), 64 := Header(true, 936, NULL)]
  }

  /** Line 184: a request of 24 bytes does not fit the first node, so first fit
      takes the second; the first node keeps pointing at it though it is now USED,
      and the FREE remainder at 112 cannot be reached from the head. */
  lemma SplitPastHeadDropsRemainder()
    ensures ArenaOk(TwoNodeHeaders(), 0, [0, 64], [0, 64], H)
    ensures FirstFit(ChainSizes(TwoNodeHeaders(), [0, 64]), RoundUp(24) + H) == Some(1)
    ensures var hs' := SplitHeaders(TwoNodeHeaders(), [0, 64], 1, RoundUp(24), H, false);
      && Remainder(64, RoundUp(24), H) == 112 && hs'[112].free
      && Linked(hs', 0, [0, 64]) && !hs'[64].free
      && !FreeExactly(hs', [0, 64])
  {
    var hs := TwoNodeHeaders();
    assert RoundUp(24) == 24;
    ElemsMembers([0, 64]);
    assert Elems([0, 64]) == {0, 64};
    assert hs.Keys == {0, 64};
    assert Tiles(hs, [0, 64], H);
    var sizes := ChainSizes(hs, [0, 64]);
    assert sizes == [40, 936];
    assert FirstFitFrom(sizes, 48, 1) == Some(1);
    var hs' := SplitHeaders(hs, [0, 64], 1, 24, H, false);
    assert hs' == map[0 := Header(true, 40, 64), 64 := Header(false, 24, NULL), 112 := Header(true, 888, NULL)];
    assert hs'[112].free && 112 !in Elems([0, 64]);
  }

  /** Line 173: right after duInitMalloc a request of 1000 bytes fits no node
      under either strategy, so the walk ends with NULL, which duMalloc then
      dereferences. */
  lemma NoFitAfterInit()
    ensures 1000 <= MaxRequest(H)
    ensures Select(FIRST_FIT, ChainSizes(InitialHeaders(H), [0]), RoundUp(1000) + H).None?
    ensures Select(BEST_FIT, ChainSizes(InitialHeaders(H), [0]), RoundUp(1000) + H).None?
  {
    assert RoundUp(1000) == 1000;
    assert ChainSizes(InitialHeaders(H), [0]) == [HEAP_SIZE - H];
  }
}

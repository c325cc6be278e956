/** Version 1 of the allocator: one arena, a free list kept in address order,
    first-fit or best-fit placement, and 16-byte headers
    {int free; int size; memoryBlockHeader *next;}. */
module Version1 {
  import opened Fit
  import opened Blocks
  import opened Search

  /** sizeof(memoryBlockHeader) on an LP64 target: two ints and a pointer. */
  const H := 16

  /** The globals `heap`, `freeListHead` and `allocationStrategy`. The bytes of
      `heap` are seen through the headers they hold, keyed by offset; payload
      bytes are not modelled. */
  class Heap {
    var headers: map<int, Header>
    var freeListHead: int
    var allocationStrategy: int
    /** The blocks in address order, as the dump walk visits them. */
    ghost var blocks: seq<int>
    /** The free-list nodes in list order, as `next` visits them. */
    ghost var chain: seq<int>

    ghost predicate Valid()
      reads this
    {
      ArenaOk(headers, freeListHead, blocks, chain, H)
    }

    /** The globals before duInitMalloc: zeroed storage, no block, an empty list. */
    constructor ()
      ensures headers == map[] && freeListHead == NULL && allocationStrategy == FIRST_FIT
      ensures blocks == [] && chain == []
    {
      headers := map[];
      freeListHead := NULL;
      allocationStrategy := FIRST_FIT;
      blocks := [];
      chain := [];
    }

    /** duInitMalloc: records the strategy, zeroes the arena and makes it one FREE
        block of HEAP_SIZE - H bytes at offset 0, the only node of the list. */
    method InitMalloc(strategy: int)
      modifies this
      ensures Valid()
      ensures allocationStrategy == strategy
      ensures headers == map[0 := Header(true, HEAP_SIZE - H, NULL)] && freeListHead == 0
      ensures blocks == [0] && chain == [0]
    {
      allocationStrategy := strategy;
      headers := map[];
      headers := headers[0 := Header(true, HEAP_SIZE - H, NULL)];
      freeListHead := 0;
      blocks := [0];
      chain := [0];
      InitialArenaOk(H);
    }

    /** duMalloc: rounds the request up to a multiple of 8, picks a node with room
        for it and a header under the strategy, and splits it. With no such node
        it returns NULL and changes nothing. Otherwise the remainder takes the
        node's place in the list and the node becomes USED with exactly the
        rounded size; its payload offset is returned. */
    method Malloc(size: int) returns (p: int)
      requires Valid()
      requires allocationStrategy == FIRST_FIT || allocationStrategy == BEST_FIT
      requires 0 <= size <= MaxRequest(H)
      modifies this
      ensures Valid() && allocationStrategy == old(allocationStrategy)
      ensures var b := RoundUp(size);
        var s := Select(old(allocationStrategy), ChainSizes(old(headers), old(chain)), b + H);
        && (s.None? ==> p == NULL && headers == old(headers) && freeListHead == old(freeListHead)
                        && chain == old(chain) && blocks == old(blocks))
        && (s.Some? ==>
              var k := s.value;
              && p == old(chain)[k] + H
              && headers == SplitHeaders(old(headers), old(chain), k, b, H, true)
              && freeListHead == SplitHead(old(freeListHead), old(chain), k, b, H)
              && chain == old(chain)[k := Remainder(old(chain)[k], b, H)])
      ensures p != NULL ==> p - H in headers && !headers[p - H].free && size <= headers[p - H].size < size + 8
      ensures p != NULL ==> Aligned(p)
    {
      var blockSize := RoundUp(size);
      var totalSize := blockSize + H;
      WellFormedWalkable(headers, freeListHead, blocks, chain, H);
      ghost var sizes := ChainSizes(headers, chain);
      var currentBlock, prevBlock := FindFit(headers, freeListHead, chain, allocationStrategy, totalSize);
      ghost var s := Select(allocationStrategy, sizes, totalSize);
      assert s == Select(old(allocationStrategy), ChainSizes(old(headers), old(chain)), RoundUp(size) + H);
      if currentBlock == NULL {
        assert s.None?;
        return NULL;
      }
      assert s.Some?;
      ghost var k := s.value;
      SelectedNodeFits(allocationStrategy, sizes, totalSize);
      Split(k, currentBlock, prevBlock, blockSize);
      p := currentBlock + H;
    }

    /** The split at the end of duMalloc: node `k` of the list (at `currentBlock`,
        after `prevBlock`) is cut after `blockSize` payload bytes; the remainder
        becomes a FREE block that takes the node's place in the list. */
    method Split(ghost k: int, currentBlock: int, prevBlock: int, blockSize: int)
      requires Valid()
      requires 0 <= k < |chain| && currentBlock == chain[k] && prevBlock == PrevOf(chain, k)
      requires blockSize >= 0 && blockSize % 8 == 0 && headers[currentBlock].size >= blockSize + H
      modifies this
      ensures Valid() && allocationStrategy == old(allocationStrategy)
      ensures headers == SplitHeaders(old(headers), old(chain), k, blockSize, H, true)
      ensures freeListHead == SplitHead(old(freeListHead), old(chain), k, blockSize, H)
      ensures chain == old(chain)[k := Remainder(currentBlock, blockSize, H)]
      ensures Aligned(currentBlock + H) && headers[currentBlock] == Header(false, blockSize, NULL)
    {
      var hs, head := SplitRow(headers, freeListHead, blocks, chain, k, currentBlock, prevBlock, blockSize, H);
      ghost var after := SplitBlocks(blocks, chain, k, blockSize, H);
      headers, freeListHead := hs, head;
      blocks, chain := after.0, after.1;
    }

    /** duFree: walks to the first node not below the block, marks the block FREE,
        points it at that node and splices it in after the node before (or at the
        head). The list grows by this one block in address order; no size changes
        and no neighbours are merged. */
    method Free(ptr: int)
      requires Valid()
      requires ptr - H in headers && !headers[ptr - H].free
      modifies this
      ensures Valid() && allocationStrategy == old(allocationStrategy)
      ensures var blk := ptr - H;
        var i := InsertionPoint(old(chain), blk);
        && headers == FreeHeaders(old(headers), old(chain), i, blk)
        && freeListHead == (if i == 0 then blk else old(freeListHead))
        && chain == InsertAt(old(chain), i, blk)
        && blocks == old(blocks)
      ensures headers[ptr - H].free && |chain| == |old(chain)| + 1
      ensures headers.Keys == old(headers).Keys && forall q :: q in headers ==> headers[q].size == old(headers)[q].size
    {
      var blockHeader := ptr - H;
      WellFormedWalkable(headers, freeListHead, blocks, chain, H);
      var currentBlock, prevBlock := FindInsertionPoint(headers, freeListHead, chain, blockHeader);
      ghost var i := InsertionPoint(chain, blockHeader);
      ghost var hs0, head0, chain0 := headers, freeListHead, chain;
      ghost var target := FreeHeaders(headers, chain, i, blockHeader);
      headers := headers[blockHeader := headers[blockHeader].(free := true, next := currentBlock)];
      if prevBlock == NULL {
        assert i == 0;
        freeListHead := blockHeader;
      } else {
        assert i > 0 && prevBlock == chain[i - 1];
        headers := headers[prevBlock := headers[prevBlock].(next := blockHeader)];
      }
      assert headers == target;
      chain := InsertAt(chain, i, blockHeader);
      FreeStep(hs0, head0, blocks, chain0, blockHeader, H);
    }
  }
}

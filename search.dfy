/** The free-list walks of duMalloc, duFree and minorCollection, and the split
    of duMalloc in versions 1 and 3. They work on one arena's headers as a value,
    so they are shared by the versions; each walk follows `next` from the head
    with a `prev`/`cur` pair of cursors. */
module Search {
  import opened Fit
  import opened Blocks

  /** The list as the walks see it: linked from `head`, every node a real offset. */
  ghost predicate Walkable(hs: map<int, Header>, head: int, chain: seq<int>) {
    Linked(hs, head, chain) && forall i :: 0 <= i < |chain| ==> chain[i] >= 0
  }

  lemma WellFormedWalkable(hs: map<int, Header>, head: int, blocks: seq<int>, chain: seq<int>, hdr: int)
    requires WellFormed(hs, head, blocks, chain, hdr)
    ensures Walkable(hs, head, chain)
  {
    AscendingIncreasing(blocks);
    ElemsMembers(blocks);
    forall i | 0 <= i < |chain| ensures chain[i] >= 0 {
      assert chain[i] in hs;
      var m :| 0 <= m < |blocks| && blocks[m] == chain[i];
      assert blocks[0] <= blocks[m];
    }
  }

  /** The first-fit loop: stops at the first node with room for `total` bytes. */
  method FindFirstFit(hs: map<int, Header>, head: int, ghost chain: seq<int>, total: int) returns (cur: int, prev: int)
    requires Walkable(hs, head, chain)
    ensures var f := FirstFit(ChainSizes(hs, chain), total);
      && (f.None? ==> cur == NULL)
      && (f.Some? ==> cur == chain[f.value] && prev == PrevOf(chain, f.value))
  {
    ghost var sizes := ChainSizes(hs, chain);
    cur := head;
    prev := NULL;
    ghost var i := 0;
    while cur != NULL && hs[cur].size < total
      invariant 0 <= i <= |chain|
      invariant cur == NodeAt(chain, i) && prev == PrevOf(chain, i)
      invariant FirstFitFrom(sizes, total, i) == FirstFit(sizes, total)
      decreases |chain| - i
    {
      prev := cur;
      cur := hs[cur].next;
      i := i + 1;
    }
  }

  /** The best-fit loop: walks the whole list, and a fitting node replaces the
      best so far only when it is strictly smaller. */
  method FindBestFit(hs: map<int, Header>, head: int, ghost chain: seq<int>, total: int) returns (cur: int, prev: int)
    requires Walkable(hs, head, chain)
    ensures var b := BestFit(ChainSizes(hs, chain), total);
      && (b.None? ==> cur == NULL)
      && (b.Some? ==> cur == chain[b.value] && prev == PrevOf(chain, b.value))
  {
    ghost var sizes := ChainSizes(hs, chain);
    cur := head;
    prev := NULL;
    var best, prevBest := NULL, NULL;
    ghost var i := 0;
    ghost var bi: Option<nat> := None;
    while cur != NULL
      invariant 0 <= i <= |chain|
      invariant cur == NodeAt(chain, i) && prev == PrevOf(chain, i)
      invariant bi == BestFitOf(sizes, total, i)
      invariant bi.None? ==> best == NULL
      invariant bi.Some? ==> bi.value < i && best == chain[bi.value] && prevBest == PrevOf(chain, bi.value)
      decreases |chain| - i
    {
      assert sizes[i] == hs[cur].size;
      if hs[cur].size >= total {
        if best == NULL || hs[cur].size < hs[best].size {
          best := cur;
          prevBest := prev;
          bi := Some(i);
        }
      }
      prev := cur;
      cur := hs[cur].next;
      i := i + 1;
    }
    cur := best;
    prev := prevBest;
  }

  /** duMalloc's search under `strategy`: the node `Select` picks and the node before it. */
  method FindFit(hs: map<int, Header>, head: int, ghost chain: seq<int>, strategy: int, total: int) returns (cur: int, prev: int)
    requires Walkable(hs, head, chain)
    requires strategy == FIRST_FIT || strategy == BEST_FIT
    ensures var s := Select(strategy, ChainSizes(hs, chain), total);
      && (s.None? ==> cur == NULL)
      && (s.Some? ==> cur == chain[s.value] && prev == PrevOf(chain, s.value))
  {
    if strategy == FIRST_FIT {
      cur, prev := FindFirstFit(hs, head, chain, total);
    } else {
      cur, prev := FindBestFit(hs, head, chain, total);
    }
  }

  /** duFree's walk: stops at the first node whose address is not below `blk`. */
  method FindInsertionPoint(hs: map<int, Header>, head: int, ghost chain: seq<int>, blk: int) returns (cur: int, prev: int)
    requires Walkable(hs, head, chain)
    ensures var i := InsertionPoint(chain, blk);
      cur == NodeAt(chain, i) && prev == PrevOf(chain, i)
  {
    cur := head;
    prev := NULL;
    ghost var i := 0;
    while cur != NULL && cur < blk
      invariant 0 <= i <= |chain|
      invariant cur == NodeAt(chain, i) && prev == PrevOf(chain, i)
      invariant InsertionPoint(chain, blk) == i + InsertionPoint(chain[i..], blk)
      decreases |chain| - i
    {
      assert chain[i..][1..] == chain[i + 1..];
      prev := cur;
      cur := hs[cur].next;
      i := i + 1;
    }
  }

  /** minorCollection's walk to the last node of the list (NULL when it is empty). */
  method FindTail(hs: map<int, Header>, head: int, ghost chain: seq<int>) returns (prev: int)
    requires Walkable(hs, head, chain)
    ensures prev == (if chain == [] then NULL else Last(chain))
  {
    var cur := head;
    prev := NULL;
    ghost var i := 0;
    while cur != NULL
      invariant 0 <= i <= |chain|
      invariant cur == NodeAt(chain, i) && prev == PrevOf(chain, i)
      decreases |chain| - i
    {
      prev := cur;
      cur := hs[cur].next;
      i := i + 1;
    }
  }

  /** The new address order and list order after node `k` is split. */
  ghost function SplitBlocks(blocks: seq<int>, chain: seq<int>, k: int, b: int, hdr: int): (seq<int>, seq<int>)
    requires 0 <= k < |chain| && chain[k] in blocks
  {
    var r := Remainder(chain[k], b, hdr);
    (InsertAt(blocks, IndexOf(blocks, chain[k]) + 1, r), chain[k := r])
  }

  /** The header updates of the split in duMalloc, on one row: the remainder
      header is written after the chosen block, the node before it (or the list
      head) is pointed at the remainder, and the chosen block becomes USED with
      `blockSize` bytes. The row stays a well-formed arena. */
  method SplitRow(hs: map<int, Header>, head: int, ghost blocks: seq<int>, ghost chain: seq<int>, ghost k: int,
                  currentBlock: int, prevBlock: int, blockSize: int, hdr: int)
    returns (hs': map<int, Header>, head': int)
    requires ArenaOk(hs, head, blocks, chain, hdr)
    requires 0 <= k < |chain| && currentBlock == chain[k] && prevBlock == PrevOf(chain, k)
    requires blockSize >= 0 && blockSize % 8 == 0 && hs[currentBlock].size >= blockSize + hdr
    ensures currentBlock in blocks && Aligned(currentBlock + hdr)
    ensures hs' == SplitHeaders(hs, chain, k, blockSize, hdr, true) && head' == SplitHead(head, chain, k, blockSize, hdr)
    ensures ArenaOk(hs', head', SplitBlocks(blocks, chain, k, blockSize, hdr).0, SplitBlocks(blocks, chain, k, blockSize, hdr).1, hdr)
    ensures hs'[currentBlock] == Header(false, blockSize, NULL)
    ensures hs[currentBlock].free && forall q :: q in hs && !hs[q].free ==> q in hs' && hs'[q] == hs[q]
  {
    SplitStep(hs, head, blocks, chain, k, blockSize, hdr);
    SplitKeepsUsed(hs, head, blocks, chain, k, blockSize, hdr);
    AddMultiplesOf8(currentBlock, hdr);
    var totalSize := blockSize + hdr;
    var newBlock := currentBlock + totalSize;
    assert newBlock == Remainder(currentBlock, blockSize, hdr);
    hs' := hs[newBlock := Header(true, hs[currentBlock].size - totalSize, hs[currentBlock].next)];
    head' := head;
    if prevBlock == NULL {
      head' := newBlock;
    } else {
      hs' := hs'[prevBlock := hs'[prevBlock].(next := newBlock)];
    }
    hs' := hs'[currentBlock := Header(false, blockSize, NULL)];
    assert hs' == SplitHeaders(hs, chain, k, blockSize, hdr, true);
  }
}

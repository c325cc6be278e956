/** The block layer of one arena, stated on values: block headers keyed by
    their byte offset from the arena start, the free-list head, and the two
    orders the headers are read in (physical address order, free-list order).
    The allocator classes keep these as fields and prove their methods
    against the transformers defined here. */
module Blocks {
  import opened Fit

  /** HEAP_SIZE, the bytes of one arena. */
  const HEAP_SIZE := 128 * 8

  /** The C NULL pointer; every header offset is non-negative. */
  const NULL := -1

  /** One `memoryBlockHeader`: `free` is FREE (1) or USED (0), `size` the payload
      bytes after the header, `next` the offset of the next free-list node.
      The `managedIndex` field of version 2 and version 3 is kept by their
      allocators, beside the headers. */
  datatype Header = Header(free: bool, size: int, next: int)

  /** sizeof(memoryBlockHeader) for an LP64 target: a positive multiple of 8. */
  predicate HeaderSize(hdr: int) {
    0 < hdr < HEAP_SIZE && hdr % 8 == 0
  }

  /** An offset on an 8-byte boundary, as every header and payload is. */
  predicate Aligned(x: int) {
    x % 8 == 0
  }

  function Last(s: seq<int>): int
    requires |s| > 0
  {
    s[|s| - 1]
  }

  /** The elements of a sequence, as a set. */
  ghost function Elems(s: seq<int>): set<int>
    decreases |s|
  {
    if s == [] then {} else {s[0]} + Elems(s[1..])
  }

  /** `Elems` holds exactly the elements of the sequence. */
  lemma {:induction false} ElemsMembers(s: seq<int>)
    ensures forall x :: x in Elems(s) <==> x in s
    decreases |s|
  {
    if s != [] {
      ElemsMembers(s[1..]);
      forall x ensures x in Elems(s) <==> x in s {
        if x in s && x != s[0] {
          var i :| 0 <= i < |s| && s[i] == x;
          assert s[1..][i - 1] == x;
        }
      }
    }
  }

  /** Strictly ascending, stated step by step: each element below the next. */
  ghost predicate Ascending(s: seq<int>)
    decreases |s|
  {
    |s| < 2 || (s[0] < s[1] && Ascending(s[1..]))
  }

  lemma AscendingNeighbours(s: seq<int>, i: int)
    requires Ascending(s) && 0 <= i < |s| - 1
    ensures s[i] < s[i + 1]
  {
    AscendingIncreasing(s);
  }

  /** Strictly ascending, stated pairwise. */
  ghost predicate Increasing(s: seq<int>) {
    forall i, j :: 0 <= i < j < |s| ==> s[i] < s[j]
  }

  /** The two statements of ascending order agree. */
  lemma {:induction false} AscendingIncreasing(s: seq<int>)
    ensures Ascending(s) <==> Increasing(s)
    decreases |s|
  {
    if |s| >= 2 {
      AscendingIncreasing(s[1..]);
      if Ascending(s) {
        forall i, j | 0 <= i < j < |s| ensures s[i] < s[j] {
          assert s[j] == s[1..][j - 1];
          if i > 0 {
            assert s[i] == s[1..][i - 1];
          } else if j > 1 {
            assert s[1] == s[1..][0];
          }
        }
      }
      if Increasing(s) {
        forall i, j | 0 <= i < j < |s[1..]| ensures s[1..][i] < s[1..][j] {
          assert s[1..][i] == s[i + 1] && s[1..][j] == s[j + 1];
        }
      }
    }
  }

  /** Offset just past the block whose header is at `p`. */
  function BlockEnd(hs: map<int, Header>, p: int, hdr: int): int
    requires p in hs
  {
    p + hdr + hs[p].size
  }

  /** `blocks` lists every header in address order and the blocks tile the arena:
      the first starts at 0, each starts where the previous ends, the last ends at
      HEAP_SIZE, and sizes are non-negative multiples of 8. */
  ghost predicate Tiles(hs: map<int, Header>, blocks: seq<int>, hdr: int) {
    && |blocks| > 0
    && blocks[0] == 0
    && Ascending(blocks)
    && hs.Keys == Elems(blocks)
    && (forall i :: 0 <= i < |blocks| ==> blocks[i] in hs && hs[blocks[i]].size >= 0 && hs[blocks[i]].size % 8 == 0)
    && Contiguous(hs, blocks, hdr)
    && BlockEnd(hs, Last(blocks), hdr) == HEAP_SIZE
  }

  /** Each block starts where the one before it ends, stated step by step. */
  ghost predicate Contiguous(hs: map<int, Header>, blocks: seq<int>, hdr: int)
    decreases |blocks|
  {
    |blocks| < 2 || (blocks[0] in hs && blocks[1] == BlockEnd(hs, blocks[0], hdr) && Contiguous(hs, blocks[1..], hdr))
  }

  /** Each block starts where the one before it ends, stated pairwise. */
  ghost predicate Adjacent(hs: map<int, Header>, blocks: seq<int>, hdr: int) {
    forall i :: 0 <= i < |blocks| - 1 ==> blocks[i] in hs && blocks[i + 1] == BlockEnd(hs, blocks[i], hdr)
  }

  lemma ContiguousAt(hs: map<int, Header>, blocks: seq<int>, hdr: int, i: int)
    requires Contiguous(hs, blocks, hdr) && 0 <= i < |blocks| - 1
    ensures blocks[i] in hs && blocks[i + 1] == BlockEnd(hs, blocks[i], hdr)
  {
    ContiguousAdjacent(hs, blocks, hdr);
  }

  /** The two statements of contiguity agree. */
  lemma {:induction false} ContiguousAdjacent(hs: map<int, Header>, blocks: seq<int>, hdr: int)
    ensures Contiguous(hs, blocks, hdr) <==> Adjacent(hs, blocks, hdr)
    decreases |blocks|
  {
    if |blocks| >= 2 {
      var tail := blocks[1..];
      ContiguousAdjacent(hs, tail, hdr);
      if Contiguous(hs, blocks, hdr) {
        forall i | 0 <= i < |blocks| - 1 ensures blocks[i] in hs && blocks[i + 1] == BlockEnd(hs, blocks[i], hdr) {
          if i > 0 {
            assert blocks[i] == tail[i - 1] && blocks[i + 1] == tail[i];
          }
        }
      }
      if Adjacent(hs, blocks, hdr) {
        forall i | 0 <= i < |tail| - 1 ensures tail[i] in hs && tail[i + 1] == BlockEnd(hs, tail[i], hdr) {
          assert tail[i] == blocks[i + 1] && tail[i + 1] == blocks[i + 2];
        }
      }
    }
  }

  /** The `next` value of the i-th node of a free list. */
  function NextOf(chain: seq<int>, i: int): int
    requires 0 <= i < |chain|
  {
    if i + 1 < |chain| then chain[i + 1] else NULL
  }

  /** Following `next` from `head` visits exactly `chain` and then reaches NULL. */
  ghost predicate Linked(hs: map<int, Header>, head: int, chain: seq<int>) {
    && head == (if chain == [] then NULL else chain[0])
    && (forall i :: 0 <= i < |chain| ==> chain[i] in hs)
    && (forall i {:trigger hs[chain[i]]} :: 0 <= i < |chain| ==> hs[chain[i]].next == NextOf(chain, i))
  }

  /** The free list holds exactly the headers marked FREE. */
  ghost predicate FreeExactly(hs: map<int, Header>, chain: seq<int>) {
    forall p {:trigger hs[p]} :: p in hs ==> (hs[p].free <==> p in Elems(chain))
  }

  /** The shape every version keeps: tiled arena, acyclic list in ascending address order. */
  ghost predicate WellFormed(hs: map<int, Header>, head: int, blocks: seq<int>, chain: seq<int>, hdr: int) {
    HeaderSize(hdr) && Tiles(hs, blocks, hdr) && Linked(hs, head, chain) && Ascending(chain)
  }

  /** The arena invariant of version 1 and of version 3's current arena. */
  ghost predicate ArenaOk(hs: map<int, Header>, head: int, blocks: seq<int>, chain: seq<int>, hdr: int) {
    WellFormed(hs, head, blocks, chain, hdr) && FreeExactly(hs, chain)
  }

  /** Sizes of the free-list nodes in list order. */
  function ChainSizes(hs: map<int, Header>, chain: seq<int>): (r: seq<int>)
    requires forall i :: 0 <= i < |chain| ==> chain[i] in hs
    ensures |r| == |chain| && forall i {:trigger r[i]} :: 0 <= i < |chain| ==> r[i] == hs[chain[i]].size
  {
    seq(|chain|, i requires 0 <= i < |chain| => hs[chain[i]].size)
  }

  function InsertAt(s: seq<int>, i: int, x: int): (r: seq<int>)
    requires 0 <= i <= |s|
    ensures |r| == |s| + 1 && r[i] == x
    ensures forall m :: 0 <= m < i ==> r[m] == s[m]
    ensures forall m :: i < m < |r| ==> r[m] == s[m - 1]
  {
    s[..i] + [x] + s[i..]
  }

  /** The position of `x` in `s`. */
  ghost function IndexOf(s: seq<int>, x: int): (i: int)
    requires x in s
    ensures 0 <= i < |s| && s[i] == x
  {
    if s[0] == x then 0 else 1 + IndexOf(s[1..], x)
  }

  /** The arena right after duInitMalloc: one FREE block spanning it all. */
  function InitialHeaders(hdr: int): map<int, Header> {
    map[0 := Header(true, HEAP_SIZE - hdr, NULL)]
  }

  lemma InitialArenaOk(hdr: int)
    requires HeaderSize(hdr)
    ensures ArenaOk(InitialHeaders(hdr), 0, [0], [0], hdr)
  {
  }

  // ---------------------------------------------------------------------------
  // Splitting a chosen node (duMalloc)

  /** Where a split of the block at `c` after `b` payload bytes puts the remainder's header. */
  function Remainder(c: int, b: int, hdr: int): int {
    c + hdr + b
  }

  /** Headers after duMalloc serves a rounded request `b` from node `chain[k]`:
      a FREE header for the remainder at `chain[k] + hdr + b` taking over the
      node's `next`, the predecessor redirected to it when `relink` holds, and
      the node itself USED with size `b` and `next` NULL. */
  function SplitHeaders(hs: map<int, Header>, chain: seq<int>, k: int, b: int, hdr: int, relink: bool): map<int, Header>
    requires 0 <= k < |chain| && chain[k] in hs && (k > 0 ==> chain[k - 1] in hs)
  {
    var c := chain[k];
    var r := Remainder(c, b, hdr);
    var withRest := hs[r := Header(true, hs[c].size - (b + hdr), hs[c].next)];
    var linked := if k > 0 && relink then withRest[chain[k - 1] := withRest[chain[k - 1]].(next := r)] else withRest;
    linked[c := Header(false, b, NULL)]
  }

  /** The list head after a split: the remainder when the head node was chosen. */
  function SplitHead(head: int, chain: seq<int>, k: int, b: int, hdr: int): int
    requires 0 <= k < |chain|
  {
    if k == 0 then Remainder(chain[0], b, hdr) else head
  }

  /** What a split writes, header by header. */
  lemma SplitHeadersAt(hs: map<int, Header>, chain: seq<int>, k: int, b: int, hdr: int, relink: bool)
    requires 0 <= k < |chain| && chain[k] in hs && (k > 0 ==> chain[k - 1] in hs && chain[k - 1] != chain[k])
    requires hdr + b > 0 && Remainder(chain[k], b, hdr) !in hs
    ensures var c, r, hs' := chain[k], Remainder(chain[k], b, hdr), SplitHeaders(hs, chain, k, b, hdr, relink);
      && hs'.Keys == hs.Keys + {r}
      && hs'[c] == Header(false, b, NULL)
      && hs'[r] == Header(true, hs[c].size - (b + hdr), hs[c].next)
      && (k > 0 && relink ==> hs'[chain[k - 1]] == hs[chain[k - 1]].(next := r))
      && (forall p :: p in hs && p != c && !(k > 0 && relink && p == chain[k - 1]) ==> hs'[p] == hs[p])
      && (forall p :: p in hs && p != c ==> hs'[p].size == hs[p].size)
  {
  }

  /** Inserting a value between its neighbours keeps a sequence increasing. */
  lemma InsertAscending(s: seq<int>, i: int, x: int)
    requires Ascending(s) && 0 <= i <= |s|
    requires i > 0 ==> s[i - 1] < x
    requires i < |s| ==> x < s[i]
    ensures Ascending(InsertAt(s, i, x))
  {
    AscendingIncreasing(s);
    var s' := InsertAt(s, i, x);
    forall m, n | 0 <= m < n < |s'| ensures s'[m] < s'[n] {
      if n < i {
        assert s'[m] == s[m] && s'[n] == s[n];
      } else if n == i {
        assert s'[m] == s[m] && s[m] <= s[i - 1];
      } else if m == i {
        assert s'[n] == s[n - 1] && s[n - 1] >= s[i];
      } else if m < i {
        assert s'[m] == s[m] && s'[n] == s[n - 1];
      } else {
        assert s'[m] == s[m - 1] && s'[n] == s[n - 1];
      }
    }
    AscendingIncreasing(InsertAt(s, i, x));
  }

  /** The same, stated on `Elems`. */
  lemma ElemsInsert(s: seq<int>, i: int, x: int)
    requires 0 <= i <= |s|
    ensures Elems(InsertAt(s, i, x)) == Elems(s) + {x}
  {
    var t := InsertAt(s, i, x);
    InsertMembers(s, i, x);
    ElemsMembers(s);
    ElemsMembers(t);
    forall y ensures y in Elems(t) <==> y in Elems(s) + {x} {
      assert y in Elems(t) <==> y in t;
      assert y in Elems(s) <==> y in s;
    }
  }

  /** The elements of `InsertAt(s, i, x)` are those of `s` and `x`. */
  lemma InsertMembers(s: seq<int>, i: int, x: int)
    requires 0 <= i <= |s|
    ensures forall p :: p in InsertAt(s, i, x) <==> p == x || p in s
  {
    assert InsertAt(s, i, x) == s[..i] + [x] + s[i..];
    assert s == s[..i] + s[i..];
  }

  /** Inserting a block boundary at `r` inside block `blocks[j]` keeps the tiling,
      for any header map that differs from `hs` only in the two affected sizes. */
  lemma TilesAfterCut(hs: map<int, Header>, hs': map<int, Header>, blocks: seq<int>, j: int, r: int, hdr: int)
    requires HeaderSize(hdr) && Tiles(hs, blocks, hdr)
    requires 0 <= j < |blocks| && blocks[j] + hdr <= r < BlockEnd(hs, blocks[j], hdr) && r !in hs
    requires hs'.Keys == hs.Keys + {r}
    requires forall p :: p in hs && p != blocks[j] ==> hs'[p].size == hs[p].size
    requires hs'[blocks[j]].size == r - blocks[j] - hdr && hs'[blocks[j]].size % 8 == 0
    requires hs'[r].size == BlockEnd(hs, blocks[j], hdr) - r - hdr && hs'[r].size >= 0 && hs'[r].size % 8 == 0
    ensures Tiles(hs', InsertAt(blocks, j + 1, r), hdr)
  {
    var blocks' := InsertAt(blocks, j + 1, r);
    CutInside(hs, blocks, j, r, hdr);
    InsertAscending(blocks, j + 1, r);
    ElemsInsert(blocks, j + 1, r);
    CutSizes(hs, hs', blocks, j, r, hdr);
    ContiguousAdjacent(hs, blocks, hdr);
    CutEnds(hs, hs', blocks, j, r, hdr);
    ContiguousAdjacent(hs', blocks', hdr);
  }

  lemma CutSizes(hs: map<int, Header>, hs': map<int, Header>, blocks: seq<int>, j: int, r: int, hdr: int)
    requires 0 <= j < |blocks|
    requires forall i :: 0 <= i < |blocks| ==> blocks[i] in hs && hs[blocks[i]].size >= 0 && hs[blocks[i]].size % 8 == 0
    requires hs'.Keys == hs.Keys + {r}
    requires forall p :: p in hs && p != blocks[j] ==> hs'[p].size == hs[p].size
    requires hs'[blocks[j]].size >= 0 && hs'[blocks[j]].size % 8 == 0
    requires hs'[r].size >= 0 && hs'[r].size % 8 == 0
    ensures var blocks' := InsertAt(blocks, j + 1, r);
      forall m :: 0 <= m < |blocks'| ==> blocks'[m] in hs' && hs'[blocks'[m]].size >= 0 && hs'[blocks'[m]].size % 8 == 0
  {
    var blocks' := InsertAt(blocks, j + 1, r);
    forall m | 0 <= m < |blocks'| ensures blocks'[m] in hs' && hs'[blocks'[m]].size >= 0 && hs'[blocks'[m]].size % 8 == 0 {
      if m < j + 1 {
        assert blocks'[m] == blocks[m];
      } else if m > j + 1 {
        assert blocks'[m] == blocks[m - 1];
      }
    }
  }

  lemma CutEnds(hs: map<int, Header>, hs': map<int, Header>, blocks: seq<int>, j: int, r: int, hdr: int)
    requires 0 <= j < |blocks| && Ascending(blocks)
    requires forall i :: 0 <= i < |blocks| ==> blocks[i] in hs
    requires forall i :: 0 <= i < |blocks| - 1 ==> blocks[i + 1] == BlockEnd(hs, blocks[i], hdr)
    requires BlockEnd(hs, Last(blocks), hdr) == HEAP_SIZE
    requires hs'.Keys == hs.Keys + {r}
    requires forall p :: p in hs && p != blocks[j] ==> hs'[p].size == hs[p].size
    requires hs'[blocks[j]].size == r - blocks[j] - hdr
    requires hs'[r].size == BlockEnd(hs, blocks[j], hdr) - r - hdr
    requires r != blocks[j]
    ensures var blocks' := InsertAt(blocks, j + 1, r);
      && (forall m :: 0 <= m < |blocks'| - 1 ==> blocks'[m + 1] == BlockEnd(hs', blocks'[m], hdr))
      && BlockEnd(hs', Last(blocks'), hdr) == HEAP_SIZE
  {
    AscendingIncreasing(blocks);
    var blocks' := InsertAt(blocks, j + 1, r);
    forall m | 0 <= m < |blocks'| - 1 ensures blocks'[m + 1] == BlockEnd(hs', blocks'[m], hdr) {
      if m < j {
        assert blocks'[m] == blocks[m] && blocks'[m + 1] == blocks[m + 1];
        assert BlockEnd(hs', blocks[m], hdr) == BlockEnd(hs, blocks[m], hdr);
      } else if m == j {
        assert blocks'[m] == blocks[j] && blocks'[m + 1] == r;
      } else if m == j + 1 {
        assert blocks'[m] == r && blocks'[m + 1] == blocks[j + 1];
      } else {
        assert blocks'[m] == blocks[m - 1] && blocks'[m + 1] == blocks[m];
        assert BlockEnd(hs', blocks[m - 1], hdr) == BlockEnd(hs, blocks[m - 1], hdr);
      }
    }
    if j + 1 < |blocks| {
      assert Last(blocks') == Last(blocks);
    } else {
      assert Last(blocks') == r;
    }
  }

  /** The cut point of a split is a fresh offset strictly inside the chosen block. */
  lemma CutInside(hs: map<int, Header>, blocks: seq<int>, j: int, r: int, hdr: int)
    requires HeaderSize(hdr) && Tiles(hs, blocks, hdr)
    requires 0 <= j < |blocks| && blocks[j] < r < BlockEnd(hs, blocks[j], hdr)
    ensures r !in hs
    ensures j + 1 < |blocks| ==> r < blocks[j + 1]
  {
    ElemsMembers(blocks);
    AscendingIncreasing(blocks);
    if j + 1 < |blocks| {
      ContiguousAt(hs, blocks, hdr, j);
    }
    forall m | 0 <= m < |blocks| ensures blocks[m] != r {
      if m <= j {
        assert blocks[m] <= blocks[j];
      } else {
        assert blocks[m] >= blocks[j + 1];
      }
    }
  }

  /** Blocks after the split: the remainder follows the chosen block. */
  lemma SplitTiles(hs: map<int, Header>, blocks: seq<int>, chain: seq<int>, k: int, j: int, b: int, hdr: int, relink: bool)
    requires HeaderSize(hdr) && Tiles(hs, blocks, hdr)
    requires 0 <= k < |chain| && chain[k] in hs && (k > 0 ==> chain[k - 1] in hs && chain[k - 1] != chain[k])
    requires 0 <= j < |blocks| && blocks[j] == chain[k]
    requires b >= 0 && b % 8 == 0 && hs[chain[k]].size >= b + hdr
    ensures Remainder(chain[k], b, hdr) !in hs
    ensures Tiles(SplitHeaders(hs, chain, k, b, hdr, relink), InsertAt(blocks, j + 1, Remainder(chain[k], b, hdr)), hdr)
  {
    var c, r := chain[k], Remainder(chain[k], b, hdr);
    CutInside(hs, blocks, j, r, hdr);
    SplitHeadersAt(hs, chain, k, b, hdr, relink);
    var hs' := SplitHeaders(hs, chain, k, b, hdr, relink);
    assert hs[blocks[j]].size % 8 == 0;
    AddMultiplesOf8(b, hdr);
    SubMultiplesOf8(hs[c].size, b + hdr);
    assert hs'[r].size == hs[c].size - (b + hdr);
    TilesAfterCut(hs, hs', blocks, j, r, hdr);
  }

  /** Replacing node `k` by `r` keeps the list linked when `r` takes over the
      node's `next` and the predecessor (or the head) is redirected to `r`. */
  lemma ReplaceLinked(hs: map<int, Header>, hs': map<int, Header>, head: int, chain: seq<int>, k: int, r: int)
    requires Linked(hs, head, chain) && Ascending(chain) && 0 <= k < |chain|
    requires r in hs' && hs'[r].next == hs[chain[k]].next
    requires k > 0 ==> chain[k - 1] in hs' && hs'[chain[k - 1]].next == r
    requires forall i :: 0 <= i < |chain| && i != k && i != k - 1 ==> chain[i] in hs' && hs'[chain[i]].next == hs[chain[i]].next
    ensures Linked(hs', if k == 0 then r else head, chain[k := r])
  {
    AscendingIncreasing(chain);
    var chain' := chain[k := r];
    forall i | 0 <= i < |chain'| ensures chain'[i] in hs' && hs'[chain'[i]].next == NextOf(chain', i) {
      if i == k - 1 {
        assert NextOf(chain', i) == r;
      } else if i != k {
        assert chain'[i] == chain[i];
      }
    }
  }

  lemma ReplaceAscending(s: seq<int>, k: int, x: int)
    requires Ascending(s) && 0 <= k < |s|
    requires k > 0 ==> s[k - 1] < x
    requires k + 1 < |s| ==> x < s[k + 1]
    ensures Ascending(s[k := x])
  {
    AscendingIncreasing(s);
    var s' := s[k := x];
    forall m, n | 0 <= m < n < |s'| ensures s'[m] < s'[n] {
      if m == k {
        assert s[k + 1] <= s[n];
      } else if n == k {
        assert s[m] <= s[k - 1];
      }
    }
    AscendingIncreasing(s[k := x]);
  }

  /** With the predecessor redirected, the remainder takes the chosen node's place
      in the list, which stays ascending (version 1 and version 3). */
  lemma SplitLinked(hs: map<int, Header>, head: int, blocks: seq<int>, chain: seq<int>, k: int, b: int, hdr: int)
    requires WellFormed(hs, head, blocks, chain, hdr)
    requires 0 <= k < |chain|
    requires b >= 0 && hs[chain[k]].size >= b + hdr
    ensures var r := Remainder(chain[k], b, hdr);
      var hs' := SplitHeaders(hs, chain, k, b, hdr, true);
      Linked(hs', SplitHead(head, chain, k, b, hdr), chain[k := r]) && Ascending(chain[k := r])
  {
    AscendingIncreasing(chain);
    var c := chain[k];
    var r := Remainder(c, b, hdr);
    var hs' := SplitHeaders(hs, chain, k, b, hdr, true);
    RemainderBeforeNext(hs, blocks, chain, k, b, hdr);
    ElemsMembers(blocks);
    var j :| 0 <= j < |blocks| && blocks[j] == c;
    CutInside(hs, blocks, j, r, hdr);
    SplitHeadersAt(hs, chain, k, b, hdr, true);
    forall i | 0 <= i < |chain| && i != k && i != k - 1 ensures chain[i] in hs' && hs'[chain[i]].next == hs[chain[i]].next {
      assert chain[i] != c && chain[i] != r;
    }
    ReplaceLinked(hs, hs', head, chain, k, r);
    ReplaceAscending(chain, k, r);
    AscendingIncreasing(chain[k := r]);
  }

  /** Without the redirect (version 2, line 184) the list ends at the chosen node,
      now USED with `next` NULL, unless the head itself was chosen. */
  lemma SplitLinkedNoRelink(hs: map<int, Header>, head: int, blocks: seq<int>, chain: seq<int>, k: int, b: int, hdr: int)
    requires WellFormed(hs, head, blocks, chain, hdr)
    requires 0 <= k < |chain|
    requires b >= 0 && hs[chain[k]].size >= b + hdr
    ensures var hs' := SplitHeaders(hs, chain, k, b, hdr, false);
      var chain' := TruncatedChain(chain, k, Remainder(chain[k], b, hdr));
      Linked(hs', SplitHead(head, chain, k, b, hdr), chain') && Ascending(chain')
  {
    if k == 0 {
      SplitLinked(hs, head, blocks, chain, k, b, hdr);
      assert SplitHeaders(hs, chain, k, b, hdr, false) == SplitHeaders(hs, chain, k, b, hdr, true);
      assert TruncatedChain(chain, k, Remainder(chain[k], b, hdr)) == chain[k := Remainder(chain[k], b, hdr)];
    } else {
      var c := chain[k];
      var r := Remainder(c, b, hdr);
      var hs' := SplitHeaders(hs, chain, k, b, hdr, false);
      assert TruncatedChain(chain, k, r) == chain[..k + 1];
      ElemsMembers(blocks);
      var j :| 0 <= j < |blocks| && blocks[j] == c;
      CutInside(hs, blocks, j, r, hdr);
      AscendingNeighbours(chain, k - 1);
      SplitHeadersAt(hs, chain, k, b, hdr, false);
      TruncateLinked(hs, hs', head, chain, k);
    }
  }

  /** Ending the list at node `k` (its `next` now NULL) keeps it linked and ascending
      when no header before it changed. */
  lemma TruncateLinked(hs: map<int, Header>, hs': map<int, Header>, head: int, chain: seq<int>, k: int)
    requires Linked(hs, head, chain) && Ascending(chain) && 0 < k < |chain|
    requires chain[k] in hs' && hs'[chain[k]].next == NULL
    requires forall p :: p in hs && p != chain[k] ==> p in hs' && hs'[p] == hs[p]
    ensures Linked(hs', head, chain[..k + 1]) && Ascending(chain[..k + 1])
  {
    AscendingIncreasing(chain);
    var chain' := chain[..k + 1];
    forall i | 0 <= i < |chain'| ensures chain'[i] in hs' && hs'[chain'[i]].next == NextOf(chain', i) {
      if i < k {
        assert chain'[i] == chain[i] && chain[i] != chain[k];
      }
    }
    AscendingIncreasing(chain');
  }

  /** The remainder header lies strictly between the chosen node and the next one. */
  lemma RemainderBeforeNext(hs: map<int, Header>, blocks: seq<int>, chain: seq<int>, k: int, b: int, hdr: int)
    requires HeaderSize(hdr) && Tiles(hs, blocks, hdr)
    requires Ascending(chain) && 0 <= k < |chain| && forall i :: 0 <= i < |chain| ==> chain[i] in hs
    requires b >= 0 && hs[chain[k]].size >= b + hdr
    ensures chain[k] < Remainder(chain[k], b, hdr)
    ensures k + 1 < |chain| ==> Remainder(chain[k], b, hdr) < chain[k + 1]
  {
    AscendingIncreasing(chain);
    AscendingIncreasing(blocks);
    if k + 1 < |chain| {
      var c, n := chain[k], chain[k + 1];
      ElemsMembers(blocks);
      var jc :| 0 <= jc < |blocks| && blocks[jc] == c;
      var jn :| 0 <= jn < |blocks| && blocks[jn] == n;
      assert jc < jn;
      ContiguousAt(hs, blocks, hdr, jc);
      assert n >= blocks[jc + 1];
    }
  }

  /** The chosen node leaves the FREE set and the list; the remainder joins both. */
  lemma {:induction false} SplitFreeExactly(hs: map<int, Header>, head: int, blocks: seq<int>, chain: seq<int>, k: int, b: int, hdr: int)
    requires ArenaOk(hs, head, blocks, chain, hdr)
    requires 0 <= k < |chain|
    requires b >= 0 && hs[chain[k]].size >= b + hdr
    ensures FreeExactly(SplitHeaders(hs, chain, k, b, hdr, true), chain[k := Remainder(chain[k], b, hdr)])
  {
    AscendingIncreasing(chain);
    var c := chain[k];
    var r := Remainder(c, b, hdr);
    var hs' := SplitHeaders(hs, chain, k, b, hdr, true);
    var chain' := chain[k := r];
    ElemsMembers(blocks);
    var j :| 0 <= j < |blocks| && blocks[j] == c;
    CutInside(hs, blocks, j, r, hdr);
    SplitHeadersAt(hs, chain, k, b, hdr, true);
    ElemsMembers(chain);
    ElemsMembers(chain');
    forall p | p in hs' ensures hs'[p].free <==> p in chain' {
      if p != c && p != r {
        assert p in chain' <==> p in chain by {
          if p in chain {
            var i :| 0 <= i < |chain| && chain[i] == p;
            assert chain'[i] == p;
          }
          if p in chain' {
            var i :| 0 <= i < |chain'| && chain'[i] == p;
            assert chain[i] == p;
          }
        }
      } else if p == c {
        forall i | 0 <= i < |chain'| ensures chain'[i] != c {
          if i != k {
            assert chain[i] != chain[k];
          }
        }
      } else {
        assert chain'[k] == r;
      }
    }
  }

  /** Every effect of a version 1 / version 3 split together. */
  lemma SplitArenaOk(hs: map<int, Header>, head: int, blocks: seq<int>, chain: seq<int>, k: int, j: int, b: int, hdr: int)
    requires ArenaOk(hs, head, blocks, chain, hdr)
    requires 0 <= k < |chain| && 0 <= j < |blocks| && blocks[j] == chain[k]
    requires b >= 0 && b % 8 == 0 && hs[chain[k]].size >= b + hdr
    ensures var r := Remainder(chain[k], b, hdr);
      ArenaOk(SplitHeaders(hs, chain, k, b, hdr, true), SplitHead(head, chain, k, b, hdr),
              InsertAt(blocks, j + 1, r), chain[k := r], hdr)
  {
    if k > 0 {
      AscendingNeighbours(chain, k - 1);
    }
    SplitTiles(hs, blocks, chain, k, j, b, hdr, true);
    SplitLinked(hs, head, blocks, chain, k, b, hdr);
    SplitFreeExactly(hs, head, blocks, chain, k, b, hdr);
  }

  /** What a version 1 / version 3 duMalloc split leaves: the invariant, with the
      remainder following the chosen block, which is USED, aligned and sized `b`. */
  lemma SplitStep(hs: map<int, Header>, head: int, blocks: seq<int>, chain: seq<int>, k: int, b: int, hdr: int)
    requires ArenaOk(hs, head, blocks, chain, hdr)
    requires 0 <= k < |chain|
    requires b >= 0 && b % 8 == 0 && hs[chain[k]].size >= b + hdr
    ensures var c := chain[k];
      var r := Remainder(c, b, hdr);
      var hs' := SplitHeaders(hs, chain, k, b, hdr, true);
      && c in blocks && c >= 0 && c % 8 == 0 && (k > 0 ==> chain[k - 1] >= 0)
      && ArenaOk(hs', SplitHead(head, chain, k, b, hdr), InsertAt(blocks, IndexOf(blocks, c) + 1, r), chain[k := r], hdr)
      && hs'[c] == Header(false, b, NULL)
  {
    var c := chain[k];
    assert c in hs;
    ElemsMembers(blocks);
    var j := IndexOf(blocks, c);
    BlocksInside(hs, blocks, hdr);
    BlockAligned(hs, blocks, hdr, j);
    if k > 0 {
      AscendingNeighbours(chain, k - 1);
      assert chain[k - 1] in hs;
      assert blocks[IndexOf(blocks, chain[k - 1])] >= 0;
    }
    SplitArenaOk(hs, head, blocks, chain, k, j, b, hdr);
  }

  /** The split writes only the chosen node, which is FREE, the FREE node before
      it and the new remainder header, so every USED block keeps its header. */
  lemma SplitKeepsUsed(hs: map<int, Header>, head: int, blocks: seq<int>, chain: seq<int>, k: int, b: int, hdr: int)
    requires ArenaOk(hs, head, blocks, chain, hdr)
    requires 0 <= k < |chain|
    requires b >= 0 && hs[chain[k]].size >= b + hdr
    ensures hs[chain[k]].free
    ensures var hs' := SplitHeaders(hs, chain, k, b, hdr, true);
      forall q :: q in hs && !hs[q].free ==> q in hs' && hs'[q] == hs[q]
  {
    var c := chain[k];
    assert c in hs;
    ElemsMembers(blocks);
    ElemsMembers(chain);
    CutInside(hs, blocks, IndexOf(blocks, c), Remainder(c, b, hdr), hdr);
    if k > 0 {
      AscendingNeighbours(chain, k - 1);
      assert chain[k - 1] in hs && hs[chain[k - 1]].free;
    }
    assert hs[c].free;
    SplitHeadersAt(hs, chain, k, b, hdr, true);
  }

  /** The list after a split that leaves the predecessor pointing at the chosen
      node (version 2, line 184): the remainder replaces the node only when it was
      the head; otherwise the list now ends at the chosen node. */
  function TruncatedChain(chain: seq<int>, k: int, r: int): seq<int>
    requires 0 <= k < |chain|
  {
    if k == 0 then chain[0 := r] else chain[..k + 1]
  }

  /** What a version 2 duMalloc split leaves: the shape invariant, with the
      remainder following the chosen block in address order, the list truncated
      after the chosen node, and that node USED, aligned and sized `b`. */
  lemma SplitStepNoRelink(hs: map<int, Header>, head: int, blocks: seq<int>, chain: seq<int>, k: int, b: int, hdr: int)
    requires WellFormed(hs, head, blocks, chain, hdr)
    requires 0 <= k < |chain|
    requires b >= 0 && b % 8 == 0 && hs[chain[k]].size >= b + hdr
    ensures var c := chain[k];
      var r := Remainder(c, b, hdr);
      var hs' := SplitHeaders(hs, chain, k, b, hdr, false);
      && c in blocks && c >= 0 && c % 8 == 0 && (k > 0 ==> chain[k - 1] >= 0)
      && WellFormed(hs', SplitHead(head, chain, k, b, hdr), InsertAt(blocks, IndexOf(blocks, c) + 1, r), TruncatedChain(chain, k, r), hdr)
      && hs'[c] == Header(false, b, NULL) && hs'[r].free
  {
    var c := chain[k];
    assert c in hs;
    ElemsMembers(blocks);
    var j := IndexOf(blocks, c);
    BlocksInside(hs, blocks, hdr);
    BlockAligned(hs, blocks, hdr, j);
    if k > 0 {
      AscendingNeighbours(chain, k - 1);
      assert chain[k - 1] in hs;
      assert blocks[IndexOf(blocks, chain[k - 1])] >= 0;
    }
    SplitTiles(hs, blocks, chain, k, j, b, hdr, false);
    SplitLinkedNoRelink(hs, head, blocks, chain, k, b, hdr);
    SplitHeadersAt(hs, chain, k, b, hdr, false);
  }

  // ---------------------------------------------------------------------------
  // Splicing a freed block back in (duFree)

  /** The free-list node at position `i`, NULL past the end. */
  function NodeAt(chain: seq<int>, i: int): int
    requires 0 <= i <= |chain|
  {
    if i < |chain| then chain[i] else NULL
  }

  /** The node before position `i`, NULL at the front. */
  function PrevOf(chain: seq<int>, i: int): int
    requires 0 <= i <= |chain|
  {
    if i == 0 then NULL else chain[i - 1]
  }

  /** Where duFree's walk stops: the number of leading nodes whose address is below `blk`. */
  function InsertionPoint(chain: seq<int>, blk: int): (r: int)
    ensures 0 <= r <= |chain|
  {
    if chain == [] || chain[0] >= blk then 0 else 1 + InsertionPoint(chain[1..], blk)
  }

  /** The walk passes exactly the nodes before the stopping point, all below `blk`,
      and stops at a node that is not below `blk` (or at NULL). */
  lemma {:induction false} InsertionPointSplits(chain: seq<int>, blk: int)
    ensures var i := InsertionPoint(chain, blk);
      (forall m :: 0 <= m < i ==> chain[m] < blk) && (i < |chain| ==> chain[i] >= blk)
  {
    if chain != [] && chain[0] < blk {
      InsertionPointSplits(chain[1..], blk);
      forall m | 1 <= m < InsertionPoint(chain, blk) ensures chain[m] < blk {
        assert chain[m] == chain[1..][m - 1];
      }
    }
  }

  /** In an ascending list every node from the stopping point on is at or above `blk`. */
  lemma InsertionPointOrdered(chain: seq<int>, blk: int)
    requires Ascending(chain)
    ensures var i := InsertionPoint(chain, blk);
      (forall m :: 0 <= m < i ==> chain[m] < blk) && (forall m :: i <= m < |chain| ==> chain[m] >= blk)
  {
    AscendingIncreasing(chain);
    InsertionPointSplits(chain, blk);
  }

  /** Headers after duFree splices `blk` in at position `i`: the block becomes FREE
      and points at the node it stops at, and the node before (if any) points at it. */
  function FreeHeaders(hs: map<int, Header>, chain: seq<int>, i: int, blk: int): map<int, Header>
    requires 0 <= i <= |chain| && blk in hs && (i > 0 ==> chain[i - 1] in hs)
  {
    var freed := hs[blk := hs[blk].(free := true, next := NodeAt(chain, i))];
    if i > 0 then freed[chain[i - 1] := freed[chain[i - 1]].(next := blk)] else freed
  }

  /** What a splice writes, header by header. */
  lemma FreeHeadersAt(hs: map<int, Header>, chain: seq<int>, i: int, blk: int)
    requires 0 <= i <= |chain| && blk in hs && (i > 0 ==> chain[i - 1] in hs && chain[i - 1] != blk)
    ensures var hs' := FreeHeaders(hs, chain, i, blk);
      && hs'.Keys == hs.Keys
      && hs'[blk] == Header(true, hs[blk].size, NodeAt(chain, i))
      && (i > 0 ==> hs'[chain[i - 1]] == hs[chain[i - 1]].(next := blk))
      && (forall p :: p in hs && p != blk && !(i > 0 && p == chain[i - 1]) ==> hs'[p] == hs[p])
  {
  }

  /** The tiling reads only the keys and sizes of the headers. */
  lemma TilesSameSizes(hs: map<int, Header>, hs': map<int, Header>, blocks: seq<int>, hdr: int)
    requires Tiles(hs, blocks, hdr)
    requires hs'.Keys == hs.Keys && forall p :: p in hs ==> hs'[p].size == hs[p].size
    ensures Tiles(hs', blocks, hdr)
  {
    assert forall i :: 0 <= i < |blocks| ==> BlockEnd(hs', blocks[i], hdr) == BlockEnd(hs, blocks[i], hdr);
    ContiguousAdjacent(hs, blocks, hdr);
    ContiguousAdjacent(hs', blocks, hdr);
  }

  /** Splicing `blk` in at its address position keeps the list linked and ascending. */
  lemma FreeLinked(hs: map<int, Header>, head: int, chain: seq<int>, blk: int)
    requires Linked(hs, head, chain) && Ascending(chain)
    requires blk in hs && blk !in chain
    ensures var i := InsertionPoint(chain, blk);
      && Linked(FreeHeaders(hs, chain, i, blk), if i == 0 then blk else head, InsertAt(chain, i, blk))
      && Ascending(InsertAt(chain, i, blk))
  {
    AscendingIncreasing(chain);
    var i := InsertionPoint(chain, blk);
    InsertionPointOrdered(chain, blk);
    if i < |chain| {
      assert chain[i] != blk;
    }
    InsertAscending(chain, i, blk);
    FreeHeadersAt(hs, chain, i, blk);
    var hs' := FreeHeaders(hs, chain, i, blk);
    var chain' := InsertAt(chain, i, blk);
    forall m | 0 <= m < |chain'| ensures chain'[m] in hs' && hs'[chain'[m]].next == NextOf(chain', m) {
      if m < i - 1 {
        assert chain'[m] == chain[m] && chain'[m + 1] == chain[m + 1];
        assert chain[m] != chain[i - 1] && chain[m] != blk;
      } else if m == i - 1 {
        assert chain'[m] == chain[i - 1] && chain'[m + 1] == blk;
      } else if m > i {
        assert chain'[m] == chain[m - 1] && chain[m - 1] != blk;
        if i > 0 {
          assert chain[m - 1] != chain[i - 1];
        }
        if m + 1 < |chain'| {
          assert chain'[m + 1] == chain[m];
        }
      }
    }
    AscendingIncreasing(InsertAt(chain, i, blk));
  }

  /** The freed block joins the FREE set and the list together. */
  lemma FreeFreeExactly(hs: map<int, Header>, chain: seq<int>, blk: int)
    requires FreeExactly(hs, chain) && Ascending(chain)
    requires blk in hs && blk !in chain && (forall m :: 0 <= m < |chain| ==> chain[m] in hs)
    ensures var i := InsertionPoint(chain, blk);
      FreeExactly(FreeHeaders(hs, chain, i, blk), InsertAt(chain, i, blk))
  {
    var i := InsertionPoint(chain, blk);
    InsertionPointOrdered(chain, blk);
    FreeHeadersAt(hs, chain, i, blk);
    InsertMembers(chain, i, blk);
    ElemsMembers(chain);
    ElemsMembers(InsertAt(chain, i, blk));
  }

  /** Every effect of a version 1 / version 3 duFree together: the list grows by
      the freed block, in address order, and no block is merged or resized. */
  lemma FreeArenaOk(hs: map<int, Header>, head: int, blocks: seq<int>, chain: seq<int>, blk: int, hdr: int)
    requires ArenaOk(hs, head, blocks, chain, hdr)
    requires blk in hs && !hs[blk].free
    ensures var i := InsertionPoint(chain, blk);
      ArenaOk(FreeHeaders(hs, chain, i, blk), if i == 0 then blk else head, blocks, InsertAt(chain, i, blk), hdr)
  {
    var i := InsertionPoint(chain, blk);
    InsertionPointOrdered(chain, blk);
    FreeHeadersAt(hs, chain, i, blk);
    TilesSameSizes(hs, FreeHeaders(hs, chain, i, blk), blocks, hdr);
    ElemsMembers(chain);
    FreeLinked(hs, head, chain, blk);
    FreeFreeExactly(hs, chain, blk);
  }

  /** What a version 1 / version 3 duFree leaves: the invariant, the block FREE,
      the list one node longer, and every header's offset and size as before. */
  lemma FreeStep(hs: map<int, Header>, head: int, blocks: seq<int>, chain: seq<int>, blk: int, hdr: int)
    requires ArenaOk(hs, head, blocks, chain, hdr)
    requires blk in hs && !hs[blk].free
    ensures var i := InsertionPoint(chain, blk);
      var hs' := FreeHeaders(hs, chain, i, blk);
      && ArenaOk(hs', if i == 0 then blk else head, blocks, InsertAt(chain, i, blk), hdr)
      && hs'[blk].free && |InsertAt(chain, i, blk)| == |chain| + 1
      && hs'.Keys == hs.Keys && forall q :: q in hs' ==> hs'[q].size == hs[q].size
  {
    var i := InsertionPoint(chain, blk);
    InsertionPointOrdered(chain, blk);
    FreeHeadersAt(hs, chain, i, blk);
    FreeArenaOk(hs, head, blocks, chain, blk, hdr);
  }

  /** The splice writes only the freed block and the FREE node before it, so
      every other USED block keeps its header. */
  lemma FreeKeepsUsed(hs: map<int, Header>, head: int, blocks: seq<int>, chain: seq<int>, blk: int, hdr: int)
    requires ArenaOk(hs, head, blocks, chain, hdr)
    requires blk in hs && !hs[blk].free
    ensures var hs' := FreeHeaders(hs, chain, InsertionPoint(chain, blk), blk);
      forall q :: q in hs && !hs[q].free && q != blk ==> q in hs' && hs'[q] == hs[q]
  {
    var i := InsertionPoint(chain, blk);
    InsertionPointOrdered(chain, blk);
    ElemsMembers(chain);
    if i > 0 {
      assert chain[i - 1] in hs && hs[chain[i - 1]].free;
    }
    FreeHeadersAt(hs, chain, i, blk);
  }

  /** Version 2's duFree (line 214): a block freed below every node is marked FREE
      but the head is left alone, so the list is unchanged; otherwise it is spliced
      in as in version 1. */
  lemma FreeWellFormedNoHead(hs: map<int, Header>, head: int, blocks: seq<int>, chain: seq<int>, blk: int, hdr: int)
    requires WellFormed(hs, head, blocks, chain, hdr)
    requires blk in hs && blk !in chain
    ensures var i := InsertionPoint(chain, blk);
      WellFormed(FreeHeaders(hs, chain, i, blk), head, blocks, if i == 0 then chain else InsertAt(chain, i, blk), hdr)
  {
    AscendingIncreasing(chain);
    var i := InsertionPoint(chain, blk);
    InsertionPointOrdered(chain, blk);
    FreeHeadersAt(hs, chain, i, blk);
    var hs' := FreeHeaders(hs, chain, i, blk);
    TilesSameSizes(hs, hs', blocks, hdr);
    FreeLinked(hs, head, chain, blk);
    if i == 0 {
      forall m | 0 <= m < |chain| ensures chain[m] in hs' && hs'[chain[m]].next == NextOf(chain, m) {
        assert chain[m] != blk;
      }
    }
  }

  // ---------------------------------------------------------------------------
  // The dump walk

  /** duMemoryDump's walk: from offset `p`, step over each header and its payload
      until HEAP_SIZE. */
  function Walk(hs: map<int, Header>, p: int, hdr: int): seq<int>
    requires hdr > 0
    decreases HEAP_SIZE - p
  {
    if p < HEAP_SIZE && p in hs && hs[p].size >= 0 then [p] + Walk(hs, p + hdr + hs[p].size, hdr) else []
  }

  /** Every block ends inside the arena. */
  lemma BlocksInside(hs: map<int, Header>, blocks: seq<int>, hdr: int)
    requires HeaderSize(hdr) && Tiles(hs, blocks, hdr)
    ensures forall j :: 0 <= j < |blocks| ==> 0 <= blocks[j] < BlockEnd(hs, blocks[j], hdr) <= HEAP_SIZE
  {
    AscendingIncreasing(blocks);
    ContiguousAdjacent(hs, blocks, hdr);
    forall j | 0 <= j < |blocks| ensures 0 <= blocks[j] < BlockEnd(hs, blocks[j], hdr) <= HEAP_SIZE {
      if j + 1 < |blocks| {
        assert blocks[j + 1] <= Last(blocks);
      }
      assert blocks[0] <= blocks[j];
    }
  }

  lemma {:induction false} WalkSuffix(hs: map<int, Header>, blocks: seq<int>, hdr: int, j: int)
    requires HeaderSize(hdr) && Tiles(hs, blocks, hdr) && 0 <= j < |blocks|
    ensures Walk(hs, blocks[j], hdr) == blocks[j..]
    decreases |blocks| - j
  {
    AscendingIncreasing(blocks);
    BlocksInside(hs, blocks, hdr);
    var p := blocks[j];
    var e := BlockEnd(hs, p, hdr);
    assert p in hs && hs[p].size >= 0 && p < HEAP_SIZE;
    assert Walk(hs, p, hdr) == [p] + Walk(hs, e, hdr);
    if j + 1 < |blocks| {
      ContiguousAt(hs, blocks, hdr, j);
      assert e == blocks[j + 1];
      WalkSuffix(hs, blocks, hdr, j + 1);
      assert blocks[j..] == [p] + blocks[j + 1..];
    } else {
      assert e == HEAP_SIZE;
      assert blocks[j..] == [p];
    }
  }

  /** The dump walk from offset 0 visits exactly the blocks, in address order, and
      lands on HEAP_SIZE, so it never reads a header outside the tiling. */
  lemma DumpWalk(hs: map<int, Header>, blocks: seq<int>, hdr: int)
    requires HeaderSize(hdr) && Tiles(hs, blocks, hdr)
    ensures Walk(hs, 0, hdr) == blocks
  {
    WalkSuffix(hs, blocks, hdr, 0);
  }

  lemma AddMultiplesOf8(a: int, b: int)
    requires a % 8 == 0 && b % 8 == 0
    ensures (a + b) % 8 == 0
  {
    assert a == 8 * (a / 8) && b == 8 * (b / 8);
    assert a + b == 8 * (a / 8 + b / 8);
  }

  lemma SubMultiplesOf8(a: int, b: int)
    requires a % 8 == 0 && b % 8 == 0
    ensures (a - b) % 8 == 0
  {
    assert a == 8 * (a / 8) && b == 8 * (b / 8);
    assert a - b == 8 * (a / 8 - b / 8);
  }

  /** Every header offset is a multiple of 8, so every payload `p + hdr` is too. */
  lemma {:induction false} BlockAligned(hs: map<int, Header>, blocks: seq<int>, hdr: int, j: int)
    requires HeaderSize(hdr) && Tiles(hs, blocks, hdr) && 0 <= j < |blocks|
    ensures blocks[j] % 8 == 0
  {
    if j > 0 {
      ContiguousAt(hs, blocks, hdr, j - 1);
      BlockAligned(hs, blocks, hdr, j - 1);
      var q := blocks[j - 1];
      assert q in hs && hs[q].size % 8 == 0;
      assert blocks[j] == BlockEnd(hs, q, hdr);
      AddMultiplesOf8(q, hdr);
      AddMultiplesOf8(q + hdr, hs[q].size);
    }
  }
}

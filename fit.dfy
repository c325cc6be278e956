/** Request rounding and the two placement strategies of duMalloc.
    Selection is stated over the sequence of node sizes met while walking
    the free list from its head, so it does not depend on how the list is
    stored. */
module Fit {
  import opened Bits

  const FIRST_FIT := 0
  const BEST_FIT := 1

  /** Largest value of a C `int` (32-bit two's complement). */
  const INT_MAX := 0x7fff_ffff

  datatype Option<T> = None | Some(value: T)

  /** Largest request for which `(size + 7) & ~7` and `blockSize + sizeof(header)`
      stay within `int` for a header of `hdr` bytes. */
  function MaxRequest(hdr: int): int {
    INT_MAX - 7 - hdr
  }

  /** The least multiple of 8 that is at least `size`: the payload duMalloc
      reserves for a request of `size` bytes. */
  function RoundUp(size: int): (r: int)
    requires size >= 0
    ensures r % 8 == 0 && size <= r < size + 8
  {
    (size + 7) - (size + 7) % 8
  }

  /** No smaller multiple of 8 holds the request. */
  lemma RoundUpIsLeast(size: int, m: int)
    requires size >= 0 && m % 8 == 0 && m >= size
    ensures m >= RoundUp(size)
  {
  }

  /** duMalloc computes the rounding as `(size + 7) & ~7` on a non-negative `int`;
      the mask clears the three low-order bits, which rounds up to a multiple of 8. */
  lemma MaskIsRoundUp(size: int)
    requires 0 <= size <= INT_MAX - 7
    ensures BitAnd(size + 7, NOT_SEVEN) == RoundUp(size)
  {
    AndNotSeven(size + 7);
  }

  /** Whether a free-list node of size `s` can hold a request needing `total` bytes
      (the rounded request plus a header for the remainder). */
  predicate Fits(s: int, total: int) {
    s >= total
  }

  /** The first-fit loop from node `i` on: index of the first node whose size fits. */
  function FirstFitFrom(sizes: seq<int>, total: int, i: nat): (r: Option<nat>)
    requires i <= |sizes|
    ensures r.Some? ==> i <= r.value < |sizes|
    decreases |sizes| - i
  {
    if i == |sizes| then None
    else if Fits(sizes[i], total) then Some(i)
    else FirstFitFrom(sizes, total, i + 1)
  }

  /** The first-fit loop, walking from the head. */
  function FirstFit(sizes: seq<int>, total: int): (r: Option<nat>)
    ensures r.Some? ==> r.value < |sizes|
  {
    FirstFitFrom(sizes, total, 0)
  }

  /** The best-fit loop after its first `n` nodes: a fitting node replaces the
      current best only when it is strictly smaller. */
  function BestFitOf(sizes: seq<int>, total: int, n: nat): (r: Option<nat>)
    requires n <= |sizes|
    ensures r.Some? ==> r.value < n
  {
    if n == 0 then None
    else
      var prior := BestFitOf(sizes, total, n - 1);
      if Fits(sizes[n - 1], total) && (prior.None? || sizes[n - 1] < sizes[prior.value]) then Some(n - 1)
      else prior
  }

  /** The best-fit loop over the whole list. */
  function BestFit(sizes: seq<int>, total: int): (r: Option<nat>)
    ensures r.Some? ==> r.value < |sizes|
  {
    BestFitOf(sizes, total, |sizes|)
  }

  /** The node duMalloc picks under `strategy`. */
  function Select(strategy: int, sizes: seq<int>, total: int): (r: Option<nat>)
    requires strategy == FIRST_FIT || strategy == BEST_FIT
    ensures r.Some? ==> r.value < |sizes|
  {
    if strategy == FIRST_FIT then FirstFit(sizes, total) else BestFit(sizes, total)
  }

  lemma {:induction false} FirstFitFromIsFirst(sizes: seq<int>, total: int, i: nat)
    requires i <= |sizes|
    ensures FirstFitFrom(sizes, total, i).Some? ==>
      var k := FirstFitFrom(sizes, total, i).value;
      Fits(sizes[k], total) && forall j :: i <= j < k ==> !Fits(sizes[j], total)
    ensures FirstFitFrom(sizes, total, i).None? <==> forall j :: i <= j < |sizes| ==> !Fits(sizes[j], total)
    decreases |sizes| - i
  {
    if i < |sizes| && !Fits(sizes[i], total) {
      FirstFitFromIsFirst(sizes, total, i + 1);
    }
  }

  /** First-fit returns a fitting node preceded only by nodes that do not fit,
      and returns nothing exactly when no node fits. */
  lemma FirstFitIsFirst(sizes: seq<int>, total: int)
    ensures FirstFit(sizes, total).Some? ==>
      var k := FirstFit(sizes, total).value;
      Fits(sizes[k], total) && forall j :: 0 <= j < k ==> !Fits(sizes[j], total)
    ensures FirstFit(sizes, total).None? <==> forall j :: 0 <= j < |sizes| ==> !Fits(sizes[j], total)
  {
    FirstFitFromIsFirst(sizes, total, 0);
  }

  lemma {:induction false} BestFitOfIsBest(sizes: seq<int>, total: int, n: nat)
    requires n <= |sizes|
    ensures BestFitOf(sizes, total, n).Some? ==>
      var k := BestFitOf(sizes, total, n).value;
      Fits(sizes[k], total) &&
      (forall j :: 0 <= j < n && Fits(sizes[j], total) ==> sizes[k] <= sizes[j]) &&
      (forall j :: 0 <= j < k && Fits(sizes[j], total) ==> sizes[k] < sizes[j])
    ensures BestFitOf(sizes, total, n).None? <==> forall j :: 0 <= j < n ==> !Fits(sizes[j], total)
  {
    if n > 0 {
      BestFitOfIsBest(sizes, total, n - 1);
    }
  }

  /** Best-fit returns a fitting node no larger than any other fitting node, and
      strictly smaller than every fitting node before it (the earliest minimum);
      it returns nothing exactly when no node fits. */
  lemma BestFitIsBest(sizes: seq<int>, total: int)
    ensures BestFit(sizes, total).Some? ==>
      var k := BestFit(sizes, total).value;
      Fits(sizes[k], total) &&
      (forall j :: 0 <= j < |sizes| && Fits(sizes[j], total) ==> sizes[k] <= sizes[j]) &&
      (forall j :: 0 <= j < k && Fits(sizes[j], total) ==> sizes[k] < sizes[j])
    ensures BestFit(sizes, total).None? <==> forall j :: 0 <= j < |sizes| ==> !Fits(sizes[j], total)
  {
    BestFitOfIsBest(sizes, total, |sizes|);
  }

  /** Best-fit finds a node exactly when first-fit does; its node is never larger
      than first-fit's and never comes before it. */
  lemma BestFitNoLargerThanFirstFit(sizes: seq<int>, total: int)
    ensures BestFit(sizes, total).Some? <==> FirstFit(sizes, total).Some?
    ensures BestFit(sizes, total).Some? ==>
      var b, f := BestFit(sizes, total).value, FirstFit(sizes, total).value;
      sizes[b] <= sizes[f] && f <= b
  {
    FirstFitIsFirst(sizes, total);
    BestFitIsBest(sizes, total);
  }

  /** The node picked under either strategy has room for `total` bytes. */
  lemma SelectedNodeFits(strategy: int, sizes: seq<int>, total: int)
    requires strategy == FIRST_FIT || strategy == BEST_FIT
    requires Select(strategy, sizes, total).Some?
    ensures sizes[Select(strategy, sizes, total).value] >= total
  {
    FirstFitIsFirst(sizes, total);
    BestFitIsBest(sizes, total);
  }
}

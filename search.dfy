/**
 * The four search policies as functions of the heap: what each scan of
 * src/alloc.cpp:97-179 (and alloc.cpp:110-180) finds.
 */
module Search {
  import opened Wrappers
  import opened Layout
  import opened HeapState

  /**
   * The position of the first block of `c` at or after position `i` that is
   * free and holds at least `size` bytes, or nothing.
   */
  function FirstFitPos(bs: seq<Block>, c: seq<Ref>, i: nat, size: nat): (p: Option<nat>)
    requires RefsIn(bs, c)
    ensures p.Some? ==> i <= p.value < |c| && Fits(bs[c[p.value]], size)
    ensures p.Some? ==> forall j :: i <= j < p.value ==> !Fits(bs[c[j]], size)
    ensures p.None? ==> forall j :: i <= j < |c| ==> !Fits(bs[c[j]], size)
    decreases |c| - i
  {
    if i >= |c| then None
    else if Fits(bs[c[i]], size) then Some(i)
    else FirstFitPos(bs, c, i + 1, size)
  }

  /** One step of the scan: a block that does not fit is skipped. */
  lemma FirstFitStep(bs: seq<Block>, c: seq<Ref>, k: nat, size: nat)
    requires RefsIn(bs, c) && k < |c| && !Fits(bs[c[k]], size)
    ensures FirstFitPos(bs, c, k, size) == FirstFitPos(bs, c, k + 1, size)
  {
  }

  /** `first_fit_search`: scan the chain from `heapStart`. */
  function FirstFitSearch(h: Heap, size: nat): Option<Ref>
    requires RefsIn(h.blocks, h.chain)
  {
    RefAt(h.chain, FirstFitPos(h.blocks, h.chain, 0, size))
  }

  /** The chain position of the next-fit cursor `searchStart` (0 on an empty chain). */
  function Cursor(h: Heap): (k: nat)
    requires Valid(h)
    ensures k <= |h.chain|
    ensures h.searchStart == At(h.chain, k)
  {
    if h.searchStart.None? then 0 else IndexOf(h.chain, h.searchStart.value)
  }

  /** `next_fit_search`: scan the chain from `searchStart` to its end, without wrapping round. */
  function NextFitSearch(h: Heap, size: nat): Option<Ref>
    requires Valid(h)
  {
    RefAt(h.chain, FirstFitPos(h.blocks, h.chain, Cursor(h), size))
  }

  /**
   * First-fit returns the first fitting block of the chain, and nothing
   * exactly when no block of the chain fits.
   */
  lemma FirstFitChoice(h: Heap, size: nat)
    requires RefsIn(h.blocks, h.chain)
    ensures FirstFitSearch(h, size).None? <==> forall j :: 0 <= j < |h.chain| ==> !Fits(h.blocks[h.chain[j]], size)
    ensures FirstFitSearch(h, size).Some? ==>
      exists k :: 0 <= k < |h.chain| && h.chain[k] == FirstFitSearch(h, size).value
        && Fits(h.blocks[h.chain[k]], size)
        && forall j :: 0 <= j < k ==> !Fits(h.blocks[h.chain[j]], size)
  {
    var p := FirstFitPos(h.blocks, h.chain, 0, size);
    if p.Some? {
      assert h.chain[p.value] == FirstFitSearch(h, size).value;
    }
  }

  /**
   * Next-fit returns the first fitting block at or after the cursor, and
   * nothing exactly when no block from the cursor on fits, whatever fits
   * before it.
   */
  lemma NextFitChoice(h: Heap, size: nat)
    requires Valid(h)
    ensures NextFitSearch(h, size).None? <==> forall j :: Cursor(h) <= j < |h.chain| ==> !Fits(h.blocks[h.chain[j]], size)
    ensures NextFitSearch(h, size).Some? ==>
      exists k :: Cursor(h) <= k < |h.chain| && h.chain[k] == NextFitSearch(h, size).value
        && Fits(h.blocks[h.chain[k]], size)
        && forall j :: Cursor(h) <= j < k ==> !Fits(h.blocks[h.chain[j]], size)
  {
    var p := FirstFitPos(h.blocks, h.chain, Cursor(h), size);
    if p.Some? {
      assert h.chain[p.value] == NextFitSearch(h, size).value;
    }
  }

  /** The waste of handing block `b` out for `size` bytes. */
  function Waste(b: Block, size: nat): int {
    b.size - size
  }

  /**
   * The running minimum of best-fit's first pass after the first `k` blocks
   * of `c`: it starts at the sentinel and drops to the waste of every fitting
   * block with less waste.
   */
  function MinWaste(bs: seq<Block>, c: seq<Ref>, size: nat, k: nat): (w: nat)
    requires RefsIn(bs, c) && k <= |c|
    ensures w <= SENTINEL
    ensures forall j :: 0 <= j < k && Fits(bs[c[j]], size) ==> w <= Waste(bs[c[j]], size)
    ensures w < SENTINEL ==> exists j :: 0 <= j < k && Fits(bs[c[j]], size) && Waste(bs[c[j]], size) == w
  {
    if k == 0 then SENTINEL
    else
      var w := MinWaste(bs, c, size, k - 1);
      var b := bs[c[k - 1]];
      if Fits(b, size) && w > b.size - size then b.size - size else w
  }

  /** One step of the first pass: the minimum after `k + 1` blocks from the one after `k`. */
  lemma MinWasteStep(bs: seq<Block>, c: seq<Ref>, size: nat, k: nat)
    requires RefsIn(bs, c) && k < |c|
    ensures MinWaste(bs, c, size, k + 1) ==
      if Fits(bs[c[k]], size) && MinWaste(bs, c, size, k) > bs[c[k]].size - size
      then bs[c[k]].size - size else MinWaste(bs, c, size, k)
  {
  }

  /**
   * The position of the first fitting block at or after position `i` whose
   * waste is exactly `w`: best-fit's second pass.
   */
  function FirstWithWaste(bs: seq<Block>, c: seq<Ref>, size: nat, w: nat, i: nat): (p: Option<nat>)
    requires RefsIn(bs, c)
    ensures p.Some? ==> i <= p.value < |c| && Fits(bs[c[p.value]], size) && Waste(bs[c[p.value]], size) == w
    ensures p.Some? ==> forall j :: i <= j < p.value ==> !(Fits(bs[c[j]], size) && Waste(bs[c[j]], size) == w)
    ensures p.None? ==> forall j :: i <= j < |c| ==> !(Fits(bs[c[j]], size) && Waste(bs[c[j]], size) == w)
    decreases |c| - i
  {
    if i >= |c| then None
    else if Fits(bs[c[i]], size) && w == bs[c[i]].size - size then Some(i)
    else FirstWithWaste(bs, c, size, w, i + 1)
  }

  /** One step of the second pass: a block without the wanted waste is skipped. */
  lemma FirstWithWasteStep(bs: seq<Block>, c: seq<Ref>, size: nat, w: nat, k: nat)
    requires RefsIn(bs, c) && k < |c| && !(Fits(bs[c[k]], size) && w == bs[c[k]].size - size)
    ensures FirstWithWaste(bs, c, size, w, k) == FirstWithWaste(bs, c, size, w, k + 1)
  {
  }

  /** The chain position best-fit search picks, before it allocates the block. */
  function BestFitPos(h: Heap, size: nat): Option<nat>
    requires RefsIn(h.blocks, h.chain)
  {
    var w := MinWaste(h.blocks, h.chain, size, |h.chain|);
    if w == SENTINEL then None else FirstWithWaste(h.blocks, h.chain, size, w, 0)
  }

  /**
   * Best-fit finds nothing exactly when every fitting block wastes at least
   * the sentinel; otherwise it picks a fitting block of least waste, the
   * first such in chain order.
   */
  lemma BestFitChoice(h: Heap, size: nat)
    requires RefsIn(h.blocks, h.chain)
    ensures BestFitPos(h, size).None? <==>
      forall j :: 0 <= j < |h.chain| && Fits(h.blocks[h.chain[j]], size) ==> Waste(h.blocks[h.chain[j]], size) >= SENTINEL
    ensures BestFitPos(h, size).Some? ==>
      var k := BestFitPos(h, size).value;
      && k < |h.chain|
      && Fits(h.blocks[h.chain[k]], size)
      && Waste(h.blocks[h.chain[k]], size) < SENTINEL
      && (forall j :: 0 <= j < |h.chain| && Fits(h.blocks[h.chain[j]], size) ==>
            Waste(h.blocks[h.chain[k]], size) <= Waste(h.blocks[h.chain[j]], size))
      && (forall j :: 0 <= j < k && Fits(h.blocks[h.chain[j]], size) ==>
            Waste(h.blocks[h.chain[k]], size) < Waste(h.blocks[h.chain[j]], size))
  {
    var w := MinWaste(h.blocks, h.chain, size, |h.chain|);
    if w < SENTINEL {
      var j :| 0 <= j < |h.chain| && Fits(h.blocks[h.chain[j]], size) && Waste(h.blocks[h.chain[j]], size) == w;
      assert FirstWithWaste(h.blocks, h.chain, size, w, 0).Some?;
    }
  }

  /**
   * The position of the first free-list entry at or after `i` whose block
   * holds at least `size` bytes. The free-list scan looks at sizes only, not
   * at `isUsed`.
   */
  function FreeListPos(bs: seq<Block>, fl: seq<Ref>, i: nat, size: nat): (p: Option<nat>)
    requires RefsIn(bs, fl)
    ensures p.Some? ==> i <= p.value < |fl| && bs[fl[p.value]].size >= size
    ensures p.Some? ==> forall j :: i <= j < p.value ==> bs[fl[j]].size < size
    ensures p.None? ==> forall j :: i <= j < |fl| ==> bs[fl[j]].size < size
    decreases |fl| - i
  {
    if i >= |fl| then None
    else if bs[fl[i]].size >= size then Some(i)
    else FreeListPos(bs, fl, i + 1, size)
  }

  /** `freeList.remove(x)`: drop every copy of `x`, keep the rest in order. */
  function Without(fl: seq<Ref>, x: Ref): (r: seq<Ref>)
    ensures multiset(r) == multiset(fl)[x := 0]
    ensures x !in r
    ensures forall i :: 0 <= i < |r| ==> r[i] in fl
  {
    if fl == [] then []
    else
      assert fl == [fl[0]] + fl[1..];
      if fl[0] == x then Without(fl[1..], x)
    else [fl[0]] + Without(fl[1..], x)
  }

  /** Removal keeps the order of what remains: it works piecewise on a concatenation. */
  lemma {:induction false} WithoutConcat(a: seq<Ref>, b: seq<Ref>, x: Ref)
    ensures Without(a + b, x) == Without(a, x) + Without(b, x)
  {
    if a == [] {
      assert a + b == b;
    } else {
      assert (a + b)[1..] == a[1..] + b;
      WithoutConcat(a[1..], b, x);
    }
  }

  /** Removal leaves a list that never held `x` as it is. */
  lemma {:induction false} WithoutAbsent(fl: seq<Ref>, x: Ref)
    requires x !in fl
    ensures Without(fl, x) == fl
  {
    if fl != [] {
      WithoutAbsent(fl[1..], x);
    }
  }
}

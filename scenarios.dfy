/**
 * The scenarios of alloc.cpp's `main` and of tests/tests.cpp, replayed on
 * the allocator object.
 */
module Scenarios {
  import opened Wrappers
  import opened Layout
  import opened HeapState
  import opened Search
  import opened Engine
  import opened Properties
  import opened Alloc

  /** A chain that holds only used blocks and ends at `head`: what a run of growths leaves. */
  predicate Tidy(h: Heap)
    requires RefsIn(h.blocks, h.chain)
  {
    && (forall i :: 0 <= i < |h.chain| ==> h.blocks[h.chain[i]].isUsed)
    && (h.chain != [] ==> h.head == Some(h.chain[|h.chain| - 1]))
  }

  /** On a chain all in use, none of the chain-scanning policies finds anything. */
  lemma FindNothing(h: Heap, size: nat)
    requires Valid(h) && Tidy(h) && Strategy(h.version, h.mode) != FreeList
    ensures FindBlock(h, size) == (h, None)
  {
    assert forall j :: 0 <= j < |h.chain| ==> !Fits(h.blocks[h.chain[j]], size);
    match Strategy(h.version, h.mode)
    case FirstFit =>
    case NextFit =>
    case BestFit =>
      assert MinWaste(h.blocks, h.chain, size, |h.chain|) == SENTINEL;
  }

  /** With `head` at the end of the chain, growth appends the new block to the chain. */
  lemma GrowAppends(h: Heap, size: nat)
    requires Valid(h) && Tidy(h) && WordSized(size)
    ensures Grow(h, size).chain == h.chain + [|h.blocks|]
  {
    if h.head.Some? {
      IndexOfDistinct(h.chain, |h.chain| - 1);
      assert h.chain[..|h.chain|] == h.chain;
    }
  }

  /** Growing a tidy heap appends the new block to the chain and keeps it tidy. */
  lemma GrowTidy(h: Heap, size: nat)
    requires Valid(h) && Tidy(h) && WordSized(size)
    ensures var h' := Grow(h, size);
      && RefsIn(h'.blocks, h'.chain) && Tidy(h')
      && h'.chain == h.chain + [|h.blocks|]
      && (forall q :: 0 <= q < |h.blocks| ==> h'.blocks[q].size == h.blocks[q].size && h'.blocks[q].isUsed == h.blocks[q].isUsed)
  {
    GrowAppends(h, size);
    GrowSpec(h, size);
    var h' := Grow(h, size);
    forall q | 0 <= q < |h.blocks|
      ensures h'.blocks[q].size == h.blocks[q].size && h'.blocks[q].isUsed == h.blocks[q].isUsed
    {
      if Some(q) != h.head {
        assert h'.blocks[q] == h.blocks[q];
      }
    }
    TidyAppend(h.blocks, h.chain, h'.blocks, |h.blocks|);
  }

  /** A chain all in use, with one more used block after it, is all in use. */
  lemma TidyAppend(bs: seq<Block>, c: seq<Ref>, bs': seq<Block>, n: Ref)
    requires RefsIn(bs, c) && |bs| <= |bs'| && n < |bs'| && bs'[n].isUsed
    requires forall i :: 0 <= i < |c| ==> bs[c[i]].isUsed
    requires forall q :: 0 <= q < |bs| ==> bs'[q].isUsed == bs[q].isUsed
    ensures RefsIn(bs', c + [n]) && forall i :: 0 <= i < |c + [n]| ==> bs'[(c + [n])[i]].isUsed
  {
    forall i | 0 <= i < |c + [n]| ensures (c + [n])[i] < |bs'| && bs'[(c + [n])[i]].isUsed {
      if i < |c| {
        assert (c + [n])[i] == c[i];
      }
    }
  }

  /**
   * On a heap whose chain is all in use, every chain-scanning policy finds
   * nothing, so `allocate` grows the heap by one block of `align(n)` bytes
   * and hands it out.
   */
  lemma AllocateGrows(h: Heap, n: nat)
    requires Valid(h) && Tidy(h) && n < SIZE_MODULUS
    requires Strategy(h.version, h.mode) != FreeList && CanGrow(h, Align(n))
    ensures Allocate(h, n) == (Grow(h, Align(n)), Allocated(|h.blocks|))
  {
    FindNothing(h, Align(n));
  }

  /** The references `lo`, `lo + 1`, ..., `lo + n - 1`. */
  function Range(lo: nat, n: nat): (c: seq<Ref>)
    ensures |c| == n && forall i :: 0 <= i < n ==> c[i] == lo + i
  {
    if n == 0 then [] else Range(lo, n - 1) + [lo + n - 1]
  }

  /**
   * The chain is the `k` blocks `L`, `L + 1`, ... grown one after the other,
   * all in use, the last of them `head`.
   */
  predicate Grown(h: Heap, L: nat, k: nat) {
    && |h.blocks| == L + k
    && h.chain == Range(L, k)
    && (forall i :: 0 <= i < k ==> h.blocks[h.chain[i]].isUsed)
    && (k > 0 ==> h.head == Some(L + k - 1))
  }

  /** A grown chain is all in use and ends at `head`. */
  lemma GrownTidy(h: Heap, L: nat, k: nat)
    requires Valid(h) && Grown(h, L, k)
    ensures Tidy(h)
  {
  }

  /**
   * One growth step of a scenario: the next reference is stamped, with
   * `size` bytes, and the blocks before it keep their sizes.
   */
  lemma GrowStep(h: Heap, L: nat, k: nat, size: nat)
    requires Valid(h) && Grown(h, L, k) && WordSized(size)
    ensures Valid(Grow(h, size)) && Grown(Grow(h, size), L, k + 1)
    ensures Grow(h, size).blocks[L + k].size == size
    ensures forall q :: 0 <= q < L + k ==> Grow(h, size).blocks[q].size == h.blocks[q].size
    ensures Grow(h, size).brk == h.brk + AllocSize(size)
    ensures Grow(h, size).mode == h.mode && Grow(h, size).version == h.version && Grow(h, size).limit == h.limit
  {
    GrownTidy(h, L, k);
    GrowValid(h, size);
    GrowTidy(h, size);
    GrowSpec(h, size);
    GrownAppend(h, Grow(h, size), L, k);
  }

  /** A chain grown by one more used block, at the next reference, is still grown. */
  lemma GrownAppend(h: Heap, h': Heap, L: nat, k: nat)
    requires Grown(h, L, k) && |h'.blocks| == L + k + 1 && h'.chain == h.chain + [L + k]
    requires h'.blocks[L + k].isUsed && h'.head == Some(L + k)
    requires forall q :: 0 <= q < L + k ==> h'.blocks[q].isUsed == h.blocks[q].isUsed
    ensures Grown(h', L, k + 1)
  {
    assert h'.chain == Range(L, k + 1);
    forall i | 0 <= i < k + 1 ensures h'.blocks[h'.chain[i]].isUsed {
      if i < k {
        assert h'.chain[i] == h.chain[i];
      }
    }
  }

  /**
   * One `allocate(n)` of a scenario on a grown heap under a chain-scanning
   * policy: nothing fits, so the heap grows by the next reference.
   */
  method GrowBy(a: Allocator, ghost L: nat, ghost k: nat, n: nat) returns (r: AllocResult)
    requires a.Valid() && Grown(a.State(), L, k) && n < SIZE_MODULUS
    requires Strategy(a.version, a.searchMode) != FreeList && CanGrow(a.State(), Align(n))
    modifies a
    ensures a.Valid() && Grown(a.State(), L, k + 1) && r == Allocated(L + k)
    ensures a.blocks[L + k].size == Align(n)
    ensures forall q :: 0 <= q < L + k ==> a.blocks[q].size == old(a.blocks[q].size)
    ensures a.brk == old(a.brk) + AllocSize(Align(n)) && a.searchMode == old(a.searchMode)
    ensures (a.State(), r) == Engine.Allocate(old(a.State()), n)
  {
    GrownTidy(a.State(), L, k);
    AllocateGrows(a.State(), n);
    GrowStep(a.State(), L, k, Align(n));
    r := a.Allocate(n);
  }

  /**
   * Test case 5 after the frees: `searchStart` still points at the second
   * 16-byte block, which fits, so next-fit hands that block out without
   * marking it used, and the cursor stays on it.
   */
  lemma NextFitReuse(h5: Heap, h7: Heap, L: nat)
    requires Valid(h5) && |h5.blocks| == L + 5 && h5.searchStart == Some(L + 4) && h5.blocks[L + 4].size == 16
    requires Strategy(h5.version, h5.mode) == NextFit
    requires Valid(h7) && h7 == Free(Free(h5, L + 3), L + 4)
    ensures Allocate(h7, 16) == (h7, Allocated(L + 4))
    ensures h7.searchStart == Some(L + 4) && !h7.blocks[L + 3].isUsed && !h7.blocks[L + 4].isUsed
  {
    NextFitTakesCursor(h7, 16);
  }

  /** Test case 5 up to the frees: blocks of 8, 8, 8, 16 and 16 bytes grown on an emptied heap. */
  method NextFitGrow(a: Allocator) returns (o1: AllocResult, o2: AllocResult, ghost L: nat)
    requires a.Valid() && Init(a.State(), NextFit).brk + 176 <= a.limit
    modifies a
    ensures a.Valid() && Grown(a.State(), L, 5) && Strategy(a.version, a.searchMode) == NextFit
    ensures a.blocks[L + 4].size == 16
    ensures o1 == Allocated(L + 3) && o2 == Allocated(L + 4)
  {
    L := NextFitEights(a);
    o1 := GrowBy(a, L, 3, 16);
    o2 := GrowBy(a, L, 4, 16);
  }

  /** The start of test case 5: three 8-byte blocks grown on an emptied heap in next-fit mode. */
  method NextFitEights(a: Allocator) returns (ghost L: nat)
    requires a.Valid() && Init(a.State(), NextFit).brk + 176 <= a.limit
    modifies a
    ensures a.Valid() && Grown(a.State(), L, 3) && Strategy(a.version, a.searchMode) == NextFit
    ensures a.brk + 80 <= a.limit
  {
    a.Init(NextFit);
    InitSpec(old(a.State()), NextFit);
    L := |a.blocks|;
    var x1 := GrowBy(a, L, 0, 8);
    var x2 := GrowBy(a, L, 1, 8);
    var x3 := GrowBy(a, L, 2, 8);
  }

  /**
   * tests/tests.cpp `NextFitSearchStartPosition` and test case 5 of
   * alloc.cpp's `main`: after three 8-byte and two 16-byte blocks, both
   * 16-byte blocks freed and 16 bytes asked for again, `searchStart` is the
   * header of the block just handed out: the second 16-byte block, still
   * marked free. The `allocate(16)` that ends the case hands it out again.
   */
  method NextFitSearchStartPosition(a: Allocator) returns (o2: AllocResult, o3: AllocResult, o4: AllocResult)
    requires a.Valid() && Init(a.State(), NextFit).brk + 176 <= a.limit
    modifies a
    ensures a.Valid()
    ensures o2.Allocated? && o3 == o2 && a.searchStart == Some(o3.block)
    ensures o3.block < |a.blocks| && !a.blocks[o3.block].isUsed
    ensures o4 == o3
  {
    var o1;
    ghost var L;
    o1, o2, L := NextFitGrow(a);
    ghost var h5 := a.State();
    a.Free(o1.block);
    a.Free(o2.block);
    NextFitReuse(h5, a.State(), L);
    o3 := a.Allocate(16);
    o4 := a.Allocate(16);
  }

  /** The chain of test case 6 after its frees: used 8, free 64, used 8, free 16. */
  predicate BestFitLayout(h: Heap, L: nat) {
    && Valid(h) && Strategy(h.version, h.mode) == BestFit
    && |h.blocks| == L + 4 && h.chain == [L, L + 1, L + 2, L + 3]
    && h.blocks[L].size == 8 && h.blocks[L].isUsed
    && h.blocks[L + 1].size == 64 && !h.blocks[L + 1].isUsed
    && h.blocks[L + 2].size == 8 && h.blocks[L + 2].isUsed
    && h.blocks[L + 3].size == 16
  }

  /** Freeing the 16- and the 64-byte blocks of test case 6 gives its layout. */
  lemma BestFitFreed(h4: Heap, h6: Heap, L: nat)
    requires Grown(h4, L, 4) && Strategy(h4.version, h4.mode) == BestFit
    requires h4.blocks[L].size == 8 && h4.blocks[L + 1].size == 64 && h4.blocks[L + 2].size == 8 && h4.blocks[L + 3].size == 16
    requires Valid(h6) && h6 == Free(Free(h4, L + 3), L + 1)
    ensures BestFitLayout(h6, L) && !h6.blocks[L + 3].isUsed
  {
    assert h4.chain == [L, L + 1, L + 2, L + 3];
    assert h4.blocks[h4.chain[0]].isUsed && h4.blocks[h4.chain[2]].isUsed;
  }

  /**
   * Best-fit hands out the block at chain position `k` when that is the
   * position it picks: it allocates it with `list_allocate`.
   */
  lemma AllocateBestFit(h: Heap, n: nat, k: nat)
    requires Valid(h) && n < SIZE_MODULUS && Strategy(h.version, h.mode) == BestFit
    requires BestFitPos(h, Align(n)) == Some(k)
    ensures k < |h.chain|
    ensures Allocate(h, n) == (ListAllocate(h, h.chain[k], Align(n)), Allocated(h.chain[k]))
  {
    BestFitChoice(h, Align(n));
  }

  /** With the 64- and the 16-byte blocks free, best-fit picks the 16-byte one, which wastes nothing. */
  lemma BestFitPicksExact(h: Heap, L: nat)
    requires BestFitLayout(h, L) && !h.blocks[L + 3].isUsed
    ensures BestFitPos(h, 16) == Some(3)
  {
    BestFitChoice(h, 16);
    assert Fits(h.blocks[h.chain[3]], 16) && Waste(h.blocks[h.chain[3]], 16) == 0;
  }

  /** With only the 64-byte block free, best-fit picks it. */
  lemma BestFitPicksSplit(h: Heap, L: nat)
    requires BestFitLayout(h, L) && h.blocks[L + 3].isUsed
    ensures BestFitPos(h, 16) == Some(1)
  {
    BestFitChoice(h, 16);
    assert Fits(h.blocks[h.chain[1]], 16);
  }

  /**
   * Test case 6, first reuse: with the 64- and the 16-byte blocks free,
   * best-fit takes the 16-byte block, which wastes nothing, and marks it used
   * without splitting it.
   */
  lemma BestFitExact(h: Heap, L: nat)
    requires BestFitLayout(h, L) && !h.blocks[L + 3].isUsed
    ensures Allocate(h, 16).1 == Allocated(L + 3)
    ensures BestFitLayout(Allocate(h, 16).0, L) && Allocate(h, 16).0.blocks[L + 3].isUsed
  {
    BestFitPicksExact(h, L);
    AllocateBestFit(h, 16, 3);
    ListAllocateSpec(h, L + 3, 16);
  }

  /**
   * Allocating 16 bytes from the free 64-byte block of the layout splits it
   * into a used 16-byte block followed on the chain by a free 48-byte tail.
   */
  lemma SplitSixtyFour(h: Heap, L: nat)
    requires BestFitLayout(h, L)
    ensures var h' := ListAllocate(h, L + 1, 16);
      && |h'.blocks| == L + 5 && h'.chain == [L, L + 1, L + 4, L + 2, L + 3]
      && h'.blocks[L + 1].size == 16 && h'.blocks[L + 1].isUsed && h'.blocks[L + 1].next == Some(L + 4)
      && h'.blocks[L + 4].size == 48 && !h'.blocks[L + 4].isUsed
  {
    ListAllocateSpec(h, L + 1, 16);
    IndexOfDistinct(h.chain, 1);
    assert Split(h, L + 1, 16).chain == InsertAt(h.chain, 1, L + 4);
  }

  /**
   * Test case 6, second reuse: with only the 64-byte block free, best-fit
   * takes it and splits it into a used 16-byte block followed on the chain
   * by a free 48-byte tail.
   */
  lemma BestFitSplit(h: Heap, L: nat)
    requires BestFitLayout(h, L) && h.blocks[L + 3].isUsed
    ensures var (h', r) := Allocate(h, 16);
      && r == Allocated(L + 1)
      && |h'.blocks| == L + 5 && h'.chain == [L, L + 1, L + 4, L + 2, L + 3]
      && h'.blocks[L + 1].size == 16 && h'.blocks[L + 1].isUsed && h'.blocks[L + 1].next == Some(L + 4)
      && h'.blocks[L + 4].size == 48 && !h'.blocks[L + 4].isUsed
  {
    BestFitPicksSplit(h, L);
    AllocateBestFit(h, 16, 1);
    SplitSixtyFour(h, L);
  }

  /**
   * Test case 6 from its layout on: the first `allocate(16)` hands out the
   * 16-byte block, the second the 64-byte one, split into a used 16 and a
   * free 48 that follows it on the chain.
   */
  method BestFitReuse(a: Allocator, ghost L: nat) returns (z3: AllocResult, z4: AllocResult)
    requires a.Valid() && BestFitLayout(a.State(), L) && !a.blocks[L + 3].isUsed
    modifies a
    ensures a.Valid()
    ensures z3 == Allocated(L + 3) && z4 == Allocated(L + 1)
    ensures |a.blocks| == L + 5 && a.chain == [L, L + 1, L + 4, L + 2, L + 3]
    ensures a.blocks[L + 1].size == 16 && a.blocks[L + 1].isUsed && a.blocks[L + 1].next == Some(L + 4)
    ensures a.blocks[L + 4].size == 48 && !a.blocks[L + 4].isUsed
  {
    BestFitExact(a.State(), L);
    z3 := a.Allocate(16);
    BestFitSplit(a.State(), L);
    z4 := a.Allocate(16);
  }

  /** Test case 6 up to the frees: blocks of 8, 64, 8 and 16 bytes grown on an emptied heap. */
  method BestFitGrow(a: Allocator) returns (z1: AllocResult, z2: AllocResult, ghost L: nat)
    requires a.Valid() && Init(a.State(), BestFit).brk + 192 <= a.limit
    modifies a
    ensures a.Valid() && Grown(a.State(), L, 4) && Strategy(a.version, a.searchMode) == BestFit
    ensures a.blocks[L].size == 8 && a.blocks[L + 1].size == 64 && a.blocks[L + 2].size == 8 && a.blocks[L + 3].size == 16
    ensures z1 == Allocated(L + 1) && z2 == Allocated(L + 3)
  {
    z1, L := BestFitFirstTwo(a);
    var y2 := GrowBy(a, L, 2, 8);
    z2 := GrowBy(a, L, 3, 16);
  }

  /** The start of test case 6: an 8- and a 64-byte block grown on an emptied heap in best-fit mode. */
  method BestFitFirstTwo(a: Allocator) returns (z1: AllocResult, ghost L: nat)
    requires a.Valid() && Init(a.State(), BestFit).brk + 192 <= a.limit
    modifies a
    ensures a.Valid() && Grown(a.State(), L, 2) && Strategy(a.version, a.searchMode) == BestFit
    ensures a.blocks[L].size == 8 && a.blocks[L + 1].size == 64
    ensures z1 == Allocated(L + 1) && a.brk + 72 <= a.limit
  {
    a.Init(BestFit);
    InitSpec(old(a.State()), BestFit);
    L := |a.blocks|;
    var y1 := GrowBy(a, L, 0, 8);
    z1 := GrowBy(a, L, 1, 64);
  }

  /**
   * tests/tests.cpp `BestFitSearch` and test case 6 of alloc.cpp's `main`:
   * blocks of 8, 64, 8 and 16 bytes; the 16 and the 64 freed; the first
   * `allocate(16)` hands out the 16-byte block, the second the 64-byte one,
   * split into a used 16 and a free 48 that follows it on the chain.
   */
  method BestFitSearch(a: Allocator) returns (z1: AllocResult, z2: AllocResult, z3: AllocResult, z4: AllocResult)
    requires a.Valid() && Init(a.State(), BestFit).brk + 192 <= a.limit
    modifies a
    ensures a.Valid()
    ensures z3 == z2 && z4 == z1 && z1.Allocated? && z1.block < |a.blocks|
    ensures a.blocks[z1.block].size == 16 && a.blocks[z1.block].isUsed
    ensures |a.chain| == 5 && a.chain[1] == z1.block && a.chain[2] == |a.blocks| - 1
    ensures a.blocks[z1.block].next == Some(|a.blocks| - 1)
    ensures a.blocks[|a.blocks| - 1].size == 48 && !a.blocks[|a.blocks| - 1].isUsed
  {
    ghost var L;
    z1, z2, L := BestFitGrow(a);
    ghost var h4 := a.State();
    a.Free(z2.block);
    a.Free(z1.block);
    BestFitFreed(h4, a.State(), L);
    z3, z4 := BestFitReuse(a, L);
  }
}

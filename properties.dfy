/**
 * Properties of `allocate` and `free` that span several calls: where
 * next-fit looks first, when a freed block is handed out again, and what a
 * split of the last-grown block does to the chain.
 */
module Properties {
  import opened Wrappers
  import opened Layout
  import opened HeapState
  import opened Search
  import opened Engine

  /**
   * Next-fit looks at the cursor first: when the block `searchStart` points
   * at fits, `allocate` hands exactly that block out and changes nothing.
   */
  lemma NextFitTakesCursor(h: Heap, n: nat)
    requires Valid(h) && n < SIZE_MODULUS && Strategy(h.version, h.mode) == NextFit
    requires h.searchStart.Some? && Fits(h.blocks[h.searchStart.value], Align(n))
    ensures Allocate(h, n) == (h, Allocated(h.searchStart.value))
  {
    var k := Cursor(h);
    assert h.chain[k] == h.searchStart.value;
    assert FirstFitPos(h.blocks, h.chain, k, Align(n)) == Some(k);
  }

  /**
   * Freeing the block growth just made leaves it, free and fitting, at the
   * end of the chain and under the cursor; the blocks before it are the old
   * chain's, with their sizes and flags.
   */
  lemma GrowThenFree(h: Heap, size: nat)
    requires Valid(h) && WordSized(size)
    ensures var h2 := Free(Grow(h, size), |h.blocks|);
      && Valid(h2)
      && |h2.chain| > 0 && h2.chain[|h2.chain| - 1] == |h.blocks|
      && h2.searchStart == Some(|h.blocks|)
      && Fits(h2.blocks[|h.blocks|], size)
      && (forall j :: 0 <= j < |h2.chain| - 1 ==> h2.chain[j] in h.chain)
      && (forall q :: 0 <= q < |h.blocks| ==> h2.blocks[q].size == h.blocks[q].size && h2.blocks[q].isUsed == h.blocks[q].isUsed)
      && h2.version == h.version && h2.mode == h.mode
  {
    GrowValid(h, size);
    GrowSpec(h, size);
    var h1 := Grow(h, size);
    FreeSpec(h1, |h.blocks|);
    var h2 := Free(h1, |h.blocks|);
    if h.head.Some? {
      var i := IndexOf(h.chain, h.head.value);
      forall j | 0 <= j < |h2.chain| - 1 ensures h2.chain[j] in h.chain {
        assert h2.chain[j] == h.chain[j];
      }
    }
  }

  /** First-fit picks the last block of the chain when it is the only one that fits. */
  lemma FirstFitFindsLast(bs: seq<Block>, c: seq<Ref>, size: nat)
    requires RefsIn(bs, c) && |c| > 0 && Fits(bs[c[|c| - 1]], size)
    requires forall j :: 0 <= j < |c| - 1 ==> !Fits(bs[c[j]], size)
    ensures FirstFitPos(bs, c, 0, size) == Some(|c| - 1)
  {
  }

  /**
   * First-fit after growth and free: when nothing of the old chain fitted,
   * the search only finds the block just grown and freed.
   */
  lemma FirstFitFindsGrown(h: Heap, size: nat)
    requires Valid(h) && WordSized(size) && Strategy(h.version, h.mode) == FirstFit
    requires forall j :: 0 <= j < |h.chain| ==> !Fits(h.blocks[h.chain[j]], size)
    ensures Valid(Free(Grow(h, size), |h.blocks|))
    ensures FindBlock(Free(Grow(h, size), |h.blocks|), size).1 == Some(|h.blocks|)
  {
    GrowThenFree(h, size);
    var h2 := Free(Grow(h, size), |h.blocks|);
    NoFitBefore(h.blocks, h.chain, h2.blocks, h2.chain, size);
    FirstFitFindsLast(h2.blocks, h2.chain, size);
  }

  /**
   * A chain whose blocks, but for its last, come from a chain where nothing
   * fits, with the same sizes and flags, has nothing fitting but maybe its last.
   */
  lemma NoFitBefore(bs: seq<Block>, c: seq<Ref>, bs': seq<Block>, c': seq<Ref>, size: nat)
    requires RefsIn(bs, c) && RefsIn(bs', c') && |bs| <= |bs'|
    requires forall j :: 0 <= j < |c| ==> !Fits(bs[c[j]], size)
    requires forall j :: 0 <= j < |c'| - 1 ==> c'[j] in c
    requires forall q :: 0 <= q < |bs| ==> bs'[q].size == bs[q].size && bs'[q].isUsed == bs[q].isUsed
    ensures forall j :: 0 <= j < |c'| - 1 ==> !Fits(bs'[c'[j]], size)
  {
    forall j | 0 <= j < |c'| - 1 ensures !Fits(bs'[c'[j]], size) {
      var k := IndexOf(c, c'[j]);
      assert !Fits(bs[c[k]], size);
    }
  }

  /** A block reused by first-fit or next-fit is still free, so freeing it again changes nothing. */
  lemma FreeAfterReuse(h: Heap, n: nat)
    requires Valid(h) && n < SIZE_MODULUS && Strategy(h.version, h.mode) in {FirstFit, NextFit}
    requires FindBlock(h, Align(n)).1.Some?
    ensures Allocate(h, n).1.Allocated? && Allocate(h, n).1.block < |h.blocks|
    ensures Allocate(h, n).0 == h && Free(h, Allocate(h, n).1.block) == h
  {
    FindBlockSpec(h, Align(n));
    ReuseLeavesBlockFree(h, n);
    var r := Allocate(h, n).1.block;
    assert h.blocks[r := h.blocks[r].(isUsed := false)] == h.blocks;
  }

  /**
   * Under first-fit and next-fit, a block freed right after `allocate(n)`
   * handed it out is the block the next `allocate(n)` hands out: either it
   * was reused, and then nothing changed, or it was grown, and then it is
   * under the cursor and the only fitting block of the chain.
   */
  lemma ReuseAfterFree(h: Heap, n: nat)
    requires Valid(h) && n < SIZE_MODULUS && Strategy(h.version, h.mode) in {FirstFit, NextFit}
    requires Allocate(h, n).1.Allocated?
    ensures Allocate(h, n).1.block < |Allocate(h, n).0.blocks|
    ensures Valid(Free(Allocate(h, n).0, Allocate(h, n).1.block))
    ensures Allocate(Free(Allocate(h, n).0, Allocate(h, n).1.block), n).1 == Allocate(h, n).1
    ensures Allocate(Free(Allocate(h, n).0, Allocate(h, n).1.block), n).0 == Free(Allocate(h, n).0, Allocate(h, n).1.block)
  {
    var size := Align(n);
    AllocateValid(h, n);
    if FindBlock(h, size).1.Some? {
      FreeAfterReuse(h, n);
    } else {
      assert Allocate(h, n) == (Grow(h, size), Allocated(|h.blocks|));
      GrowThenFree(h, size);
      var h2 := Free(Grow(h, size), |h.blocks|);
      if Strategy(h.version, h.mode) == FirstFit {
        FirstFitChoice(h, size);
        FirstFitFindsGrown(h, size);
      } else {
        NextFitTakesCursor(h2, n);
      }
    }
    var h2 := Free(Allocate(h, n).0, Allocate(h, n).1.block);
    ReuseLeavesBlockFree(h2, n);
  }

  /**
   * Two free blocks, 16 and 8 bytes, freed in that order under the
   * free-list policy, as `allocate(16); allocate(8); free; free` leaves them.
   */
  function TwoFreeBlocks(): (h: Heap)
    ensures Valid(h) && Strategy(h.version, h.mode) == FreeList && h.freeList == [0, 1]
  {
    var a := Block(0, 16, false, Some(1));
    var b := Block(AllocSize(16), 8, false, None);
    var h := Heap(Current, [a, b], [0, 1], Some(0), Some(1), Some(1), FreeList, [0, 1], AllocSize(16) + AllocSize(8), AllocSize(16) + AllocSize(8));
    assert h.chain[1] == 1;
    h
  }

  /** The globals after `init(FreeList)` on a fresh 72-byte arena. */
  function FreeListStart(): (h: Heap)
    ensures Valid(h) && h.mode == FreeList && h.chain == []
  {
    Heap(Current, [], [], None, None, None, FreeList, [], 0, 72)
  }

  /** The globals after `init(FreeList); allocate(16)` on that arena. */
  function OneUsedBlock(): (h: Heap)
    ensures Valid(h) && h.mode == FreeList && h.chain == [0]
  {
    var h := Heap(Current, [Block(0, 16, true, None)], [0], Some(0), Some(0), Some(0), FreeList, [], 40, 72);
    assert h.chain[0] == 0;
    h
  }

  /** The globals after `init(FreeList); allocate(16); allocate(8)` on that arena. */
  function TwoUsedBlocks(): (h: Heap)
    ensures Valid(h) && h.mode == FreeList && h.chain == [0, 1]
  {
    var h := Heap(Current, [Block(0, 16, true, Some(1)), Block(40, 8, true, None)], [0, 1], Some(0), Some(1), Some(1), FreeList, [], 72, 72);
    assert h.chain[1] == 1;
    h
  }

  /** `allocate(16)` right after `init(FreeList)` grows the heap by one block. */
  lemma FirstGrowth()
    ensures Allocate(FreeListStart(), 16) == (OneUsedBlock(), Allocated(0))
  {
    var h0 := FreeListStart();
    assert Align(16) == 16 && AllocSize(16) == 40;
    assert FindBlock(h0, 16) == (h0, None);
    assert Grow(h0, 16) == OneUsedBlock();
  }

  /** The next `allocate(8)` grows it by a second block, which reaches the ceiling. */
  lemma SecondGrowth()
    ensures Allocate(OneUsedBlock(), 8) == (TwoUsedBlocks(), Allocated(1))
  {
    var h1 := OneUsedBlock();
    assert Align(8) == 8 && AllocSize(8) == 32;
    assert FindBlock(h1, 8) == (h1, None);
    assert IndexOf(h1.chain, 0) == 0;
    assert Grow(h1, 8) == TwoUsedBlocks();
  }

  /**
   * `TwoFreeBlocks()` is reachable: `init(FreeList); allocate(16); allocate(8)`
   * on a fresh 72-byte arena, then freeing block 0 and block 1, leaves it.
   */
  lemma TwoFreeBlocksReachable()
    ensures Init(Initial(Current, 0, 72), FreeList) == FreeListStart()
    ensures Allocate(FreeListStart(), 16) == (OneUsedBlock(), Allocated(0))
    ensures Allocate(OneUsedBlock(), 8) == (TwoUsedBlocks(), Allocated(1))
    ensures Free(Free(TwoUsedBlocks(), 0), 1) == TwoFreeBlocks()
  {
    FirstGrowth();
    SecondGrowth();
  }

  /**
   * Under the free-list policy a freed block is not always the next one
   * handed out: `allocate(8)` splits the 16-byte block and hands it out,
   * `free` appends it behind the 8-byte one, and the next `allocate(8)`
   * takes the 8-byte block, which comes first in the free list.
   */
  lemma FreeListMayNotReuse()
    ensures var h := TwoFreeBlocks();
      && Allocate(h, 8).1 == Allocated(0)
      && Valid(Allocate(h, 8).0) && |Allocate(h, 8).0.blocks| == 3
      && Free(Allocate(h, 8).0, 0).freeList == [1, 0]
      && Valid(Free(Allocate(h, 8).0, 0))
      && Allocate(Free(Allocate(h, 8).0, 0), 8).1 == Allocated(1)
  {
    var h := TwoFreeBlocks();
    assert FreeListPos(h.blocks, h.freeList, 0, 8) == Some(0);
    assert Without(h.freeList, 0) == [1] by {
      assert Without(h.freeList[1..], 0) == [1] by { assert h.freeList[1..] == [1]; }
    }
    ListAllocateSpec(h.(freeList := [1]), 0, 8);
    AllocateValid(h, 8);
    var h1 := Allocate(h, 8).0;
    assert h1 == ListAllocate(h.(freeList := [1]), 0, 8);
    FreeSpec(h1, 0);
    var h2 := Free(h1, 0);
    assert h2.blocks[1].size == 8;
    assert FreeListPos(h2.blocks, h2.freeList, 0, 8) == Some(0);
  }

  /**
   * A free 8-byte block followed by a free 16-byte one, under first-fit, as
   * `allocate(8); allocate(16); free; free` leaves them.
   */
  function SmallFreeFirst(): (h: Heap)
    ensures Valid(h) && Strategy(h.version, h.mode) == FirstFit
    ensures h.chain == [0, 1] && h.blocks[0].size == 8 && h.blocks[1].size == 16
  {
    var a := Block(0, 8, false, Some(1));
    var b := Block(AllocSize(8), 16, false, None);
    var h := Heap(Current, [a, b], [0, 1], Some(0), Some(1), Some(1), FirstFit, [], AllocSize(8) + AllocSize(16), AllocSize(8) + AllocSize(16));
    assert h.chain[1] == 1;
    h
  }

  /** The first-fit globals after `allocate(8)` on a fresh 72-byte arena. */
  function OneSmallBlock(): (h: Heap)
    ensures Valid(h) && h.mode == FirstFit && h.chain == [0]
  {
    var h := Heap(Current, [Block(0, 8, true, None)], [0], Some(0), Some(0), Some(0), FirstFit, [], 32, 72);
    assert h.chain[0] == 0;
    h
  }

  /** The first-fit globals after `allocate(8); allocate(16)` on that arena. */
  function SmallThenLarge(): (h: Heap)
    ensures Valid(h) && h.mode == FirstFit && h.chain == [0, 1]
  {
    var h := Heap(Current, [Block(0, 8, true, Some(1)), Block(32, 16, true, None)], [0, 1], Some(0), Some(1), Some(1), FirstFit, [], 72, 72);
    assert h.chain[1] == 1;
    h
  }

  /** `allocate(8)` on the initial globals grows the heap by one block. */
  lemma SmallGrowth()
    ensures Allocate(Initial(Current, 0, 72), 8) == (OneSmallBlock(), Allocated(0))
  {
    var h0 := Initial(Current, 0, 72);
    assert Align(8) == 8 && AllocSize(8) == 32;
    assert FirstFitPos(h0.blocks, h0.chain, 0, 8) == None;
    assert FindBlock(h0, 8) == (h0, None);
    assert Grow(h0, 8) == OneSmallBlock();
  }

  /** The next `allocate(16)` finds the used 8-byte block unfit and grows a second block. */
  lemma LargeGrowth()
    ensures Allocate(OneSmallBlock(), 16) == (SmallThenLarge(), Allocated(1))
  {
    var h1 := OneSmallBlock();
    assert Align(16) == 16 && AllocSize(16) == 40;
    assert FirstFitPos(h1.blocks, h1.chain, 1, 16) == None;
    assert FirstFitPos(h1.blocks, h1.chain, 0, 16) == None;
    assert FindBlock(h1, 16) == (h1, None);
    assert IndexOf(h1.chain, 0) == 0;
    assert Grow(h1, 16) == SmallThenLarge();
  }

  /**
   * `SmallFreeFirst()` is reachable: `allocate(8); allocate(16)` on the
   * initial first-fit globals of a 72-byte arena, then freeing both, leaves it.
   */
  lemma SmallFreeFirstReachable()
    ensures Allocate(Initial(Current, 0, 72), 8) == (OneSmallBlock(), Allocated(0))
    ensures Allocate(OneSmallBlock(), 16) == (SmallThenLarge(), Allocated(1))
    ensures Free(Free(SmallThenLarge(), 0), 1) == SmallFreeFirst()
  {
    SmallGrowth();
    LargeGrowth();
  }

  /**
   * The reuse promise does not extend to smaller requests: under first-fit,
   * `allocate(16)` hands out the 16-byte block, and after it is freed
   * `allocate(8)` takes the earlier 8-byte block, which was too small for 16
   * bytes but fits 8.
   */
  lemma FirstFitSmallerMayNotReuse()
    ensures var h := SmallFreeFirst();
      && Allocate(h, 16).1 == Allocated(1)
      && Valid(Free(Allocate(h, 16).0, 1))
      && Allocate(Free(Allocate(h, 16).0, 1), 8).1 == Allocated(0)
  {
    var h := SmallFreeFirst();
    assert FirstFitPos(h.blocks, h.chain, 1, 16) == Some(1);
    assert FirstFitPos(h.blocks, h.chain, 0, 16) == Some(1);
    assert Allocate(h, 16) == (h, Allocated(1));
    assert h.blocks[1 := h.blocks[1].(isUsed := false)] == h.blocks;
    assert Free(h, 1) == h;
    assert FirstFitPos(h.blocks, h.chain, 0, 8) == Some(0);
  }

  /**
   * Splitting the last-grown block puts the free tail after it on the
   * chain, but `head` stays put, so the next growth links the new block
   * straight after `head` and the free tail is no longer reachable.
   */
  lemma SplitHeadThenGrowDropsTail(h: Heap, size: nat, size2: nat)
    requires Valid(h) && h.head.Some? && WordSized(size) && WordSized(size2)
    requires CanSplit(h.blocks[h.head.value], size)
    ensures var h1 := ListAllocate(h, h.head.value, size);
      && Valid(h1)
      && |h.blocks| in h1.chain && !h1.blocks[|h.blocks|].isUsed
      && |h.blocks| !in Grow(h1, size2).chain
  {
    var r := h.head.value;
    ListAllocateSpec(h, r, size);
    SplitChain(h, r, size);
    var h1 := ListAllocate(h, r, size);
    var i := IndexOf(h.chain, r);
    assert h1.chain == Split(h, r, size).chain;
    assert h1.chain[i] == r;
    IndexOfDistinct(h1.chain, i);
    var c2 := Grow(h1, size2).chain;
    assert c2 == h1.chain[..i + 1] + [|h1.blocks|];
    forall j | 0 <= j < |c2| ensures c2[j] != |h.blocks| {
      if j <= i {
        assert c2[j] == h1.chain[j];
      }
    }
  }
}

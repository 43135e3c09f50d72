/**
 * The first-fit scenarios: test cases 1 to 4 of alloc.cpp's `main`, and the
 * three tests of tests/tests.cpp that share the `AllocatorTests` fixture,
 * whose `SetUp` allocates 8 bytes before every test on the same globals.
 */
module Fixtures {
  import opened Wrappers
  import opened Layout
  import opened HeapState
  import opened Engine
  import opened Properties
  import opened Scenarios
  import opened Alloc

  /**
   * Test cases 1 to 4 of alloc.cpp's `main`, on the globals' initial values,
   * with the value each assertion reads: `allocate(3)` gets a block of one
   * word, `allocate(8)` one of 8 bytes; after `free` that block is no longer
   * used, and the next `allocate(8)` hands out the same block, of 8 bytes.
   */
  method MainFirstFit(base: nat, limit: nat) returns (a: Allocator, size1: nat, size2: nat, usedAfterFree: bool, size3: nat, p2: AllocResult, p3: AllocResult)
    requires base + 2 * AllocSize(WORD) <= limit
    ensures a.Valid() && a.version == Snapshot
    ensures size1 == WORD && size2 == 8 && !usedAfterFree && size3 == 8
    ensures p2.Allocated? && p3 == p2
  {
    a := new Allocator(Snapshot, base, limit);
    var p1 := GrowBy(a, 0, 0, 3);
    size1 := a.blocks[p1.block].size;
    ghost var h1 := a.State();
    var usedBefore;
    p2, size2, usedBefore, usedAfterFree := FreeTest(a, 0, 1);
    ReuseAfterFree(h1, 8);
    p3 := a.Allocate(8);
    size3 := a.blocks[p3.block].size;
  }

  /** `SetUp` then `AlignEightTest`: on a heap grown by first-fit, the fixture's block holds 8 bytes. */
  method AlignEightTest(a: Allocator, ghost L: nat, ghost k: nat) returns (obj: AllocResult)
    requires a.Valid() && Grown(a.State(), L, k) && Strategy(a.version, a.searchMode) == FirstFit
    requires a.brk + AllocSize(8) <= a.limit
    modifies a
    ensures a.Valid() && Grown(a.State(), L, k + 1)
    ensures obj == Allocated(L + k) && a.blocks[obj.block].size == 8
    ensures a.searchMode == old(a.searchMode) && a.brk == old(a.brk) + AllocSize(8)
  {
    obj := GrowBy(a, L, k, 8);
  }

  /**
   * `SetUp` then `FreeTest`: the fixture's block holds 8 bytes and is used
   * when handed out, and it is free after `free`.
   */
  method FreeTest(a: Allocator, ghost L: nat, ghost k: nat) returns (obj: AllocResult, size: nat, usedBefore: bool, usedAfter: bool)
    requires a.Valid() && Grown(a.State(), L, k) && Strategy(a.version, a.searchMode) == FirstFit
    requires a.brk + AllocSize(8) <= a.limit
    modifies a
    ensures a.Valid() && obj == Allocated(L + k) && obj.block < |a.blocks|
    ensures size == 8 && usedBefore && !usedAfter && a.blocks[obj.block].size == 8
    ensures a.State() == Engine.Free(Engine.Allocate(old(a.State()), 8).0, obj.block)
    ensures a.searchMode == old(a.searchMode)
    ensures a.brk == old(a.brk) + AllocSize(8)
  {
    obj := GrowBy(a, L, k, 8);
    size := a.blocks[obj.block].size;
    usedBefore := a.blocks[obj.block].isUsed;
    a.Free(obj.block);
    usedAfter := a.blocks[obj.block].isUsed;
  }

  /**
   * `SetUp` then `ReuseBlockTest`, under first-fit or next-fit on any heap
   * where the break can still move: the block freed right after `SetUp`
   * handed it out is the block the next `allocate(8)` hands out.
   */
  method ReuseBlockTest(a: Allocator) returns (obj: AllocResult, obj2: AllocResult)
    requires a.Valid() && Strategy(a.version, a.searchMode) in {FirstFit, NextFit}
    requires CanGrow(a.State(), 8)
    modifies a
    ensures a.Valid() && obj.Allocated? && obj2 == obj
    ensures obj == Engine.Allocate(old(a.State()), 8).1
  {
    ghost var h0 := a.State();
    AllocateOutcome(h0, 8);
    ReuseAfterFree(h0, 8);
    obj := a.Allocate(8);
    a.Free(obj.block);
    obj2 := a.Allocate(8);
  }

  /**
   * The three fixture tests in the order they are declared, on one set of
   * globals (src/alloc.cpp; first-fit, the globals' initial mode): the block
   * `FreeTest` frees is the one `SetUp` hands out again before
   * `ReuseBlockTest`, which then gets it once more.
   */
  method FixtureRun(base: nat, limit: nat) returns (a: Allocator, o1: AllocResult, o2: AllocResult, o3: AllocResult, o4: AllocResult)
    requires base + 3 * AllocSize(8) <= limit
    ensures a.Valid()
    ensures o1.Allocated? && o2.Allocated? && o1 != o2
    ensures o3 == o2 && o4 == o2
  {
    a := new Allocator(Current, base, limit);
    o1 := AlignEightTest(a, 0, 0);
    ghost var h1 := a.State();
    var s2, u1, u2;
    o2, s2, u1, u2 := FreeTest(a, 0, 1);
    ReuseAfterFree(h1, 8);
    o3, o4 := ReuseBlockTest(a);
  }
}

/**
 * The allocator as the source runs it: the process-wide globals of
 * src/alloc.cpp become the fields of one object, and each operation updates
 * them in place. Each method is proved against a function: `ResetHeap`
 * against `Engine.Reset`; the two scans against `Search.FirstFitSearch` and
 * `Search.NextFitSearch`; `LeastWaste` against `Search.MinWaste`;
 * `FirstWithLeastWaste` against `Search.FirstWithWaste`; `RequestBlock`
 * against `Engine.CanGrow`; every other method against the `Engine`
 * function of the same name. The methods that change state also keep the
 * invariant.
 */
module Alloc {
  import opened Wrappers
  import opened Layout
  import opened HeapState
  import opened Search
  import Engine

  class Allocator {
    /** Which of the two source files this allocator follows. */
    const version: Version
    /** The highest program break the system grants. */
    const limit: nat

    /** The headers stamped so far, by reference. */
    var blocks: seq<Block>
    /** The blocks reachable from `heapStart`, in order. */
    ghost var chain: seq<Ref>
    var heapStart: Option<Ref>
    var head: Option<Ref>
    var searchStart: Option<Ref>
    var searchMode: SearchMode
    var freeList: seq<Ref>
    /** The program break. */
    var brk: nat

    ghost function State(): Heap
      reads this
    {
      Heap(version, blocks, chain, heapStart, head, searchStart, searchMode, freeList, brk, limit)
    }

    ghost predicate Valid()
      reads this
    {
      HeapState.Valid(State())
    }

    /** The globals' initial values: no heap, first-fit mode, an empty free list, the break at `base`. */
    constructor (version: Version, base: nat, limit: nat)
      ensures Valid() && State() == Initial(version, base, limit)
    {
      this.version := version;
      this.limit := limit;
      blocks := [];
      chain := [];
      heapStart := None;
      head := None;
      searchStart := None;
      searchMode := FirstFit;
      freeList := [];
      brk := base;
    }

    /** `reset_heap` */
    method ResetHeap()
      requires Valid()
      modifies this
      ensures Valid() && State() == Engine.Reset(old(State()))
    {
      ghost var h0 := State();
      Engine.ResetSpec(h0);
      if heapStart == None {
        return;
      }
      brk := blocks[heapStart.value].addr;
      heapStart := None;
      head := None;
      searchStart := None;
      chain := [];
    }

    /** `init` */
    method Init(mode: SearchMode)
      requires Valid()
      modifies this
      ensures Valid() && State() == Engine.Init(old(State()), mode)
    {
      searchMode := mode;
      ResetHeap();
    }

    /** `free`, given the block behind the payload pointer. */
    method Free(r: Ref)
      requires Valid() && r < |blocks|
      modifies this
      ensures Valid() && State() == Engine.Free(old(State()), r)
    {
      ghost var h0 := State();
      Engine.FreeSpec(h0, r);
      blocks := blocks[r := blocks[r].(isUsed := false)];
      if version == Current && searchMode == FreeList {
        freeList := freeList + [r];
      }
    }

    /** `split` */
    method Split(r: Ref, size: nat) returns (b: Ref)
      requires Valid() && r < |blocks| && size < blocks[r].size && WordSized(size)
      modifies this
      ensures Valid() && b == r && State() == Engine.Split(old(State()), r, size)
    {
      ghost var h0 := State();
      var block := blocks[r];
      var newBlock := |blocks|;
      blocks := blocks[r := Block(block.addr, size, true, Some(newBlock))]
        + [Block(SplitAddr(block.addr, size), block.size - size, false, block.next)];
      chain := Engine.InsertAfter(chain, r, newBlock);
      b := r;
      assert State() == Engine.Split(h0, r, size) by {
        assert blocks == Engine.Split(h0, r, size).blocks;
        assert chain == Engine.Split(h0, r, size).chain;
      }
      Engine.SplitValid(h0, r, size);
    }

    /** `list_allocate` */
    method ListAllocate(r: Ref, size: nat) returns (b: Ref)
      requires Valid() && r < |blocks| && WordSized(size)
      modifies this
      ensures Valid() && b == r && State() == Engine.ListAllocate(old(State()), r, size)
    {
      ghost var h0 := State();
      Engine.ListAllocateSpec(h0, r, size);
      b := r;
      if Engine.CanSplit(blocks[b], size) {
        b := Split(b, size);
      }
      blocks := blocks[b := blocks[b].(isUsed := true, size := size)];
    }

    /** `first_fit_search`: walk the `next` links from `heapStart`. */
    method FirstFitSearch(size: nat) returns (r: Option<Ref>)
      requires Valid()
      ensures r == Search.FirstFitSearch(State(), size)
    {
      var block := heapStart;
      ghost var k := 0;
      while block != None
        invariant k <= |chain| && block == At(chain, k)
        invariant FirstFitPos(blocks, chain, 0, size) == FirstFitPos(blocks, chain, k, size)
        decreases |chain| - k
      {
        NextLink(blocks, chain, k);
        var b := blocks[block.value];
        if b.isUsed || b.size < size {
          FirstFitStep(blocks, chain, k, size);
          block := b.next;
          k := k + 1;
          continue;
        }
        return block;
      }
      return None;
    }

    /** `next_fit_search`: walk the `next` links from `searchStart`. */
    method NextFitSearch(size: nat) returns (r: Option<Ref>)
      requires Valid()
      ensures r == Search.NextFitSearch(State(), size)
    {
      var block := searchStart;
      ghost var k0 := Cursor(State());
      ghost var k := k0;
      while block != None
        invariant k <= |chain| && block == At(chain, k)
        invariant FirstFitPos(blocks, chain, k0, size) == FirstFitPos(blocks, chain, k, size)
        decreases |chain| - k
      {
        NextLink(blocks, chain, k);
        var b := blocks[block.value];
        if b.isUsed || b.size < size {
          FirstFitStep(blocks, chain, k, size);
          block := b.next;
          k := k + 1;
          continue;
        }
        return block;
      }
      return None;
    }

    /** The first walk of `best_fit_search`: the least waste of a fitting block, starting from the sentinel. */
    method LeastWaste(size: nat) returns (sizeDifference: nat)
      requires Valid()
      ensures sizeDifference == MinWaste(blocks, chain, size, |chain|)
    {
      var block := heapStart;
      sizeDifference := SENTINEL;
      ghost var k := 0;
      while block != None
        invariant k <= |chain| && block == At(chain, k)
        invariant sizeDifference == MinWaste(blocks, chain, size, k)
        decreases |chain| - k
      {
        NextLink(blocks, chain, k);
        MinWasteStep(blocks, chain, size, k);
        var b := blocks[block.value];
        if !b.isUsed && b.size >= size {
          if sizeDifference > b.size - size {
            sizeDifference := b.size - size;
          }
        }
        block := b.next;
        k := k + 1;
      }
    }

    /** The second walk of `best_fit_search`: the first fitting block whose waste is `sizeDifference`. */
    method FirstWithLeastWaste(size: nat, sizeDifference: nat) returns (block: Option<Ref>)
      requires Valid()
      ensures block == RefAt(chain, FirstWithWaste(blocks, chain, size, sizeDifference, 0))
    {
      block := heapStart;
      ghost var k := 0;
      while block != None
        invariant k <= |chain| && block == At(chain, k)
        invariant FirstWithWaste(blocks, chain, size, sizeDifference, 0) == FirstWithWaste(blocks, chain, size, sizeDifference, k)
        decreases |chain| - k
      {
        NextLink(blocks, chain, k);
        var b := blocks[block.value];
        if !b.isUsed && b.size >= size {
          if sizeDifference == b.size - size {
            break;
          }
        }
        FirstWithWasteStep(blocks, chain, size, sizeDifference, k);
        block := b.next;
        k := k + 1;
      }
    }

    /**
     * `best_fit_search`: a first walk finds the least waste, a second walk
     * stops at the first block with that waste, which is then allocated.
     */
    method BestFitSearch(size: nat) returns (r: Option<Ref>)
      requires Valid() && WordSized(size)
      modifies this
      ensures Valid() && (State(), r) == Engine.BestFitSearch(old(State()), size)
    {
      var sizeDifference := LeastWaste(size);
      if sizeDifference == SENTINEL {
        return None;
      }
      var block := FirstWithLeastWaste(size, sizeDifference);
      assert block.Some? by {
        BestFitChoice(State(), size);
      }
      var found := ListAllocate(block.value, size);
      return Some(found);
    }

    /**
     * `free_list_search`: go through the free list in order; at the first
     * entry large enough, remove every copy of it and allocate it.
     */
    method FreeListSearch(size: nat) returns (r: Option<Ref>)
      requires Valid() && WordSized(size)
      modifies this
      ensures Valid() && (State(), r) == Engine.FreeListSearch(old(State()), size)
    {
      ghost var h0 := State();
      var i := 0;
      while i < |freeList|
        invariant State() == h0
        invariant i <= |freeList|
        invariant FreeListPos(blocks, freeList, 0, size) == FreeListPos(blocks, freeList, i, size)
      {
        var block := freeList[i];
        if blocks[block].size < size {
          i := i + 1;
          continue;
        }
        freeList := Without(freeList, block);
        assert HeapState.Valid(h0.(freeList := freeList));
        var found := ListAllocate(block, size);
        return Some(found);
      }
      return None;
    }

    /** `find_block`: the switch on the mode, with first-fit after it. */
    method FindBlock(size: nat) returns (r: Option<Ref>)
      requires Valid() && WordSized(size)
      modifies this
      ensures Valid() && (State(), r) == Engine.FindBlock(old(State()), size)
    {
      match searchMode {
        case FirstFit =>
          r := FirstFitSearch(size);
          return;
        case NextFit =>
          r := NextFitSearch(size);
          return;
        case BestFit =>
          r := BestFitSearch(size);
          return;
        case FreeList =>
          if version == Current {
            r := FreeListSearch(size);
            return;
          }
        case Unlisted =>
      }
      r := FirstFitSearch(size);
    }

    /** `request_block`: move the break up by `alloc_size(size)` bytes and return the old break, or fail. */
    method RequestBlock(size: nat) returns (addr: Option<nat>)
      requires size < SIZE_MODULUS
      modifies this`brk
      ensures addr == if Engine.CanGrow(old(State()), size) then Some(old(brk)) else None
      ensures brk == if addr.Some? then old(brk) + AllocSize(size) else old(brk)
    {
      if brk + AllocSize(size) > limit {
        return None;
      }
      addr := Some(brk);
      brk := brk + AllocSize(size);
    }

    /** `allocate` */
    method Allocate(n: nat) returns (res: Engine.AllocResult)
      requires Valid() && n < SIZE_MODULUS
      modifies this
      ensures Valid() && (State(), res) == Engine.Allocate(old(State()), n)
    {
      ghost var h0 := State();
      Engine.AllocateValid(h0, n);
      var size := Align(n);

      var found := FindBlock(size);
      if found.Some? {
        return Engine.Allocated(found.value);
      }

      var addr := RequestBlock(size);
      if addr.None? {
        return Engine.OutOfMemory;
      }

      var block := |blocks|;
      blocks := blocks + [Block(addr.value, size, true, None)];

      if heapStart == None {
        heapStart := Some(block);
      }

      if head != None {
        blocks := blocks[head.value := blocks[head.value].(next := Some(block))];
        chain := chain[..IndexOf(chain, head.value) + 1] + [block];
      } else {
        chain := [block];
      }

      head := Some(block);
      searchStart := Some(block);

      return Engine.Allocated(block);
    }
  }
}

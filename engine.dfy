/**
 * The allocator engine as functions of the heap: reset and init, free,
 * split and list_allocate, the searches that allocate, the mode dispatch
 * and allocate (src/alloc.cpp; alloc.cpp is the same engine without the
 * free list).
 */
module Engine {
  import opened Wrappers
  import opened Layout
  import opened HeapState
  import opened Search

  /** What `allocate` hands back: the block behind the returned payload, or an out-of-memory failure. */
  datatype AllocResult = Allocated(block: Ref) | OutOfMemory

  /** `reset_heap`: roll the break back to `heapStart` and null the three cursors; a no-op on an empty heap. */
  function Reset(h: Heap): Heap
    requires Valid(h)
  {
    if h.heapStart.None? then h
    else h.(brk := h.blocks[h.heapStart.value].addr,
            heapStart := None, head := None, searchStart := None, chain := [])
  }

  /** `init(mode)`: select the search mode, then reset the heap. */
  function Init(h: Heap, mode: SearchMode): Heap
    requires Valid(h)
  {
    Reset(h.(mode := mode))
  }

  /**
   * `free`: clear `isUsed` on the block behind the payload, and append it to
   * the free list in free-list mode (the older version has no free list).
   */
  function Free(h: Heap, r: Ref): Heap
    requires r < |h.blocks|
  {
    h.(blocks := h.blocks[r := h.blocks[r].(isUsed := false)],
       freeList := if h.version == Current && h.mode == FreeList then h.freeList + [r] else h.freeList)
  }

  /** `can_split`: the block holds strictly more than the request. */
  predicate CanSplit(b: Block, size: nat) {
    b.size > size
  }

  /** `c` with `n` put right after `r`, when `r` is on it. */
  function InsertAfter(c: seq<Ref>, r: Ref, n: Ref): seq<Ref> {
    if r in c then InsertAt(c, IndexOf(c, r), n) else c
  }

  /**
   * `split`: stamp a free tail holding the rest of `r`'s bytes, linked where
   * `r` was linked, and shrink `r` to a used block of `size` bytes linked to
   * the tail. The tail header's address uses the scaled offset.
   */
  function Split(h: Heap, r: Ref, size: nat): Heap
    requires r < |h.blocks| && size < h.blocks[r].size
  {
    var b := h.blocks[r];
    var n := |h.blocks|;
    var tail := Block(SplitAddr(b.addr, size), b.size - size, false, b.next);
    h.(blocks := h.blocks[r := Block(b.addr, size, true, Some(n))] + [tail],
       chain := InsertAfter(h.chain, r, n))
  }

  /** `list_allocate`: split when the block is strictly larger, then mark it used with exactly `size` bytes. */
  function ListAllocate(h: Heap, r: Ref, size: nat): Heap
    requires r < |h.blocks|
  {
    var h1 := if CanSplit(h.blocks[r], size) then Split(h, r, size) else h;
    h1.(blocks := h1.blocks[r := h1.blocks[r].(isUsed := true, size := size)])
  }

  /** `best_fit_search`: pick the block of least waste and allocate it with `list_allocate`. */
  function BestFitSearch(h: Heap, size: nat): (res: (Heap, Option<Ref>))
    requires Valid(h)
    ensures res.1.None? ==> res.0 == h
  {
    match BestFitPos(h, size)
    case None => (h, None)
    case Some(k) => (ListAllocate(h, h.chain[k], size), Some(h.chain[k]))
  }

  /**
   * `free_list_search`: take the first entry, in insertion order, large
   * enough; remove every copy of it from the free list and allocate it.
   */
  function FreeListSearch(h: Heap, size: nat): (res: (Heap, Option<Ref>))
    requires Valid(h)
    ensures res.1.None? ==> res.0 == h
  {
    match FreeListPos(h.blocks, h.freeList, 0, size)
    case None => (h, None)
    case Some(k) =>
      var x := h.freeList[k];
      (ListAllocate(h.(freeList := Without(h.freeList, x)), x, size), Some(x))
  }

  /**
   * The policy `find_block` dispatches to: a tag that is not an enumerator
   * of the version's `SearchMode` falls through the switch to first-fit.
   */
  function Strategy(version: Version, mode: SearchMode): (s: SearchMode)
    ensures s in {FirstFit, NextFit, BestFit, FreeList}
    ensures s.FreeList? ==> version.Current?
    ensures (mode.Unlisted? || (mode.FreeList? && version.Snapshot?)) ==> s.FirstFit?
    ensures (mode.Unlisted? || (mode.FreeList? && version.Snapshot?)) || s == mode
  {
    match mode
    case FirstFit => FirstFit
    case NextFit => NextFit
    case BestFit => BestFit
    case FreeList => if version == Current then FreeList else FirstFit
    case Unlisted => FirstFit
  }

  /** `find_block`: run the selected search; the first two search without changing anything. */
  function FindBlock(h: Heap, size: nat): (res: (Heap, Option<Ref>))
    requires Valid(h)
    ensures res.1.None? ==> res.0 == h
  {
    match Strategy(h.version, h.mode)
    case FirstFit => (h, FirstFitSearch(h, size))
    case NextFit => (h, NextFitSearch(h, size))
    case BestFit => BestFitSearch(h, size)
    case FreeList => FreeListSearch(h, size)
  }

  /** `request_block` succeeds: the break can move up by `alloc_size(size)` bytes. */
  predicate CanGrow(h: Heap, size: nat)
    requires size < SIZE_MODULUS
  {
    h.brk + AllocSize(size) <= h.limit
  }

  /**
   * The growth path of `allocate`: stamp a used block of `size` bytes at the
   * old break, link it after `head`, make it `head` and `searchStart`, and
   * `heapStart` too if the heap was empty. The new header's `next` is never
   * written; it is taken to be null.
   */
  function Grow(h: Heap, size: nat): Heap
    requires Valid(h) && size < SIZE_MODULUS
  {
    var n := |h.blocks|;
    var bs := h.blocks + [Block(h.brk, size, true, None)];
    h.(blocks := if h.head.Some? then bs[h.head.value := bs[h.head.value].(next := Some(n))] else bs,
       chain := if h.head.Some? then h.chain[..IndexOf(h.chain, h.head.value) + 1] + [n] else [n],
       heapStart := if h.heapStart.None? then Some(n) else h.heapStart,
       head := Some(n),
       searchStart := Some(n),
       brk := h.brk + AllocSize(size))
  }

  /**
   * `allocate(n)`: align the request; hand out the block the search finds;
   * otherwise grow the heap by one block. When the system refuses to move
   * the break the source dereferences a null header; here that is an
   * out-of-memory result with the state left as the search left it.
   */
  function Allocate(h: Heap, n: nat): (res: (Heap, AllocResult))
    requires Valid(h) && n < SIZE_MODULUS
  {
    var size := Align(n);
    var found := FindBlock(h, size);
    if found.1.Some? then (found.0, Allocated(found.1.value))
    else if CanGrow(found.0, size) then (Grow(found.0, size), Allocated(|found.0.blocks|))
    else (found.0, OutOfMemory)
  }

  // ---------------------------------------------------------------------
  // Properties

  /** The difference of two word-sized sizes is word-sized. */
  lemma WordSizedDiff(a: nat, b: nat)
    requires WordSized(a) && WordSized(b) && b <= a
    ensures WordSized(a - b)
  {
  }

  /**
   * `reset_heap` does nothing on an empty heap; otherwise it empties the
   * chain, nulls `heapStart`, `head` and `searchStart`, moves the break back
   * to the first block's header, and keeps the headers, the mode and the
   * free list as they were.
   */
  lemma ResetSpec(h: Heap)
    requires Valid(h)
    ensures Valid(Reset(h))
    ensures h.heapStart.None? ==> Reset(h) == h
    ensures h.heapStart.Some? ==> Reset(h).brk == h.blocks[h.heapStart.value].addr
    ensures Reset(h).heapStart.None? && Reset(h).head.None? && Reset(h).searchStart.None? && Reset(h).chain == []
    ensures Reset(h).blocks == h.blocks && Reset(h).freeList == h.freeList && Reset(h).mode == h.mode
  {
  }

  /** `init(mode)` selects the mode and empties the heap; a second `init` with the same mode changes nothing. */
  lemma InitSpec(h: Heap, mode: SearchMode)
    requires Valid(h)
    ensures Valid(Init(h, mode))
    ensures Init(h, mode).mode == mode
    ensures Init(h, mode).heapStart.None? && Init(h, mode).head.None? && Init(h, mode).searchStart.None?
    ensures Init(h, mode).freeList == h.freeList
    ensures Init(Init(h, mode), mode) == Init(h, mode)
  {
    ResetSpec(h.(mode := mode));
  }

  /**
   * `free` clears only `isUsed` of the one block, and appends it to the free
   * list exactly when the current version runs in free-list mode.
   */
  lemma FreeSpec(h: Heap, r: Ref)
    requires Valid(h) && r < |h.blocks|
    ensures Valid(Free(h, r))
    ensures |Free(h, r).blocks| == |h.blocks|
    ensures Free(h, r).blocks[r] == h.blocks[r].(isUsed := false)
    ensures forall q :: 0 <= q < |h.blocks| && q != r ==> Free(h, r).blocks[q] == h.blocks[q]
    ensures Free(h, r).freeList == if h.version == Current && h.mode == FreeList then h.freeList + [r] else h.freeList
    ensures Free(h, r).(blocks := h.blocks, freeList := h.freeList) == h
  {
  }

  /** `split` keeps the invariant. */
  lemma SplitValid(h: Heap, r: Ref, size: nat)
    requires Valid(h) && r < |h.blocks| && size < h.blocks[r].size && WordSized(size)
    ensures Valid(Split(h, r, size))
  {
    var h' := Split(h, r, size);
    var n := |h.blocks|;
    WordSizedDiff(h.blocks[r].size, size);
    assert AllWordSized(h'.blocks);
    if r in h.chain {
      assert n !in h.chain;
      LinkedInsert(h.blocks, h'.blocks, h.chain, r, n);
    } else {
      LinkedFrame(h.blocks, h'.blocks, h.chain);
    }
  }

  /**
   * `split(r, size)`: `r` becomes a used block of `size` bytes linked to a
   * new free tail; the tail holds the rest of the bytes and takes `r`'s old
   * link; the two sizes add up to the old one; no other block and no cursor
   * changes.
   */
  lemma SplitSpec(h: Heap, r: Ref, size: nat)
    requires r < |h.blocks| && size < h.blocks[r].size
    ensures var h' := Split(h, r, size);
      var n := |h.blocks|;
      && |h'.blocks| == n + 1
      && h'.blocks[r] == Block(h.blocks[r].addr, size, true, Some(n))
      && h'.blocks[n] == Block(SplitAddr(h.blocks[r].addr, size), h.blocks[r].size - size, false, h.blocks[r].next)
      && h'.blocks[r].size + h'.blocks[n].size == h.blocks[r].size
      && (forall q :: 0 <= q < n && q != r ==> h'.blocks[q] == h.blocks[q])
      && h'.(blocks := h.blocks, chain := h.chain) == h
  {
  }

  /** The tail made by `split` follows `r` on the chain when `r` is on it; otherwise the chain is unchanged. */
  lemma SplitChain(h: Heap, r: Ref, size: nat)
    requires Valid(h) && r < |h.blocks| && size < h.blocks[r].size && WordSized(size)
    ensures var c' := Split(h, r, size).chain;
      && (r in h.chain ==> |h.blocks| in c' && IndexOf(c', |h.blocks|) == IndexOf(h.chain, r) + 1)
      && (r !in h.chain ==> c' == h.chain)
  {
    SplitValid(h, r, size);
    var c' := Split(h, r, size).chain;
    if r in h.chain {
      var i := IndexOf(h.chain, r);
      assert c'[i + 1] == |h.blocks|;
      IndexOfDistinct(c', i + 1);
    }
  }

  /**
   * `list_allocate(r, size)`: afterwards `r` is used and holds exactly
   * `size` bytes; a new free tail is made exactly when the block was
   * strictly larger; a block of exactly `size` bytes is only marked used.
   */
  lemma ListAllocateSpec(h: Heap, r: Ref, size: nat)
    requires Valid(h) && r < |h.blocks| && WordSized(size)
    ensures var h' := ListAllocate(h, r, size);
      && Valid(h')
      && h'.blocks[r].isUsed && h'.blocks[r].size == size
      && |h'.blocks| == |h.blocks| + (if h.blocks[r].size > size then 1 else 0)
      && (h.blocks[r].size > size ==>
            h'.blocks[|h.blocks|].size == h.blocks[r].size - size
            && !h'.blocks[|h.blocks|].isUsed
            && h'.blocks[r].next == Some(|h.blocks|))
      && (h.blocks[r].size == size ==> h' == h.(blocks := h.blocks[r := h.blocks[r].(isUsed := true)]))
      && (forall q :: 0 <= q < |h.blocks| && q != r ==> h'.blocks[q] == h.blocks[q])
      && h'.(blocks := h.blocks, chain := h.chain) == h
  {
    if CanSplit(h.blocks[r], size) {
      SplitValid(h, r, size);
      SplitSpec(h, r, size);
    }
  }

  /**
   * `free_list_search`: when an entry fits, the first one that does is
   * handed out, every copy of it leaves the free list, the rest keep their
   * order, and the block is allocated; when none fits the state is unchanged.
   */
  lemma FreeListSearchSpec(h: Heap, size: nat)
    requires Valid(h) && WordSized(size)
    ensures var (h', r) := FreeListSearch(h, size);
      && Valid(h')
      && (r.None? <==> forall j :: 0 <= j < |h.freeList| ==> h.blocks[h.freeList[j]].size < size)
      && (r.None? ==> h' == h)
      && (r.Some? ==>
            var k := FreeListPos(h.blocks, h.freeList, 0, size).value;
            && k < |h.freeList| && r.value == h.freeList[k]
            && h.blocks[r.value].size >= size
            && (forall j :: 0 <= j < k ==> h.blocks[h.freeList[j]].size < size)
            && h'.freeList == Without(h.freeList, r.value)
            && r.value !in h'.freeList
            && h'.blocks[r.value].isUsed && h'.blocks[r.value].size == size)
  {
    var p := FreeListPos(h.blocks, h.freeList, 0, size);
    if p.Some? {
      var x := h.freeList[p.value];
      var fl := Without(h.freeList, x);
      var h0 := h.(freeList := fl);
      assert RefsIn(h.blocks, fl);
      assert Valid(h0);
      ListAllocateSpec(h0, x, size);
      assert FreeListSearch(h, size) == (ListAllocate(h0, x, size), Some(x));
    }
  }

  /**
   * `best_fit_search`: when some fitting block wastes less than the
   * sentinel, the least-waste one that comes first on the chain is handed
   * out and allocated; otherwise nothing is found and nothing changes.
   */
  lemma BestFitSearchSpec(h: Heap, size: nat)
    requires Valid(h) && WordSized(size)
    ensures var (h', r) := BestFitSearch(h, size);
      && Valid(h')
      && (r.None? ==> h' == h)
      && (r.Some? ==> BestFitPos(h, size).Some? && r.value == h.chain[BestFitPos(h, size).value]
                      && h'.blocks[r.value].isUsed && h'.blocks[r.value].size == size)
  {
    var p := BestFitPos(h, size);
    if p.Some? {
      ListAllocateSpec(h, h.chain[p.value], size);
    }
  }

  /** Every search keeps the invariant, and a block it finds is one that was already stamped. */
  lemma FindBlockSpec(h: Heap, size: nat)
    requires Valid(h) && WordSized(size)
    ensures Valid(FindBlock(h, size).0)
    ensures FindBlock(h, size).1.Some? ==> FindBlock(h, size).1.value < |h.blocks|
    ensures FindBlock(h, size).0.searchStart == h.searchStart && FindBlock(h, size).0.head == h.head
    ensures FindBlock(h, size).0.heapStart == h.heapStart && FindBlock(h, size).0.brk == h.brk
  {
    match Strategy(h.version, h.mode)
    case FirstFit =>
    case NextFit =>
    case BestFit => BestFitSearchSpec(h, size);
    case FreeList => FreeListSearchSpec(h, size);
  }

  /** Growth keeps the invariant. */
  lemma GrowValid(h: Heap, size: nat)
    requires Valid(h) && WordSized(size)
    ensures Valid(Grow(h, size))
  {
    var h' := Grow(h, size);
    assert AllWordSized(h'.blocks);
    if h.head.Some? {
      LinkedAppend(h.blocks, h'.blocks, h.chain, h.head.value, |h.blocks|);
    }
  }

  /**
   * The growth path: one used block of `size` bytes is stamped at the old
   * break and put at the end of the chain, right after the old `head`,
   * which now links to it; it becomes `head` and `searchStart`, and
   * `heapStart` only if that was null; the break moves by `alloc_size(size)`.
   */
  lemma GrowSpec(h: Heap, size: nat)
    requires Valid(h) && WordSized(size)
    ensures var h' := Grow(h, size);
      var n := |h.blocks|;
      && |h'.blocks| == n + 1
      && h'.blocks[n] == Block(h.brk, size, true, None)
      && (h.head.Some? ==> h'.blocks[h.head.value] == h.blocks[h.head.value].(next := Some(n)))
      && (forall q :: 0 <= q < n && Some(q) != h.head ==> h'.blocks[q] == h.blocks[q])
      && h'.chain[|h'.chain| - 1] == n
      && (h.head.Some? ==> h'.chain == h.chain[..IndexOf(h.chain, h.head.value) + 1] + [n])
      && (h.head.None? ==> h'.chain == [n])
      && h'.head == Some(n) && h'.searchStart == Some(n)
      && h'.heapStart == (if h.heapStart.None? then Some(n) else h.heapStart)
      && h'.brk == h.brk + AllocSize(size)
      && h'.freeList == h.freeList && h'.mode == h.mode
  {
  }

  /** `allocate` keeps the invariant; a block it hands out is a stamped one. */
  lemma AllocateValid(h: Heap, n: nat)
    requires Valid(h) && n < SIZE_MODULUS
    ensures Valid(Allocate(h, n).0)
    ensures Allocate(h, n).1.Allocated? ==> Allocate(h, n).1.block < |Allocate(h, n).0.blocks|
  {
    var size := Align(n);
    if FindBlock(h, size).1.Some? {
      AllocateHit(h, n);
    } else if CanGrow(h, size) {
      GrowValid(h, size);
      AllocateGrow(h, n);
    }
  }

  /** A hit: `allocate` returns what the search returned. */
  lemma AllocateHit(h: Heap, n: nat)
    requires Valid(h) && n < SIZE_MODULUS && FindBlock(h, Align(n)).1.Some?
    ensures Valid(Allocate(h, n).0)
    ensures Allocate(h, n) == (FindBlock(h, Align(n)).0, Allocated(FindBlock(h, Align(n)).1.value))
    ensures Allocate(h, n).1.block < |Allocate(h, n).0.blocks|
  {
    FindBlockSpec(h, Align(n));
  }

  /** A miss the system can serve: `allocate` grows the heap. */
  lemma AllocateGrow(h: Heap, n: nat)
    requires Valid(h) && n < SIZE_MODULUS && FindBlock(h, Align(n)).1.None? && CanGrow(h, Align(n))
    ensures Allocate(h, n) == (Grow(h, Align(n)), Allocated(|h.blocks|))
  {
  }

  /**
   * The three outcomes of `allocate(n)`: a hit hands out the found block
   * and leaves the cursors alone; a miss grows the heap by one block of
   * `align(n)` bytes and hands that out; a miss the system cannot serve
   * fails and changes nothing.
   */
  lemma AllocateOutcome(h: Heap, n: nat)
    requires Valid(h) && n < SIZE_MODULUS
    ensures var (h', res) := Allocate(h, n);
      var (h1, found) := FindBlock(h, Align(n));
      && (found.Some? ==> res == Allocated(found.value) && h' == h1
                          && found.value < |h.blocks|
                          && h'.searchStart == h.searchStart && h'.head == h.head && h'.heapStart == h.heapStart)
      && (found.None? && CanGrow(h, Align(n)) ==>
            && res == Allocated(|h.blocks|) && h' == Grow(h, Align(n))
            && h'.blocks[|h.blocks|].size == Align(n) && h'.blocks[|h.blocks|].isUsed
            && h'.head == Some(|h.blocks|) && h'.searchStart == Some(|h.blocks|))
      && (found.None? && !CanGrow(h, Align(n)) ==> res == OutOfMemory && h' == h)
  {
    FindBlockSpec(h, Align(n));
    if FindBlock(h, Align(n)).1.None? && CanGrow(h, Align(n)) {
      GrowSpec(h, Align(n));
    }
  }

  /**
   * Under first-fit and next-fit a reused block is handed out as it is: it
   * stays marked free and the state does not change at all.
   */
  lemma ReuseLeavesBlockFree(h: Heap, n: nat)
    requires Valid(h) && n < SIZE_MODULUS
    requires Strategy(h.version, h.mode) in {FirstFit, NextFit}
    requires Allocate(h, n).1.Allocated? && Allocate(h, n).1.block < |h.blocks|
    ensures Allocate(h, n).0 == h
    ensures !h.blocks[Allocate(h, n).1.block].isUsed
    ensures h.blocks[Allocate(h, n).1.block].size >= Align(n)
  {
    var p := FirstFitPos(h.blocks, h.chain, if Strategy(h.version, h.mode) == FirstFit then 0 else Cursor(h), Align(n));
    assert FindBlock(h, Align(n)).1 == RefAt(h.chain, p);
  }
}

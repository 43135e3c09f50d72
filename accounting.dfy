/**
 * Byte accounting: the bytes obtained from the break against the bytes the
 * chain's headers and payloads take up. A heap built by growth lays its
 * blocks out back to back, header and payload, up to the break; first-fit
 * and next-fit never split, so they keep that layout; a split makes a new
 * header out of no new bytes, and the sum is then off by one header.
 */
module Accounting {
  import opened Wrappers
  import opened Layout
  import opened HeapState
  import opened Search
  import opened Engine

  /** The bytes the blocks of `c` take up: each one's header and payload, as `alloc_size` counts them. */
  function Extent(bs: seq<Block>, c: seq<Ref>): nat
    requires RefsIn(bs, c) && AllWordSized(bs)
  {
    if c == [] then 0 else AllocSize(bs[c[0]].size) + Extent(bs, c[1..])
  }

  /** Each block of `c` starts where the one before it, header and payload, ends. */
  predicate Adjacent(bs: seq<Block>, c: seq<Ref>)
    requires RefsIn(bs, c) && AllWordSized(bs)
  {
    forall i :: 0 < i < |c| ==> bs[c[i]].addr == bs[c[i - 1]].addr + AllocSize(bs[c[i - 1]].size)
  }

  /**
   * The layout growth leaves: the chain ends at `head`, its blocks lie back
   * to back, and the break sits right after the last of them.
   */
  predicate Packed(h: Heap) {
    && RefsIn(h.blocks, h.chain)
    && AllWordSized(h.blocks)
    && (h.chain != [] ==>
          && h.head == Some(h.chain[|h.chain| - 1])
          && Adjacent(h.blocks, h.chain)
          && h.brk == h.blocks[h.chain[|h.chain| - 1]].addr + AllocSize(h.blocks[h.chain[|h.chain| - 1]].size))
  }

  /** Extent adds up over a concatenation. */
  lemma {:induction false} ExtentConcat(bs: seq<Block>, a: seq<Ref>, b: seq<Ref>)
    requires RefsIn(bs, a) && RefsIn(bs, b) && AllWordSized(bs)
    ensures RefsIn(bs, a + b) && Extent(bs, a + b) == Extent(bs, a) + Extent(bs, b)
  {
    if a == [] {
      assert a + b == b;
    } else {
      assert (a + b)[0] == a[0] && (a + b)[1..] == a[1..] + b;
      ExtentConcat(bs, a[1..], b);
    }
  }

  /** Extent only looks at the sizes of the blocks on the list. */
  lemma {:induction false} ExtentFrame(bs: seq<Block>, bs': seq<Block>, c: seq<Ref>)
    requires RefsIn(bs, c) && RefsIn(bs', c) && AllWordSized(bs) && AllWordSized(bs')
    requires forall i :: 0 <= i < |c| ==> bs'[c[i]].size == bs[c[i]].size
    ensures Extent(bs', c) == Extent(bs, c)
  {
    if c != [] {
      ExtentFrame(bs, bs', c[1..]);
    }
  }

  /** Blocks laid back to back span, from the first header to the end of the last payload, exactly their extent. */
  lemma {:induction false} ExtentSpan(bs: seq<Block>, c: seq<Ref>)
    requires RefsIn(bs, c) && AllWordSized(bs) && Adjacent(bs, c) && c != []
    ensures bs[c[|c| - 1]].addr + AllocSize(bs[c[|c| - 1]].size) == bs[c[0]].addr + Extent(bs, c)
  {
    if |c| > 1 {
      var rest := c[1..];
      assert Adjacent(bs, rest) by {
        forall i | 0 < i < |rest| ensures bs[rest[i]].addr == bs[rest[i - 1]].addr + AllocSize(bs[rest[i - 1]].size) {
          assert rest[i] == c[i + 1] && rest[i - 1] == c[i];
        }
      }
      ExtentSpan(bs, rest);
      assert bs[c[1]].addr == bs[c[0]].addr + AllocSize(bs[c[0]].size);
      assert rest[|rest| - 1] == c[|c| - 1];
    }
  }

  /**
   * The accounting the design promises: on a packed heap, the bytes between
   * the first header and the break are exactly the chain's headers and
   * payloads.
   */
  lemma PackedExtent(h: Heap)
    requires Packed(h) && h.chain != []
    ensures h.brk - h.blocks[h.chain[0]].addr == Extent(h.blocks, h.chain)
  {
    ExtentSpan(h.blocks, h.chain);
  }

  /** Without wrap-around, the next block of a packed chain starts right after the previous block's payload. */
  lemma PackedAdjacent(h: Heap, i: nat)
    requires Packed(h) && 0 < i < |h.chain|
    requires h.blocks[h.chain[i - 1]].size < SIZE_MODULUS - OVERHEAD
    ensures h.blocks[h.chain[i]].addr == Payload(h.blocks[h.chain[i - 1]].addr) + h.blocks[h.chain[i - 1]].size
  {
  }

  /** The globals' initial state is packed: there is no chain. */
  lemma InitialPacked(version: Version, base: nat, limit: nat)
    ensures Packed(Initial(version, base, limit))
  {
  }

  /** `init`, and the reset it performs, empty the chain and so leave a packed heap. */
  lemma InitPacked(h: Heap, mode: SearchMode)
    requires Valid(h)
    ensures Packed(Reset(h)) && Packed(Init(h, mode))
  {
    ResetSpec(h);
    ResetSpec(h.(mode := mode));
  }

  /** `free` changes no address, size, link target on the chain, cursor or break: the layout stays packed. */
  lemma FreePacked(h: Heap, r: Ref)
    requires Valid(h) && Packed(h) && r < |h.blocks|
    ensures Packed(Free(h, r))
  {
    FreeSpec(h, r);
  }

  /**
   * Growth on a packed heap stamps the new block at the break, right after
   * the last block, and moves the break past it: the heap stays packed and
   * its extent grows by `alloc_size(size)`.
   */
  lemma GrowPacked(h: Heap, size: nat)
    requires Valid(h) && Packed(h) && WordSized(size)
    ensures Packed(Grow(h, size))
    ensures Extent(Grow(h, size).blocks, Grow(h, size).chain) == Extent(h.blocks, h.chain) + AllocSize(size)
  {
    GrowValid(h, size);
    GrowSpec(h, size);
    var h' := Grow(h, size);
    var c := h.chain;
    if c != [] {
      IndexOfDistinct(c, |c| - 1);
      assert c[..|c|] == c;
    }
    AppendPacked(h.blocks, c, h'.blocks, |h.blocks|);
  }

  /**
   * A block stamped where a back-to-back list ends, with the blocks before
   * it keeping their addresses and sizes, extends the list back to back and
   * adds its own header and payload to the extent.
   */
  lemma AppendPacked(bs: seq<Block>, c: seq<Ref>, bs': seq<Block>, n: Ref)
    requires RefsIn(bs, c) && AllWordSized(bs) && AllWordSized(bs') && |bs| <= n < |bs'|
    requires Adjacent(bs, c)
    requires forall q :: 0 <= q < |bs| ==> bs'[q].addr == bs[q].addr && bs'[q].size == bs[q].size
    requires c != [] ==> bs'[n].addr == bs[c[|c| - 1]].addr + AllocSize(bs[c[|c| - 1]].size)
    ensures RefsIn(bs', c + [n]) && Adjacent(bs', c + [n])
    ensures Extent(bs', c + [n]) == Extent(bs, c) + AllocSize(bs'[n].size)
  {
    var c' := c + [n];
    forall i | 0 < i < |c'|
      ensures bs'[c'[i]].addr == bs'[c'[i - 1]].addr + AllocSize(bs'[c'[i - 1]].size)
    {
      assert c'[i - 1] == c[i - 1];
      if i < |c| {
        assert c'[i] == c[i];
      }
    }
    ExtentConcat(bs', c, [n]);
    ExtentFrame(bs, bs', c);
  }

  /**
   * First-fit and next-fit never split a block: `allocate` either hands out
   * a block as it is or grows the heap, so the layout stays packed.
   */
  lemma AllocateKeepsPacked(h: Heap, n: nat)
    requires Valid(h) && Packed(h) && n < SIZE_MODULUS
    requires Strategy(h.version, h.mode) in {FirstFit, NextFit}
    ensures Packed(Allocate(h, n).0)
  {
    var size := Align(n);
    if FindBlock(h, size).1.Some? {
      AllocateHit(h, n);
    } else if CanGrow(h, size) {
      AllocateGrow(h, n);
      GrowPacked(h, size);
    }
  }

  /**
   * A split of a block on the chain makes a new header, yet the two sizes
   * only add up to the old one: the chain's extent grows by one header
   * while the break stays where it was.
   */
  lemma SplitAddsHeader(h: Heap, r: Ref, size: nat)
    requires Valid(h) && r in h.chain && WordSized(size) && size < h.blocks[r].size
    requires h.blocks[r].size < SIZE_MODULUS - OVERHEAD
    ensures Valid(ListAllocate(h, r, size))
    ensures ListAllocate(h, r, size).chain == InsertAt(h.chain, IndexOf(h.chain, r), |h.blocks|)
    ensures Extent(ListAllocate(h, r, size).blocks, ListAllocate(h, r, size).chain) == Extent(h.blocks, h.chain) + OVERHEAD
    ensures ListAllocate(h, r, size).brk == h.brk
    ensures forall q :: 0 <= q < |h.blocks| ==> ListAllocate(h, r, size).blocks[q].addr == h.blocks[q].addr
  {
    ListAllocateSpec(h, r, size);
    var h' := ListAllocate(h, r, size);
    assert h'.blocks[r].addr == Split(h, r, size).blocks[r].addr == h.blocks[r].addr;
    var c := h.chain;
    var i := IndexOf(c, r);
    assert h'.chain == Split(h, r, size).chain;
    forall k | 0 <= k < |c| && k != i ensures h'.blocks[c[k]].size == h.blocks[c[k]].size {
      assert c[k] != c[i];
    }
    InsertExtent(h.blocks, c, h'.blocks, i, |h.blocks|);
  }

  /**
   * Putting a new block after position `i`, with the sizes of the old and
   * the new block adding up to the old block's size, adds one header to the
   * extent.
   */
  lemma {:induction false} InsertExtent(bs: seq<Block>, c: seq<Ref>, bs': seq<Block>, i: nat, n: Ref)
    requires RefsIn(bs, c) && AllWordSized(bs) && AllWordSized(bs') && |bs| <= n < |bs'| && i < |c|
    requires forall k :: 0 <= k < |c| && k != i ==> bs'[c[k]].size == bs[c[k]].size
    requires bs'[c[i]].size + bs'[n].size == bs[c[i]].size && bs[c[i]].size < SIZE_MODULUS - OVERHEAD
    ensures RefsIn(bs', InsertAt(c, i, n))
    ensures Extent(bs', InsertAt(c, i, n)) == Extent(bs, c) + OVERHEAD
  {
    var c' := InsertAt(c, i, n);
    if i == 0 {
      assert c'[0] == c[0] && c'[1..][0] == n && c'[1..][1..] == c[1..];
      ExtentFrame(bs, bs', c[1..]);
    } else {
      assert c'[0] == c[0] && c'[1..] == InsertAt(c[1..], i - 1, n);
      InsertExtent(bs, c[1..], bs', i - 1, n);
    }
  }

  /**
   * Accounting after a split of a packed heap: the chain's headers and
   * payloads now take one header more than the bytes between the first
   * header and the break.
   */
  lemma SplitBreaksAccounting(h: Heap, r: Ref, size: nat)
    requires Valid(h) && Packed(h) && r in h.chain && WordSized(size) && size < h.blocks[r].size
    requires h.blocks[r].size < SIZE_MODULUS - OVERHEAD
    ensures Valid(ListAllocate(h, r, size))
    ensures var h' := ListAllocate(h, r, size);
      && h'.chain != [] && h'.chain[0] == h.chain[0]
      && h'.blocks[h'.chain[0]].addr == h.blocks[h.chain[0]].addr
      && h'.brk - h'.blocks[h'.chain[0]].addr + OVERHEAD == Extent(h'.blocks, h'.chain)
  {
    PackedExtent(h);
    SplitAddsHeader(h, r, size);
    ListAllocateSpec(h, r, size);
    var h' := ListAllocate(h, r, size);
    assert h'.chain[0] == h.chain[0];
    assert h'.blocks[h.chain[0]].addr == h.blocks[h.chain[0]].addr;
  }
}

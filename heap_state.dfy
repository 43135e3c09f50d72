/**
 * The allocator's state as a value: every block header ever stamped, the
 * chain reachable from `heapStart`, the process-wide cursors, the search
 * mode, the free list and the program break.
 */
module HeapState {
  import opened Wrappers
  import opened Layout

  /** A block is named by the order in which its header was stamped. */
  type Ref = nat

  /** A `MemoryBlock` header; `addr` is the byte address the source stamps it at. */
  datatype Block = Block(addr: nat, size: nat, isUsed: bool, next: Option<Ref>)

  /**
   * The `SearchMode` tag. `Unlisted` stands for any value of the
   * enumeration's underlying type that names none of its enumerators; the
   * dispatch treats every such value alike, so the model keeps no code.
   */
  datatype SearchMode = FirstFit | NextFit | BestFit | FreeList | Unlisted

  /** src/alloc.cpp (four modes, with a free list) or the older alloc.cpp (three modes, none). */
  datatype Version = Current | Snapshot

  /**
   * `blocks` holds every header ever stamped, including the ones a reset or a
   * relink has left behind; `chain` is the list reachable from `heapStart`
   * through `next`, in order. `brk` is the program break and `limit` the
   * highest break the system will grant.
   */
  datatype Heap = Heap(
    version: Version,
    blocks: seq<Block>,
    chain: seq<Ref>,
    heapStart: Option<Ref>,
    head: Option<Ref>,
    searchStart: Option<Ref>,
    mode: SearchMode,
    freeList: seq<Ref>,
    brk: nat,
    limit: nat)

  /** The state before the first call: the globals' initial values. */
  function Initial(version: Version, base: nat, limit: nat): (h: Heap)
    ensures Valid(h)
  {
    Heap(version, [], [], None, None, None, FirstFit, [], base, limit)
  }

  /** Every reference in `c` names a stamped block. */
  predicate RefsIn(bs: seq<Block>, c: seq<Ref>) {
    forall i :: 0 <= i < |c| ==> c[i] < |bs|
  }

  /** No reference occurs twice in `c`. */
  predicate Distinct(c: seq<Ref>) {
    forall i, j :: 0 <= i < j < |c| ==> c[i] != c[j]
  }

  /** The `i`-th entry of `c`, or null past its end. */
  function At(c: seq<Ref>, i: nat): (r: Option<Ref>)
    ensures r.Some? <==> i < |c|
  {
    if i < |c| then Some(c[i]) else None
  }

  /** The position of `x` in `c`. */
  function IndexOf(c: seq<Ref>, x: Ref): (i: nat)
    requires x in c
    ensures i < |c| && c[i] == x
    ensures forall j :: 0 <= j < i ==> c[j] != x
  {
    if c[0] == x then 0 else 1 + IndexOf(c[1..], x)
  }

  /** In a list without repetitions, the entry at a position has that position. */
  lemma IndexOfDistinct(c: seq<Ref>, i: nat)
    requires Distinct(c) && i < |c|
    ensures IndexOf(c, c[i]) == i
  {
  }

  /**
   * `c` follows the `next` links of `bs` without repeating a block, and its
   * last block links to null.
   */
  predicate Linked(bs: seq<Block>, c: seq<Ref>) {
    && RefsIn(bs, c)
    && Distinct(c)
    && forall i {:trigger bs[c[i]]} :: 0 <= i < |c| ==> bs[c[i]].next == At(c, i + 1)
  }

  /** Every size is a whole number of words and fits a `size_t`. */
  predicate AllWordSized(bs: seq<Block>) {
    forall r :: 0 <= r < |bs| ==> WordSized(bs[r].size)
  }

  /**
   * The representation invariant: `chain` follows the `next` links from
   * `heapStart` to a null link without repeating a block; `head` (the block
   * grown last) and the next-fit cursor coincide and lie on the chain; the
   * free list names stamped blocks; every size is whole words and fits a
   * `size_t`; the older version never has a free list.
   */
  predicate Valid(h: Heap) {
    && Linked(h.blocks, h.chain)
    && h.heapStart == At(h.chain, 0)
    && h.searchStart == h.head
    && (h.head.None? <==> h.chain == [])
    && (h.head.Some? ==> h.head.value in h.chain)
    && RefsIn(h.blocks, h.freeList)
    && AllWordSized(h.blocks)
    && (h.version == Snapshot ==> h.freeList == [])
  }

  /** Following the link of the `k`-th block of a linked chain gives its `k + 1`-th entry, or null at the end. */
  lemma NextLink(bs: seq<Block>, c: seq<Ref>, k: nat)
    requires Linked(bs, c) && k < |c|
    ensures bs[c[k]].next == At(c, k + 1)
  {
  }

  /** Links of blocks off the chain do not matter, nor do blocks stamped after it. */
  lemma LinkedFrame(bs: seq<Block>, bs': seq<Block>, c: seq<Ref>)
    requires Linked(bs, c) && |bs| <= |bs'|
    requires forall i :: 0 <= i < |c| ==> bs'[c[i]].next == bs[c[i]].next
    ensures Linked(bs', c)
  {
  }

  /** `c` with `n` put at position `i + 1`. */
  function InsertAt(c: seq<Ref>, i: nat, n: Ref): (c': seq<Ref>)
    requires i < |c|
    ensures |c'| == |c| + 1
    ensures forall k :: 0 <= k <= i ==> c'[k] == c[k]
    ensures c'[i + 1] == n
    ensures forall k :: i + 1 < k < |c'| ==> c'[k] == c[k - 1]
  {
    c[..i + 1] + [n] + c[i + 1..]
  }

  /** Inserting a block that is not on a list without repetitions keeps it without repetitions and keeps its entries. */
  lemma InsertAtDistinct(c: seq<Ref>, i: nat, n: Ref)
    requires Distinct(c) && i < |c| && n !in c
    ensures Distinct(InsertAt(c, i, n))
    ensures forall q :: q in c ==> q in InsertAt(c, i, n)
  {
    var c' := InsertAt(c, i, n);
    forall a, b | 0 <= a < b < |c'| ensures c'[a] != c'[b] {
      if a != i + 1 && b != i + 1 {
        var a0 := if a <= i then a else a - 1;
        var b0 := if b <= i then b else b - 1;
        assert c'[a] == c[a0] && c'[b] == c[b0] && a0 < b0;
      }
    }
    forall q | q in c ensures q in c' {
      var j :| 0 <= j < |c| && c[j] == q;
      if j <= i { assert c'[j] == q; } else { assert c'[j + 1] == q; }
    }
  }

  /**
   * Putting a fresh block `n` right after `r`, with `r` linked to `n` and `n`
   * linked where `r` was, keeps the chain linked; it keeps the blocks that
   * were on it and its first block.
   */
  lemma LinkedInsert(bs: seq<Block>, bs': seq<Block>, c: seq<Ref>, r: Ref, n: Ref)
    requires Linked(bs, c) && r in c && n == |bs| && |bs'| == n + 1
    requires bs'[r].next == Some(n) && bs'[n].next == bs[r].next
    requires forall i :: 0 <= i < |c| && c[i] != r ==> bs'[c[i]].next == bs[c[i]].next
    ensures var c' := InsertAt(c, IndexOf(c, r), n);
      && Linked(bs', c')
      && At(c', 0) == At(c, 0)
      && (forall q :: q in c ==> q in c')
  {
    var i := IndexOf(c, r);
    var c' := InsertAt(c, i, n);
    InsertAtDistinct(c, i, n);
    forall k | 0 <= k < |c'|
      ensures c'[k] < |bs'| && bs'[c'[k]].next == At(c', k + 1)
    {
      if k < i {
        assert At(c', k + 1) == At(c, k + 1);
      } else if k == i + 1 {
        assert At(c', k + 1) == At(c, i + 1);
      } else if k > i + 1 {
        assert At(c', k + 1) == At(c, k);
      }
    }
  }

  /**
   * Cutting the chain after `x` and linking a fresh block `n` with a null
   * link there keeps the chain linked and its first block.
   */
  lemma LinkedAppend(bs: seq<Block>, bs': seq<Block>, c: seq<Ref>, x: Ref, n: Ref)
    requires Linked(bs, c) && x in c && n == |bs| && |bs'| == n + 1
    requires bs'[x].next == Some(n) && bs'[n].next == None
    requires forall i :: 0 <= i < |c| && c[i] != x ==> bs'[c[i]].next == bs[c[i]].next
    ensures var c' := c[..IndexOf(c, x) + 1] + [n];
      && Linked(bs', c')
      && At(c', 0) == At(c, 0)
      && c'[|c'| - 1] == n
  {
    var i := IndexOf(c, x);
    CutDistinct(c, i, n);
    CutLinks(bs, bs', c, i, n);
  }

  /** A prefix of a list without repetitions, with a new entry after it, has no repetitions. */
  lemma CutDistinct(c: seq<Ref>, i: nat, n: Ref)
    requires Distinct(c) && i < |c| && n !in c
    ensures Distinct(c[..i + 1] + [n])
  {
    var c' := c[..i + 1] + [n];
    forall a, b | 0 <= a < b < |c'| ensures c'[a] != c'[b] {
      assert c'[a] == c[a];
      if b <= i { assert c'[b] == c[b]; }
    }
  }

  /** The links of a prefix that ends at `c[i]`, now linked to a fresh block with a null link. */
  lemma CutLinks(bs: seq<Block>, bs': seq<Block>, c: seq<Ref>, i: nat, n: Ref)
    requires RefsIn(bs, c) && i < |c| && n == |bs| && |bs'| == n + 1
    requires forall k {:trigger bs[c[k]]} :: 0 <= k < |c| ==> bs[c[k]].next == At(c, k + 1)
    requires forall k :: 0 <= k < i ==> c[k] != c[i]
    requires bs'[c[i]].next == Some(n) && bs'[n].next == None
    requires forall k :: 0 <= k < |c| && c[k] != c[i] ==> bs'[c[k]].next == bs[c[k]].next
    ensures var c' := c[..i + 1] + [n];
      && RefsIn(bs', c')
      && (forall k {:trigger bs'[c'[k]]} :: 0 <= k < |c'| ==> bs'[c'[k]].next == At(c', k + 1))
      && At(c', 0) == At(c, 0)
      && c'[|c'| - 1] == n
  {
    var c' := c[..i + 1] + [n];
    assert |c'| == i + 2 && c'[i] == c[i] && c'[i + 1] == n;
    forall k | 0 <= k < |c'|
      ensures c'[k] < |bs'| && bs'[c'[k]].next == At(c', k + 1)
    {
      if k < i {
        assert c'[k] == c[k] && c'[k + 1] == c[k + 1];
        assert bs[c[k]].next == At(c, k + 1);
      }
    }
  }

  /** A block a search may hand out: free and large enough. */
  predicate Fits(b: Block, size: nat) {
    !b.isUsed && b.size >= size
  }

  /** The reference at an optional chain position. */
  function RefAt(c: seq<Ref>, p: Option<nat>): (r: Option<Ref>)
    requires p.Some? ==> p.value < |c|
    ensures r.Some? <==> p.Some?
  {
    match p
    case None => None
    case Some(k) => Some(c[k])
  }
}

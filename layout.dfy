/**
 * Header layout and sizing arithmetic of the allocator (src/alloc.cpp and
 * alloc.cpp), for a 64-bit target where `size_t` is 64 bits wide and
 * `MemoryBlock` is `{ size_t size; bool isUsed; MemoryBlock *next; uint64_t data[1]; }`.
 */
module Layout {
  /** sizeof(uint64_t): the machine word every payload size is rounded to. */
  const WORD: nat := 8
  /** sizeof(MemoryBlock): 8 (size) + 8 (isUsed, padded) + 8 (next) + 8 (data[1]). */
  const BLOCK_SIZE: nat := 32
  /** sizeof(MemoryBlock::data): the one-word payload placeholder at the end of the header. */
  const DATA_SIZE: nat := 8
  /** Bytes of header in front of the payload: offset of `data` inside `MemoryBlock`. */
  const OVERHEAD: nat := BLOCK_SIZE - DATA_SIZE
  /** `size_t` arithmetic is modulo 2^64. */
  const SIZE_MODULUS: nat := 0x1_0000_0000_0000_0000
  /** The "no candidate" value of best-fit search (`SIZE_T_MAX`, defined as 65535). */
  const SENTINEL: nat := 65535

  /** A payload size that is a whole number of words and fits in a `size_t`. */
  predicate WordSized(n: nat) {
    n % WORD == 0 && n < SIZE_MODULUS
  }

  /**
   * `align(n)`: round `n` up to a multiple of the word size. The sum is
   * computed in `size_t`, so the few values above the last multiple of 8
   * wrap round to 0.
   */
  function Align(n: nat): (r: nat)
    requires n < SIZE_MODULUS
    ensures WordSized(r)
    ensures n % WORD == 0 ==> r == n
    ensures n <= SIZE_MODULUS - WORD ==> n <= r < n + WORD
    ensures SIZE_MODULUS - WORD < n ==> r == 0
  {
    if n % WORD == 0 then n
    else (n + ((n / WORD + 1) * WORD - n)) % SIZE_MODULUS
  }

  /**
   * `alloc_size(size)`: the raw bytes requested from the break for a block
   * with a payload of `size` bytes: the header once, with the one-word
   * placeholder counted as part of the payload.
   */
  function AllocSize(size: nat): (r: nat)
    requires size < SIZE_MODULUS
    ensures r < SIZE_MODULUS
    ensures size < SIZE_MODULUS - OVERHEAD ==> r == size + OVERHEAD
  {
    (size + BLOCK_SIZE - DATA_SIZE) % SIZE_MODULUS
  }

  /** `block->data`: the payload address of the header stamped at `addr`. */
  function Payload(addr: nat): nat {
    addr + OVERHEAD
  }

  /** `get_header(data)`: from a payload address back to its header. */
  function GetHeader(data: nat): (addr: nat)
    requires data >= OVERHEAD
    ensures Payload(addr) == data
  {
    data + DATA_SIZE - BLOCK_SIZE
  }

  /** `get_header` inverts the header-to-payload offset. */
  lemma HeaderOfPayload(addr: nat)
    ensures GetHeader(Payload(addr)) == addr
  {
  }

  /**
   * `(MemoryBlock*)(char*)block + size`: the address at which `split` stamps
   * the tail header. The offset is scaled by the header size, so the tail
   * never starts right after the head's payload, and a zero-size head puts
   * the tail header on top of the head's own.
   */
  function SplitAddr(addr: nat, size: nat): (r: nat)
    ensures size == 0 ==> r == addr
    ensures size > 0 ==> r > Payload(addr) + size
  {
    addr + size * BLOCK_SIZE
  }
}

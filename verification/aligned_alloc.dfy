/** `align_alloc` / `align_free`, written identically in mycat3.c, mycat4.c,
    mycat5.c and mycat6.c. Addresses are naturals below 2^64 (`uintptr_t`),
    `Null` is address 0, and the pointer-sized words of memory the allocator
    writes to are a map from address to stored pointer. */
module AlignedAlloc {
  import opened Wrappers
  import opened Bits

  /** `sizeof(void *)` on the 64-bit targets the programs are built for. */
  const PointerSize: nat := 8
  /** The page size `align_alloc` falls back to when `sysconf` fails. */
  const DefaultPageSize: nat := 4096
  const Null: nat := 0
  /** Number of distinct `uintptr_t` values. */
  const AddressSpace: nat := 0x1_0000_0000_0000_0000

  lemma AddressSpaceIs2To64()
    ensures AddressSpace == Pow2(64)
  {
    Pow2Doublings();
    Pow2Add(32, 32);
  }

  /** What a page size reported by `sysconf(_SC_PAGESIZE)` is assumed to be:
      a power of two, at least as large as a pointer, and an address. */
  predicate ValidPageSize(p: nat) {
    IsPowerOfTwo(p) && PointerSize <= p && p < AddressSpace
  }

  /** A `sysconf(_SC_PAGESIZE)` answer: `None` stands for -1. */
  predicate ValidPageReply(q: Option<nat>) {
    q.Some? ==> ValidPageSize(q.value)
  }

  /** What `malloc(request)` is assumed to return: `Null`, or a block aligned
      for a pointer that lies wholly below the top of the address space. */
  predicate MallocResult(block: nat, request: nat) {
    block == Null || (block % PointerSize == 0 && block + request < AddressSpace)
  }

  lemma DefaultPageSizeValid()
    ensures ValidPageSize(DefaultPageSize)
  {
    Pow2Doublings();
    Pow2Add(4, 8);
    AddressSpaceIs2To64();
    Pow2IsPowerOfTwo(12);
  }

  /** The page size `align_alloc` works with: the `sysconf` answer, or 4096
      when `sysconf` reported failure. */
  function PageOrDefault(q: Option<nat>): (page: nat)
    requires ValidPageReply(q)
    ensures ValidPageSize(page)
    ensures q.None? ==> page == DefaultPageSize
    ensures q.Some? ==> page == q.value
  {
    DefaultPageSizeValid();
    if q.None? then DefaultPageSize else q.value
  }

  /** The number of bytes `align_alloc(size)` asks `malloc` for. */
  function AllocRequest(size: nat, q: Option<nat>): nat
    requires ValidPageReply(q)
  {
    size + PageOrDefault(q)
  }

  /** `(uintptr_t)original_ptr + page_size`, then `&= ~(page_size - 1)`.
      `page_size` is a `long`, so `~(page_size - 1)` is the two's-complement
      value -page_size, which becomes 2^64 - page_size as a `uintptr_t`. */
  function MaskedAddress(orig: nat, page: nat): nat
    requires ValidPageSize(page) && orig + page < AddressSpace
  {
    BitAnd((orig + page) % AddressSpace, AddressSpace - page)
  }

  /** The mask clears the page offset of `orig + page`. */
  lemma MaskedAddressRoundsDown(orig: nat, page: nat)
    requires ValidPageSize(page) && orig + page < AddressSpace
    ensures MaskedAddress(orig, page) == orig + page - (orig + page) % page
  {
    var x := orig + page;
    DivModUnique(x, AddressSpace, 0, x);
    AddressSpaceIs2To64();
    MaskRoundsDown(x, 64, page);
  }

  /** The masked address is the first page boundary strictly above `orig`. */
  lemma MaskedAddressBounds(orig: nat, page: nat)
    requires ValidPageSize(page) && orig + page < AddressSpace
    ensures MaskedAddress(orig, page) % page == 0
    ensures orig < MaskedAddress(orig, page) <= orig + page
  {
    MaskedAddressRoundsDown(orig, page);
    RoundDown(orig + page, page);
  }

  /** The "aligned address is before the original pointer" safeguard of
      `align_alloc` never fires. */
  lemma SafeguardNeverFires(orig: nat, page: nat)
    requires ValidPageSize(page) && orig + page < AddressSpace
    ensures !(MaskedAddress(orig, page) < orig)
  {
    MaskedAddressBounds(orig, page);
  }

  /** The address `align_alloc` hands out for a block at `orig`. */
  function AlignUp(orig: nat, page: nat): (aligned: nat)
    requires ValidPageSize(page) && orig + page < AddressSpace
    ensures aligned % page == 0
    ensures orig < aligned <= orig + page
  {
    var masked := MaskedAddress(orig, page);
    var aligned: int := if masked < orig then masked + page else masked;
    MaskedAddressBounds(orig, page);
    aligned
  }

  /** The hidden pointer slot `[aligned - 8, aligned)` starts inside a block
      that is itself pointer-aligned. */
  lemma SlotInsideBlock(orig: nat, page: nat)
    requires ValidPageSize(page) && orig + page < AddressSpace
    requires orig % PointerSize == 0
    ensures orig + PointerSize <= AlignUp(orig, page)
  {
    var aligned := AlignUp(orig, page);
    PowerOfTwoMultipleOf8(page);
    MultipleOfMultiple(aligned, page, PointerSize);
    var i, j := aligned / PointerSize, orig / PointerSize;
    assert aligned == PointerSize * i && orig == PointerSize * j;
    assert i > j;
  }

  /** The result of `align_alloc`: the returned pointer and memory after it
      stored the original pointer. */
  datatype Allocation = Allocation(ptr: nat, heap: map<nat, nat>)

  /** `align_alloc(size)`, where `pageReply` is what its own `sysconf` call
      returned and `block` is what its `malloc(size + page_size)` returned. */
  function AlignAlloc(size: nat, pageReply: Option<nat>, block: nat, heap: map<nat, nat>): (r: Allocation)
    requires ValidPageReply(pageReply)
    requires MallocResult(block, AllocRequest(size, pageReply))
    ensures block == Null ==> r.ptr == Null && r.heap == heap
    ensures block != Null ==>
      var page := PageOrDefault(pageReply);
      && r.ptr % page == 0
      && block < r.ptr <= block + page
      && r.ptr + size <= block + AllocRequest(size, pageReply)
      && block <= r.ptr - PointerSize
      && r.ptr - PointerSize in r.heap && r.heap[r.ptr - PointerSize] == block
      && r.heap.Keys == heap.Keys + {r.ptr - PointerSize}
      && (forall a :: a in heap && a != r.ptr - PointerSize ==> a in r.heap && r.heap[a] == heap[a])
  {
    if block == Null then Allocation(Null, heap)
    else
      var page := PageOrDefault(pageReply);
      var aligned := AlignUp(block, page);
      SlotInsideBlock(block, page);
      var slot: nat := aligned - PointerSize;
      Allocation(aligned, heap[slot := block])
  }

  /** `align_free(ptr)`: the address it passes to `free`, or `None` when it
      returns without freeing. */
  function AlignFree(ptr: nat, heap: map<nat, nat>): (freed: Option<nat>)
    requires ptr == Null || (ptr >= PointerSize && ptr - PointerSize in heap)
    ensures freed.None? <==> ptr == Null
  {
    if ptr == Null then None else Some(heap[ptr - PointerSize])
  }

  /** `align_free` on what `align_alloc` returned frees exactly the block
      `malloc` returned. */
  lemma AlignFreeRecoversBlock(size: nat, pageReply: Option<nat>, block: nat, heap: map<nat, nat>)
    requires ValidPageReply(pageReply)
    requires MallocResult(block, AllocRequest(size, pageReply))
    requires block != Null
    ensures var a := AlignAlloc(size, pageReply, block, heap);
      && a.ptr >= PointerSize && a.ptr - PointerSize in a.heap
      && a.heap[a.ptr - PointerSize] == block
      && AlignFree(a.ptr, a.heap) == Some(block)
  {
  }
}

/**
 * The operating system's virtual-memory service, seen by the allocator as an
 * oracle: page_alloc either fails (null) or returns a fresh, page-aligned,
 * zeroed region it has never handed out before. Fresh regions are carved off
 * an address space that grows upward; the oracle fails once the request
 * would pass the top of that space.
 */
module Platform {
  import opened Config

  /** Page ids of a 48-bit address space with 8 KiB pages: 2^35. */
  const PAGE_ID_LIMIT: nat := 0x8_0000_0000

  /** Pages needed for `size` bytes: the OS rounds up to whole pages. */
  function PagesFor(size: nat): (n: nat)
    ensures n * PAGE_SIZE >= size
    ensures n == 0 || (n - 1) * PAGE_SIZE < size
  {
    (size + PAGE_SIZE - 1) / PAGE_SIZE
  }

  /** A whole number of pages needs exactly that many pages. */
  lemma PagesForWhole(k: nat)
    ensures PagesFor(k * PAGE_SIZE) == k
  {
  }

  class PageSource {
    /** First page id that has never been handed out. Page 0 is never handed out, so address 0 is null. */
    var nextPage: nat
    /** One past the last page id the OS can provide. */
    const limitPage: nat
    /** Bytes currently mapped on behalf of the allocator. */
    var mappedBytes: nat

    ghost predicate Valid()
      reads this
    {
      1 <= nextPage <= limitPage <= PAGE_ID_LIMIT
    }

    /** Whether a request for `size` bytes would be granted. */
    predicate CanAlloc(size: nat)
      reads this
    {
      0 < size && nextPage + PagesFor(size) <= limitPage
    }

    constructor (limit: nat)
      requires 1 <= limit <= PAGE_ID_LIMIT
      ensures Valid() && nextPage == 1 && limitPage == limit && mappedBytes == 0
    {
      nextPage := 1;
      limitPage := limit;
      mappedBytes := 0;
    }

    /**
     * page_alloc: 0 (null) when the request cannot be granted, otherwise the
     * page-aligned start of a region of fresh pages, all at or above every
     * page handed out before.
     */
    method PageAlloc(size: nat) returns (addr: nat)
      requires Valid()
      modifies this
      ensures Valid()
      ensures !old(CanAlloc(size)) ==> addr == 0 && nextPage == old(nextPage) && mappedBytes == old(mappedBytes)
      ensures old(CanAlloc(size)) ==>
        && addr != 0 && addr % PAGE_SIZE == 0
        && addr / PAGE_SIZE == old(nextPage)
        && nextPage == old(nextPage) + PagesFor(size)
        && mappedBytes == old(mappedBytes) + size
    {
      if !CanAlloc(size) {
        return 0;
      }
      addr := nextPage * PAGE_SIZE;
      nextPage := nextPage + PagesFor(size);
      mappedBytes := mappedBytes + size;
    }

    /** page_dealloc: the region is unmapped; its addresses are never handed out again. */
    method PageDealloc(addr: nat, size: nat)
      requires Valid()
      modifies this
      ensures Valid() && nextPage == old(nextPage)
      ensures mappedBytes == if old(mappedBytes) >= size then old(mappedBytes) - size else 0
    {
      mappedBytes := if mappedBytes >= size then mappedBytes - size else 0;
    }
  }
}

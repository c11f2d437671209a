/** src/lib/kheap.c: the kernel bump allocator over identity-mapped memory
    between the first free physical page and 128 MiB. */
module KernelHeap {
  import opened Uint32

  const HeapLimit: nat := 0x0800_0000
  const PageSize: nat := 4096


  /** Heap bounds, the bump pointer, and the function-static
      last_page_allocated of kmalloc, which is 0 at boot. */
  datatype KHeap = KHeap(start: nat, end: nat, current: nat, lastPage: nat)

  predicate Valid(h: KHeap)
  {
    && h.start <= h.current <= h.end == HeapLimit
    && h.lastPage < TwoTo32 && h.lastPage % PageSize == 0
  }

  /** kheap_init, given what pmm_alloc_page returned. */
  function Init(firstPage: nat): (h: KHeap)
    requires firstPage <= HeapLimit
    ensures Valid(h) && h.start == h.current == firstPage && h.end == HeapLimit
  {
    KHeap(firstPage, HeapLimit, firstPage, 0)
  }

  /** What kmalloc returns: the heap after it, the pointer (0 for NULL), and
      how many times it called pmm_alloc_page. */
  datatype Alloc = Alloc(heap: KHeap, ptr: nat, pmmCalls: nat)

  /** Rounds up to a page in 32-bit arithmetic ((x + 4095) & ~4095). */
  function PageEnd(x: nat): (r: nat)
    requires x < TwoTo32
    ensures r % PageSize == 0 && r < TwoTo32
    ensures x + PageSize - 1 < TwoTo32 ==> x <= r < x + PageSize
  {
    var t := Wrap(x + PageSize - 1);
    t - t % PageSize
  }

  /** The page loop: from last_page_allocated up to pageEnd one
      pmm_alloc_page per 4 KiB, leaving last_page_allocated at pageEnd. */
  function CoverPages(h: KHeap, pageEnd: nat): (r: Alloc)
    requires h.lastPage % PageSize == 0 && pageEnd % PageSize == 0
    ensures r.heap == h.(lastPage := if pageEnd > h.lastPage then pageEnd else h.lastPage)
    ensures r.pmmCalls * PageSize == (if pageEnd > h.lastPage then pageEnd - h.lastPage else 0)
  {
    if pageEnd > h.lastPage then Alloc(h.(lastPage := pageEnd), 0, (pageEnd - h.lastPage) / PageSize)
    else Alloc(h, 0, 0)
  }

  /** The success path: the old bump pointer is returned, the pointer moves
      to next and the pages up to it are requested. */
  function Bump(h: KHeap, next: nat): (r: Alloc)
    requires Valid(h) && next < TwoTo32
    ensures r.ptr == h.current && r.heap.current == next
    ensures r.heap.start == h.start && r.heap.end == h.end
  {
    var moved := h.(current := next);
    var covered := CoverPages(moved, PageEnd(next));
    Alloc(covered.heap, h.current, covered.pmmCalls)
  }

  /** kmalloc as the code computes it: (size + 15) & ~15 and
      heap_current + size both in 32 bits. */
  function KmallocAsWritten(h: KHeap, size: nat): (r: Alloc)
    requires Valid(h) && size < TwoTo32
    ensures r.heap.start == h.start && r.heap.end == h.end
  {
    if size == 0 then Alloc(h, 0, 0)
    else
      var t := Wrap(size + 15);
      var aligned := t - t % 16;
      if Wrap(h.current + aligned) > h.end then Alloc(h, 0, 0)
      else Bump(h, Wrap(h.current + aligned))
  }

  /** size rounded up to a multiple of 16. */
  function Align16(size: nat): (r: nat)
    ensures r % 16 == 0 && size <= r < size + 16
  {
    (size + 15) / 16 * 16
  }

  /** kmalloc with its arithmetic unbounded: NULL for size 0 and when the
      rounded request does not fit below heap_end; otherwise the bump. */
  function Kmalloc(h: KHeap, size: nat): (r: Alloc)
    requires Valid(h)
    ensures Valid(r.heap) && r.heap.start == h.start && r.heap.end == h.end
    ensures !Granted(h, size) ==> r == Alloc(h, 0, 0)
    ensures Granted(h, size) ==> r.ptr == h.current
  {
    if size == 0 || h.current + Align16(size) > h.end then Alloc(h, 0, 0)
    else Bump(h, h.current + Align16(size))
  }

  /** Whether a call succeeded. A heap starting at address 0 (pmm out of
      pages at init) hands out 0 first, which callers read as failure. */
  predicate Granted(h: KHeap, size: nat)
  {
    size > 0 && h.current + Align16(size) <= h.end
  }

  lemma KmallocZero(h: KHeap)
    requires Valid(h)
    ensures Kmalloc(h, 0) == Alloc(h, 0, 0)
  {
  }

  /** Success returns the old bump pointer and advances it by the request
      rounded up to 16; failure changes nothing. */
  lemma KmallocEffect(h: KHeap, size: nat)
    requires Valid(h)
    ensures var r := Kmalloc(h, size);
      && (Granted(h, size) ==>
            && r.ptr == h.current
            && r.heap.current == h.current + Align16(size)
            && r.heap.current - r.ptr >= size
            && (r.heap.current - r.ptr) % 16 == 0)
      && (!Granted(h, size) ==> r == Alloc(h, 0, 0))
  {
  }

  /** Two successive successful calls hand out disjoint, increasing ranges. */
  lemma KmallocDisjoint(h: KHeap, size1: nat, size2: nat)
    requires Valid(h) && Granted(h, size1)
    requires Granted(Kmalloc(h, size1).heap, size2)
    ensures var r1 := Kmalloc(h, size1);
      var r2 := Kmalloc(r1.heap, size2);
      r1.ptr + size1 <= r2.ptr && r2.ptr + size2 <= r2.heap.current
  {
  }

  /** After a successful call the pages requested so far reach past the
      bump pointer. */
  lemma KmallocCoversPages(h: KHeap, size: nat)
    requires Valid(h) && Granted(h, size)
    ensures var r := Kmalloc(h, size);
      r.heap.lastPage >= r.heap.current && r.heap.lastPage % PageSize == 0
  {
  }

  /** The two agree whenever the rounded request fits in 32 bits. */
  lemma KmallocAgrees(h: KHeap, size: nat)
    requires Valid(h) && size < TwoTo32 && h.current + Align16(size) < TwoTo32
    ensures KmallocAsWritten(h, size) == Kmalloc(h, size)
  {
    if size > 0 {
      var t := Wrap(size + 15);
      assert t == size + 15;
      assert t - t % 16 == Align16(size);
      assert Wrap(h.current + Align16(size)) == h.current + Align16(size);
    }
  }

  /** A request of 0xFFFFFFF0 bytes with the pointer at 2 MiB: the sum
      wraps to 0x1FFFF0, passes the bound check, and the pointer ends up
      below heap_start, so later blocks overlap earlier ones. */
  lemma KmallocWraps()
    ensures var h := KHeap(0x20_0000, HeapLimit, 0x20_0000, 0x20_0000);
      var r := KmallocAsWritten(h, 0xFFFF_FFF0);
      && r.ptr == 0x20_0000
      && r.heap.current == 0x1F_FFF0
      && r.heap.current < r.heap.start
      && Kmalloc(h, 0xFFFF_FFF0).ptr == 0
  {
  }

  /** A request of 0xFFFFFFF1 bytes or more rounds to 0 and is granted
      without moving the pointer. */
  lemma KmallocRoundsToNothing()
    ensures var h := KHeap(0x20_0000, HeapLimit, 0x20_0000, 0x20_0000);
      var r := KmallocAsWritten(h, 0xFFFF_FFF1);
      r.ptr == 0x20_0000 && r.heap.current == 0x20_0000
  {
  }

  /** kfree does nothing. */
  function Kfree(h: KHeap, ptr: nat): (r: KHeap)
    ensures r == h
  {
    h
  }

  /** kheap_stats: heap pages, bytes handed out, bytes left. */
  function Stats(h: KHeap): (r: (nat, nat, nat))
    requires Valid(h)
    ensures r.1 + r.2 == h.end - h.start
    ensures r.0 * PageSize <= h.end - h.start < (r.0 + 1) * PageSize
  {
    ((h.end - h.start) / PageSize, h.current - h.start, h.end - h.current)
  }
}

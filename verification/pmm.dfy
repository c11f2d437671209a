/** The page bitmap of src/managers/memory/pmm.c: page p lives in word
    p/32, bit p%32, of an array of 32-bit words. */
module PageBitmap {

  /** One uint32_t word of the bitmap, bit 0 first. */
  type Word = w: seq<bool> | |w| == 32 witness seq(32, _ => false)

  const EmptyWord: Word := seq(32, _ => false)

  predicate InMap(bitmap: seq<Word>, p: nat)
  {
    p / 32 < |bitmap|
  }

  /** bitmap_test: bit p%32 of word p/32. */
  predicate Test(bitmap: seq<Word>, p: nat)
    requires InMap(bitmap, p)
  {
    bitmap[p / 32][p % 32]
  }

  /** bitmap_set: word p/32 or-ed with 1 << (p%32). */
  function SetBit(bitmap: seq<Word>, p: nat): (r: seq<Word>)
    requires InMap(bitmap, p)
    ensures |r| == |bitmap|
  {
    bitmap[p / 32 := bitmap[p / 32][p % 32 := true]]
  }

  /** bitmap_clear: word p/32 and-ed with ~(1 << (p%32)). */
  function ClearBit(bitmap: seq<Word>, p: nat): (r: seq<Word>)
    requires InMap(bitmap, p)
    ensures |r| == |bitmap|
  {
    bitmap[p / 32 := bitmap[p / 32][p % 32 := false]]
  }

  lemma SameWord(p: nat, q: nat)
    requires p / 32 == q / 32
    ensures p == q <==> p % 32 == q % 32
  {
    assert p == 32 * (p / 32) + p % 32;
    assert q == 32 * (q / 32) + q % 32;
  }

  /** Setting page p's bit makes p used and leaves every other page's bit
      as it was. */
  lemma SetBitTest(bitmap: seq<Word>, p: nat, q: nat)
    requires InMap(bitmap, p) && InMap(bitmap, q)
    ensures Test(SetBit(bitmap, p), q) == (q == p || Test(bitmap, q))
  {
    if q / 32 == p / 32 {
      SameWord(p, q);
    }
  }

  /** Clearing page p's bit makes p free and leaves every other page's bit
      as it was. */
  lemma ClearBitTest(bitmap: seq<Word>, p: nat, q: nat)
    requires InMap(bitmap, p) && InMap(bitmap, q)
    ensures Test(ClearBit(bitmap, p), q) == (q != p && Test(bitmap, q))
  {
    if q / 32 == p / 32 {
      SameWord(p, q);
    }
  }

  /** Setting a clear bit and clearing it again restores the bitmap. */
  lemma SetThenClear(bitmap: seq<Word>, p: nat)
    requires InMap(bitmap, p) && !Test(bitmap, p)
    ensures ClearBit(SetBit(bitmap, p), p) == bitmap
  {
    assert bitmap[p / 32][p % 32 := true][p % 32 := false] == bitmap[p / 32];
  }
}

/** src/managers/memory/pmm.c: the bitmap physical page allocator. One
    bit per 4 KiB page above 1 MiB; page p lives in word p/32, bit p%32. */
module PhysicalMemory {
  import opened PageBitmap
  import opened Uint32

  const PageSize: nat := 4096
  const MemoryStart: nat := 0x10_0000


  /** addr_to_page: the subtraction wraps for addresses below 1 MiB. */
  function AddrToPage(addr: nat): nat
  {
    Wrap(addr - MemoryStart) / PageSize
  }

  function PageToAddr(page: nat): nat
  {
    Wrap(MemoryStart + page * PageSize)
  }

  /** Clearing the low 12 bits of a 32-bit address (x & ~(PAGE_SIZE - 1)). */
  function AlignDown(x: nat): (r: nat)
    requires x < TwoTo32
    ensures r <= x && r % PageSize == 0 && x - r < PageSize
  {
    x - x % PageSize
  }

  lemma AddrPageRoundTrip(addr: nat)
    requires MemoryStart <= addr < TwoTo32 && addr % PageSize == 0
    ensures PageToAddr(AddrToPage(addr)) == addr
  {
    var q := (addr - MemoryStart) / PageSize;
    assert (addr - MemoryStart) % PageSize == 0;
    assert MemoryStart + q * PageSize == addr;
  }

  /** Every page index a 32-bit address can name (there are 2^20) maps to
      an address and back. */
  lemma PageAddrRoundTrip(page: nat)
    requires page < 0x10_0000
    ensures AddrToPage(PageToAddr(page)) == page
  {
    var a := MemoryStart + page * PageSize;
    if a < TwoTo32 {
      assert Wrap(a) - MemoryStart == page * PageSize;
    } else {
      assert Wrap(a) == a - TwoTo32;
      assert Wrap(Wrap(a) - MemoryStart) == page * PageSize;
    }
  }

  // ---------------------------------------------------------------------
  // Counting used pages

  /** The number of used pages below n. */
  function UsedBelow(bitmap: seq<Word>, n: nat): (c: nat)
    requires n <= |bitmap| * 32
    ensures c <= n
  {
    if n == 0 then 0 else UsedBelow(bitmap, n - 1) + (if Test(bitmap, n - 1) then 1 else 0)
  }

  /** Two bitmaps that differ below n only in page p, used in one and free
      in the other, count one apart. */
  lemma {:induction false} UsedBelowOneApart(a: seq<Word>, b: seq<Word>, p: nat, n: nat)
    requires n <= |a| * 32 && n <= |b| * 32
    requires forall q: nat :: q < n ==> (Test(b, q) <==> Test(a, q) || q == p)
    requires p < n ==> !Test(a, p)
    ensures UsedBelow(b, n) == UsedBelow(a, n) + (if p < n then 1 else 0)
  {
    if n > 0 {
      UsedBelowOneApart(a, b, p, n - 1);
    }
  }

  lemma UsedBelowSet(bitmap: seq<Word>, p: nat, n: nat)
    requires n <= |bitmap| * 32 && InMap(bitmap, p) && !Test(bitmap, p)
    ensures UsedBelow(SetBit(bitmap, p), n) == UsedBelow(bitmap, n) + (if p < n then 1 else 0)
  {
    var b := SetBit(bitmap, p);
    forall q: nat | q < n
      ensures Test(b, q) <==> Test(bitmap, q) || q == p
    {
      SetBitTest(bitmap, p, q);
    }
    UsedBelowOneApart(bitmap, b, p, n);
  }

  lemma UsedBelowClear(bitmap: seq<Word>, p: nat, n: nat)
    requires n <= |bitmap| * 32 && InMap(bitmap, p) && Test(bitmap, p)
    ensures UsedBelow(ClearBit(bitmap, p), n) + (if p < n then 1 else 0) == UsedBelow(bitmap, n)
  {
    var c := ClearBit(bitmap, p);
    forall q: nat | q < n
      ensures Test(bitmap, q) <==> Test(c, q) || q == p
    {
      ClearBitTest(bitmap, p, q);
    }
    UsedBelowOneApart(c, bitmap, p, n);
  }

  // ---------------------------------------------------------------------
  // Allocator state

  datatype Pmm = Pmm(bitmap: seq<Word>, totalPages: nat, usedPages: nat)

  /** bitmap_size = ceil(total_pages / 32) words, and used_pages counts
      exactly the set bits among the real pages. A 32-bit address space
      holds fewer than 2^20 pages above 1 MiB. */
  predicate Valid(s: Pmm)
  {
    && s.totalPages < 0x10_0000
    && |s.bitmap| == (s.totalPages + 31) / 32
    && s.usedPages == UsedBelow(s.bitmap, s.totalPages)
  }

  predicate IsUsed(s: Pmm, p: nat)
    requires Valid(s) && p < s.totalPages
  {
    Test(s.bitmap, p)
  }

  /** The body of the marking loop for one page: set the bit and count it,
      only when it was clear. */
  function MarkOne(s: Pmm, p: nat): (r: Pmm)
    requires Valid(s) && p < s.totalPages
    ensures Valid(r) && r.totalPages == s.totalPages
    ensures forall q: nat :: q < s.totalPages ==> IsUsed(r, q) == (q == p || IsUsed(s, q))
  {
    if Test(s.bitmap, p) then s
    else
      var r := s.(bitmap := SetBit(s.bitmap, p), usedPages := s.usedPages + 1);
      UsedBelowSet(s.bitmap, p, s.totalPages);
      forall q: nat | q < s.totalPages
        ensures IsUsed(r, q) == (q == p || IsUsed(s, q))
      {
        SetBitTest(s.bitmap, p, q);
      }
      r
  }

  /** The bits a marking leaves alone outside the real pages. */
  predicate SameBeyond(a: seq<Word>, b: seq<Word>, total: nat)
  {
    |a| == |b| && forall q: nat :: total <= q < |a| * 32 ==> Test(a, q) == Test(b, q)
  }

  /** Marks pages [lo, hi) that lie below total_pages. */
  function MarkPages(s: Pmm, lo: nat, hi: nat): (r: Pmm)
    requires Valid(s)
    ensures Valid(r) && r.totalPages == s.totalPages
    ensures forall q: nat :: q < s.totalPages ==>
      IsUsed(r, q) == (IsUsed(s, q) || (lo <= q < hi))
    ensures SameBeyond(r.bitmap, s.bitmap, s.totalPages)
    decreases hi - lo
  {
    if lo >= hi || lo >= s.totalPages then s
    else
      var t := MarkOne(s, lo);
      assert SameBeyond(t.bitmap, s.bitmap, s.totalPages) by {
        if !Test(s.bitmap, lo) {
          forall q: nat | s.totalPages <= q < |s.bitmap| * 32
            ensures Test(t.bitmap, q) == Test(s.bitmap, q)
          {
            SetBitTest(s.bitmap, lo, q);
          }
        }
      }
      MarkPages(t, lo + 1, hi)
  }

  /** pmm_mark_region_used(start, end): start rounded down and end rounded
      up to a page, both in 32-bit arithmetic, then every page of the
      range below total_pages marked. */
  function MarkRegionUsed(s: Pmm, start: nat, end: nat): (r: Pmm)
    requires Valid(s) && start < TwoTo32 && end < TwoTo32
    ensures Valid(r) && r.totalPages == s.totalPages
    ensures forall q: nat :: q < s.totalPages && IsUsed(s, q) ==> IsUsed(r, q)
    ensures SameBeyond(r.bitmap, s.bitmap, s.totalPages)
  {
    var startPage := AddrToPage(AlignDown(start));
    var endPage := AddrToPage(AlignDown(Wrap(end + PageSize - 1)));
    MarkPages(s, startPage, endPage)
  }

  lemma AlignDownIsMultiple(x: nat)
    requires x < TwoTo32
    ensures AlignDown(x) == (x / PageSize) * PageSize
  {
  }

  lemma AddrToPageOfFrame(k: nat)
    requires MemoryStart / PageSize <= k && k * PageSize < TwoTo32
    ensures AddrToPage(k * PageSize) == k - MemoryStart / PageSize
  {
    assert k * PageSize - MemoryStart == (k - 256) * PageSize;
  }

  /** For a region above 1 MiB whose end does not wrap, the pages marked
      are exactly those the region touches, cut at total_pages. */
  lemma MarkRegionPages(s: Pmm, start: nat, end: nat, q: nat)
    requires Valid(s) && MemoryStart <= start <= end && end + PageSize - 1 < TwoTo32
    requires q < s.totalPages
    ensures IsUsed(MarkRegionUsed(s, start, end), q)
      == (IsUsed(s, q) || start / PageSize <= q + MemoryStart / PageSize < (end + PageSize - 1) / PageSize)
  {
    var e := end + PageSize - 1;
    assert Wrap(e) == e;
    AlignDownIsMultiple(start);
    AlignDownIsMultiple(e);
    assert start / PageSize >= 256 && e / PageSize >= 256;
    AddrToPageOfFrame(start / PageSize);
    AddrToPageOfFrame(e / PageSize);
  }

  /** The lowest free page below total_pages, if there is one. */
  function FirstFree(s: Pmm, from: nat): (r: int)
    requires Valid(s)
    ensures -1 <= r < s.totalPages
    ensures r == -1 ==> forall q: nat :: from <= q < s.totalPages ==> IsUsed(s, q)
    ensures r >= 0 ==> from <= r && !IsUsed(s, r) && forall q: nat :: from <= q < r ==> IsUsed(s, q)
    decreases s.totalPages - from
  {
    if from >= s.totalPages then -1
    else if !Test(s.bitmap, from) then from
    else FirstFree(s, from + 1)
  }

  /** pmm_alloc_page: scans pages from 0 and takes the first free one,
      returning its address; returns 0 and changes nothing when every page
      is used. */
  method AllocPage(s: Pmm) returns (r: Pmm, addr: nat, page: int)
    requires Valid(s)
    ensures Valid(r) && r.totalPages == s.totalPages
    ensures page == -1 <==> forall q: nat :: q < s.totalPages ==> IsUsed(s, q)
    ensures page == -1 ==> addr == 0 && r == s
    ensures page != -1 ==>
      && 0 <= page < s.totalPages
      && !IsUsed(s, page)
      && (forall q: nat :: q < page ==> IsUsed(s, q))
      && addr == PageToAddr(page)
      && r == MarkOne(s, page)
      && r.usedPages == s.usedPages + 1
    ensures (r, addr) == Alloc(s)
  {
    var p := 0;
    while p < s.totalPages
      invariant p <= s.totalPages
      invariant forall q: nat :: q < p ==> IsUsed(s, q)
    {
      if !Test(s.bitmap, p) {
        assert !IsUsed(s, p);
        r := MarkOne(s, p);
        addr := PageToAddr(p);
        page := p;
        return;
      }
      p := p + 1;
    }
    r, addr, page := s, 0, -1;
  }

  /** Every page's address is page-aligned, also when it wraps past 4 GiB. */
  lemma PageToAddrAligned(page: nat)
    requires page < 0x10_0000
    ensures PageToAddr(page) % PageSize == 0
  {
    var k := MemoryStart / PageSize + page;
    var a := MemoryStart + page * PageSize;
    assert a == PageSize * k;
    if a >= TwoTo32 {
      assert Wrap(a) == PageSize * (k - 0x10_0000);
    }
  }

  /** pmm_alloc_page as a function of the allocator: the allocator after
      the call and the address it returns. */
  function Alloc(s: Pmm): (r: (Pmm, nat))
    requires Valid(s)
    ensures Valid(r.0) && r.0.totalPages == s.totalPages && r.0.usedPages <= s.usedPages + 1
    ensures forall q: nat :: q < s.totalPages && IsUsed(s, q) ==> IsUsed(r.0, q)
    ensures (forall q: nat :: q < s.totalPages ==> IsUsed(s, q)) ==> r == (s, 0)
    ensures r.1 % PageSize == 0
    ensures r.1 != 0 ==>
      var p := AddrToPage(r.1);
      p < s.totalPages && !IsUsed(s, p) && IsUsed(r.0, p)
  {
    var p := FirstFree(s, 0);
    if p < 0 then (s, 0)
    else
      PageToAddrAligned(p);
      PageAddrRoundTrip(p);
      (MarkOne(s, p), PageToAddr(p))
  }

  /** pmm_free_page: a page beyond total_pages, or one already free, is
      left alone. */
  function FreePage(s: Pmm, addr: nat): (r: Pmm)
    requires Valid(s)
    ensures Valid(r) && r.totalPages == s.totalPages
    ensures forall q: nat :: q < s.totalPages ==> IsUsed(r, q) == (IsUsed(s, q) && q != AddrToPage(addr))
    ensures AddrToPage(addr) < s.totalPages && IsUsed(s, AddrToPage(addr)) ==> r.usedPages + 1 == s.usedPages
    ensures !(AddrToPage(addr) < s.totalPages && IsUsed(s, AddrToPage(addr))) ==> r == s
  {
    var page := AddrToPage(addr);
    if page >= s.totalPages then s
    else if Test(s.bitmap, page) then
      UsedBelowClear(s.bitmap, page, s.totalPages);
      var r := s.(bitmap := ClearBit(s.bitmap, page), usedPages := s.usedPages - 1);
      forall q: nat | q < s.totalPages
        ensures IsUsed(r, q) == (IsUsed(s, q) && q != page)
      {
        ClearBitTest(s.bitmap, page, q);
      }
      r
    else s
  }

  /** Freeing twice is the same as freeing once. */
  lemma FreePageIdempotent(s: Pmm, addr: nat)
    requires Valid(s)
    ensures FreePage(FreePage(s, addr), addr) == FreePage(s, addr)
  {
  }

  /** Freeing the page just allocated gives back the state before. */
  lemma AllocThenFree(s: Pmm, p: nat)
    requires Valid(s) && p < s.totalPages && !IsUsed(s, p)
    ensures FreePage(MarkOne(s, p), PageToAddr(p)) == s
  {
    PageAddrRoundTrip(p);
    SetThenClear(s.bitmap, p);
  }

  /** pmm_get_free_pages: total - used, which the invariant keeps from
      wrapping; it is the number of clear bits among the real pages. */
  function GetFreePages(s: Pmm): (r: nat)
    requires Valid(s)
    ensures r + UsedBelow(s.bitmap, s.totalPages) == s.totalPages
  {
    s.totalPages - s.usedPages
  }

  // ---------------------------------------------------------------------
  // Initialisation

  /** A boot module's physical extent. */
  datatype Module = Module(start: nat, end: nat)

  predicate ModuleOk(m: Module)
  {
    m.start < TwoTo32 && m.end < TwoTo32
  }

  /** The number of pages pmm_init manages for mem_upper KiB of upper
      memory: the 32-bit total minus the first MiB, in whole pages. */
  function TotalPages(memUpper: nat): (r: nat)
    ensures r < 0x10_0000
  {
    Wrap(Wrap(memUpper * 1024 + 0x10_0000) - MemoryStart) / PageSize
  }

  lemma TotalPagesIsUpperMemory(memUpper: nat)
    requires memUpper * 1024 < TwoTo32
    ensures TotalPages(memUpper) == memUpper / 4
  {
    if memUpper * 1024 + 0x10_0000 >= TwoTo32 {
      assert Wrap(memUpper * 1024 + 0x10_0000) == memUpper * 1024 + 0x10_0000 - TwoTo32;
    }
  }

  /** The highest end among the kernel and the modules (when the module
      flag is set). */
  function HighestEnd(kernelEnd: nat, modules: seq<Module>): (r: nat)
    ensures r >= kernelEnd
    ensures forall i :: 0 <= i < |modules| ==> r >= modules[i].end
    ensures r == kernelEnd || exists i :: 0 <= i < |modules| && r == modules[i].end
  {
    if |modules| == 0 then kernelEnd
    else
      var rest := HighestEnd(kernelEnd, modules[..|modules| - 1]);
      var last := modules[|modules| - 1].end;
      if last > rest then last else rest
  }

  function MarkModules(s: Pmm, modules: seq<Module>): (r: Pmm)
    requires Valid(s) && forall i :: 0 <= i < |modules| ==> ModuleOk(modules[i])
    ensures Valid(r) && r.totalPages == s.totalPages
    ensures forall q: nat :: q < s.totalPages && IsUsed(s, q) ==> IsUsed(r, q)
  {
    if |modules| == 0 then s
    else
      var prefix := modules[..|modules| - 1];
      assert forall i :: 0 <= i < |prefix| ==> prefix[i] == modules[i];
      var t := MarkModules(s, prefix);
      var m := modules[|modules| - 1];
      assert ModuleOk(m);
      MarkRegionUsed(t, m.start, m.end)
  }

  /** pmm_init: an all-clear bitmap of ceil(total/32) words placed at the
      first page boundary after the kernel and the modules; then the
      kernel, each module and the bitmap itself are marked used. */
  function Init(memUpper: nat, kernelEnd: nat, hasModules: bool, modules: seq<Module>): (r: Pmm)
    requires kernelEnd < TwoTo32
    requires forall i :: 0 <= i < |modules| ==> ModuleOk(modules[i])
    ensures Valid(r) && r.totalPages == TotalPages(memUpper)
    ensures |r.bitmap| == (TotalPages(memUpper) + 31) / 32
  {
    var total := TotalPages(memUpper);
    var mods := if hasModules then modules else [];
    var words := (total + 31) / 32;
    var s0 := Pmm(seq(words, _ => EmptyWord), total, 0);
    assert UsedBelow(s0.bitmap, total) == 0 by {
      ZeroBitmapUnused(words, total);
    }
    var bitmapAddr := AlignDown(Wrap(HighestEnd(kernelEnd, mods) + PageSize - 1));
    var s1 := MarkRegionUsed(s0, 0x10_0000, kernelEnd);
    var s2 := MarkModules(s1, mods);
    MarkRegionUsed(s2, bitmapAddr, Wrap(bitmapAddr + words * 4))
  }

  lemma {:induction false} ZeroBitmapUnused(words: nat, n: nat)
    requires n <= words * 32
    ensures UsedBelow(seq(words, _ => EmptyWord), n) == 0
  {
    if n > 0 {
      ZeroBitmapUnused(words, n - 1);
    }
  }

  /** After pmm_init every page the kernel image touches above 1 MiB is
      used, whatever the modules and the bitmap placement. */
  lemma InitMarksKernel(memUpper: nat, kernelEnd: nat, hasModules: bool, modules: seq<Module>, q: nat)
    requires MemoryStart <= kernelEnd && kernelEnd + PageSize - 1 < TwoTo32
    requires forall i :: 0 <= i < |modules| ==> ModuleOk(modules[i])
    requires q < TotalPages(memUpper) && q + MemoryStart / PageSize < (kernelEnd + PageSize - 1) / PageSize
    ensures IsUsed(Init(memUpper, kernelEnd, hasModules, modules), q)
  {
    var total := TotalPages(memUpper);
    var words := (total + 31) / 32;
    var s0 := Pmm(seq(words, _ => EmptyWord), total, 0);
    ZeroBitmapUnused(words, total);
    MarkRegionPages(s0, 0x10_0000, kernelEnd, q);
  }
}

/** src/managers/memory/paging.c: 32-bit two-level paging with 4 KiB pages
    (section 4.3 of the Intel SDM, Volume 3A). The directory holds 1024
    entries, and each directory slot has the 1024-entry table installed
    there. */
module Paging {
  import opened Options
  import Hex
  import PhysicalMemory
  import opened Uint32

  const PageSize: nat := 4096
  const Entries: nat := 1024
  /** Bytes covered by one directory entry. */
  const DirSpan: nat := 0x40_0000
  /** PAGE_PRESENT | PAGE_WRITE | PAGE_USER */
  const UserRw: nat := 7
  const IdentityMapSize: nat := 0x200_0000
  const KernelSpaceEnd: nat := 0x800_0000


  /** Bitwise or of two naturals. */
  function Or(a: nat, b: nat): nat
    decreases a + b
  {
    if a == 0 then b
    else if b == 0 then a
    else 2 * Or(a / 2, b / 2) + (if a % 2 == 1 || b % 2 == 1 then 1 else 0)
  }

  function Pow2(k: nat): (r: nat)
    ensures r >= 1
  {
    if k == 0 then 1 else 2 * Pow2(k - 1)
  }

  /** Or-ing bits below 2^k into a multiple of 2^k adds them. */
  lemma {:induction false} OrDisjoint(h: nat, l: nat, k: nat)
    requires l < Pow2(k)
    ensures Or(h * Pow2(k), l) == h * Pow2(k) + l
    decreases k
  {
    if k > 0 && h != 0 && l != 0 {
      var a := h * Pow2(k);
      assert a == 2 * (h * Pow2(k - 1));
      OrDisjoint(h, l / 2, k - 1);
    }
  }

  /** x & 0xFFFFF000 */
  function Frame(x: nat): nat
  {
    x - x % PageSize
  }

  /** (frame & 0xFFFFF000) | flags, for a page-aligned frame and flags in
      the low 12 bits, is frame + flags. */
  lemma EntryOf(frame: nat, flags: nat)
    requires frame % PageSize == 0 && flags < PageSize
    ensures Or(frame, flags) == frame + flags
    ensures Frame(frame + flags) == frame && (frame + flags) % 2 == flags % 2
  {
    var h := frame / PageSize;
    assert frame == PageSize * h;
    assert Pow2(12) == 4096 by {
      assert Pow2(4) == 16;
      assert Pow2(8) == 256;
    }
    OrDisjoint(h, flags, 12);
    Hex.DivModUnique(frame + flags, PageSize, h, flags);
    Hex.DivModUnique(frame + flags, 2, 2048 * h + flags / 2, flags % 2);
  }

  predicate IsPresent(e: nat)
  {
    e % 2 == 1
  }

  /** virt >> 22 */
  function DirIndex(v: nat): nat
  {
    v / DirSpan
  }

  /** (virt >> 12) & 0x3FF */
  function TableIndex(v: nat): nat
  {
    (v / PageSize) % Entries
  }

  /** The two indices select slots and together name the 4 KiB page. */
  lemma IndexSplit(v: nat)
    requires v < TwoTo32
    ensures DirIndex(v) < Entries && TableIndex(v) < Entries
    ensures v / PageSize == DirIndex(v) * Entries + TableIndex(v)
  {
    var p := v / PageSize;
    var r := v % PageSize;
    var q2, r2 := p / Entries, p % Entries;
    assert v == PageSize * p + r;
    assert p == Entries * q2 + r2;
    assert v == DirSpan * q2 + (PageSize * r2 + r);
    assert PageSize * r2 <= PageSize * (Entries - 1);
    Hex.DivModUnique(v, DirSpan, q2, PageSize * r2 + r);
  }

  /** Two addresses with the same pair of indices lie in the same page. */
  lemma SameSlot(v: nat, w: nat)
    requires v < TwoTo32 && w < TwoTo32
    ensures (DirIndex(v) == DirIndex(w) && TableIndex(v) == TableIndex(w)) <==> v / PageSize == w / PageSize
  {
    IndexSplit(v);
    IndexSplit(w);
    if v / PageSize == w / PageSize {
      assert DirIndex(v) == (v / PageSize) / Entries by { Hex.DivModUnique(v / PageSize, Entries, DirIndex(v), TableIndex(v)); }
      assert DirIndex(w) == (w / PageSize) / Entries by { Hex.DivModUnique(w / PageSize, Entries, DirIndex(w), TableIndex(w)); }
    }
  }

  /** Bit 0 of an or with an odd value is set. */
  lemma OrOdd(a: nat, b: nat)
    requires b % 2 == 1
    ensures IsPresent(Or(a, b))
  {
  }

  /** The directory and, for each directory slot, the page table installed
      there. Tables are kept per slot: pmm_alloc_page marks every frame it
      hands out, so no two present entries name the same table. */
  datatype Space = Space(dir: seq<nat>, tables: seq<seq<nat>>)

  /** 1024 directory entries, and a 1024-entry table behind each slot. */
  predicate Valid(s: Space)
  {
    && |s.dir| == Entries && |s.tables| == Entries
    && forall i :: 0 <= i < Entries ==> |s.tables[i]| == Entries
  }

  /** The cleared directory of paging_init. */
  function EmptySpace(): (s: Space)
    ensures Valid(s) && forall i :: 0 <= i < Entries ==> s.dir[i] == 0
  {
    Space(seq(Entries, _ => 0), seq(Entries, _ => seq(Entries, _ => 0)))
  }

  /** The page-table entry the hardware would use for v; 0 when the
      directory entry is not present. */
  function PteOf(s: Space, v: nat): nat
    requires Valid(s) && v < TwoTo32
  {
    IndexSplit(v);
    var d := DirIndex(v);
    if IsPresent(s.dir[d]) then s.tables[d][TableIndex(v)] else 0
  }

  /** The physical address v translates to, if its page is mapped. */
  function Translate(s: Space, v: nat): Option<nat>
    requires Valid(s) && v < TwoTo32
  {
    var p := PteOf(s, v);
    if IsPresent(p) then Some(Frame(p) + v % PageSize) else None
  }

  /** Whether a mapping call took a spare frame from the page allocator. */
  datatype Mapped = Mapped(space: Space, tookFrame: bool)

  /** paging_map_page, with spare standing for what pmm_alloc_page returns
      when the directory entry is absent. */
  function MapPage(s: Space, virt: nat, phys: nat, flags: nat, spare: nat): (r: Mapped)
    requires Valid(s) && virt < TwoTo32
    ensures Valid(r.space)
    ensures r.tookFrame <==> !IsPresent(s.dir[DirIndex(virt)])
    ensures IsPresent(r.space.dir[DirIndex(virt)])
    ensures forall i :: 0 <= i < Entries && i != DirIndex(virt) ==> r.space.dir[i] == s.dir[i]
  {
    IndexSplit(virt);
    var d := DirIndex(virt);
    var t := TableIndex(virt);
    var entry: nat := Or(Frame(phys), flags);
    if IsPresent(s.dir[d]) then
      var table: seq<nat> := s.tables[d][t := entry];
      Mapped(s.(tables := s.tables[d := table]), false)
    else
      OrOdd(spare, UserRw);
      var cleared: seq<nat> := seq(Entries, _ => 0);
      var table: seq<nat> := cleared[t := entry];
      Mapped(Space(s.dir[d := Or(spare, UserRw)], s.tables[d := table]), true)
  }

  /** A new directory entry is the page-aligned spare frame plus
      PAGE_PRESENT | PAGE_WRITE | PAGE_USER. */
  lemma MapPageInstalls(s: Space, virt: nat, phys: nat, flags: nat, spare: nat)
    requires Valid(s) && virt < TwoTo32 && spare % PageSize == 0
    ensures var r := MapPage(s, virt, phys, flags, spare);
      r.tookFrame ==> r.space.dir[DirIndex(virt)] == spare + UserRw && Frame(r.space.dir[DirIndex(virt)]) == spare
  {
    IndexSplit(virt);
    EntryOf(spare, UserRw);
  }

  /** The mapped page's entry becomes (phys & 0xFFFFF000) | flags. */
  lemma MapPageSets(s: Space, virt: nat, phys: nat, flags: nat, spare: nat)
    requires Valid(s) && virt < TwoTo32
    ensures PteOf(MapPage(s, virt, phys, flags, spare).space, virt) == Or(Frame(phys), flags)
  {
    IndexSplit(virt);
  }

  /** Every other page keeps its entry, including the pages of a freshly
      cleared table. */
  lemma MapPageKeeps(s: Space, virt: nat, phys: nat, flags: nat, spare: nat, v: nat)
    requires Valid(s) && virt < TwoTo32 && v < TwoTo32
    requires v / PageSize != virt / PageSize
    ensures PteOf(MapPage(s, virt, phys, flags, spare).space, v) == PteOf(s, v)
  {
    IndexSplit(virt);
    IndexSplit(v);
    SameSlot(v, virt);
  }

  /** With a present flag in the low 12 bits, virt translates into the
      frame of phys at the same offset. */
  lemma MapPageTranslates(s: Space, virt: nat, phys: nat, flags: nat, spare: nat)
    requires Valid(s) && virt < TwoTo32
    requires flags < PageSize && IsPresent(flags)
    ensures Translate(MapPage(s, virt, phys, flags, spare).space, virt) == Some(Frame(phys) + virt % PageSize)
  {
    MapPageSets(s, virt, phys, flags, spare);
    EntryOf(Frame(phys), flags);
  }

  /** The allocator b only adds used pages to those of a. */
  predicate NeverFrees(a: PhysicalMemory.Pmm, b: PhysicalMemory.Pmm)
  {
    && PhysicalMemory.Valid(a) && PhysicalMemory.Valid(b) && b.totalPages == a.totalPages
    && forall q: nat :: q < a.totalPages && PhysicalMemory.IsUsed(a, q) ==> PhysicalMemory.IsUsed(b, q)
  }

  /** One step of identity_map_region's loop: map addr to itself. When the
      directory entry is absent, paging_map_page takes the new table's
      frame from pmm_alloc_page. */
  function MapStep(s: Space, addr: nat, m: PhysicalMemory.Pmm): (r: (Space, PhysicalMemory.Pmm))
    requires Valid(s) && addr < TwoTo32 && PhysicalMemory.Valid(m)
    ensures Valid(r.0) && NeverFrees(m, r.1) && r.1.usedPages <= m.usedPages + 1
  {
    var taken := PhysicalMemory.Alloc(m);
    var mp := MapPage(s, addr, addr, UserRw, taken.1);
    (mp.space, if mp.tookFrame then taken.0 else m)
  }

  /** The loop of identity_map_region from addr up to end. */
  function IdentityMapFrom(s: Space, addr: nat, end: nat, m: PhysicalMemory.Pmm): (r: (Space, PhysicalMemory.Pmm))
    requires Valid(s) && end < TwoTo32 && PhysicalMemory.Valid(m)
    ensures Valid(r.0) && NeverFrees(m, r.1)
    decreases end - addr
  {
    if addr < end then
      var step := MapStep(s, addr, m);
      IdentityMapFrom(step.0, addr + PageSize, end, step.1)
    else (s, m)
  }

  /** Every present directory entry names a table frame that the allocator
      counts as used (a frame of 0, returned when memory ran out, names no
      page). */
  predicate TablesTaken(s: Space, m: PhysicalMemory.Pmm)
    requires Valid(s) && PhysicalMemory.Valid(m)
  {
    forall d :: 0 <= d < Entries && IsPresent(s.dir[d]) && Frame(s.dir[d]) != 0 ==>
      && PhysicalMemory.AddrToPage(Frame(s.dir[d])) < m.totalPages
      && PhysicalMemory.IsUsed(m, PhysicalMemory.AddrToPage(Frame(s.dir[d])))
  }

  /** A step that creates a table takes its frame from the allocator, so
      every installed table stays accounted for. */
  lemma MapStepTakes(s: Space, addr: nat, m: PhysicalMemory.Pmm)
    requires Valid(s) && addr < TwoTo32 && PhysicalMemory.Valid(m) && TablesTaken(s, m)
    ensures var r := MapStep(s, addr, m); TablesTaken(r.0, r.1)
  {
    var taken := PhysicalMemory.Alloc(m);
    var r := MapStep(s, addr, m);
    IndexSplit(addr);
    var d0 := DirIndex(addr);
    if !IsPresent(s.dir[d0]) {
      MapPageInstalls(s, addr, addr, UserRw, taken.1);
    }
  }

  /** The whole loop keeps every installed table accounted for. */
  lemma {:induction false} IdentityMapTakes(s: Space, addr: nat, end: nat, m: PhysicalMemory.Pmm)
    requires Valid(s) && end < TwoTo32 && PhysicalMemory.Valid(m) && TablesTaken(s, m)
    ensures var r := IdentityMapFrom(s, addr, end, m); TablesTaken(r.0, r.1)
    decreases end - addr
  {
    if addr < end {
      var step := MapStep(s, addr, m);
      MapStepTakes(s, addr, m);
      IdentityMapTakes(step.0, addr + PageSize, end, step.1);
    }
  }

  /** An address outside the page starting at addr lies in another page. */
  lemma PageApart(addr: nat, v: nat)
    requires addr % PageSize == 0 && (v < addr || addr + PageSize <= v)
    ensures v / PageSize != addr / PageSize
  {
    var k, q := addr / PageSize, v / PageSize;
    assert addr == PageSize * k;
    assert PageSize * q <= v < PageSize * q + PageSize;
  }

  /** The loop's next address stays page-aligned. */
  lemma NextPage(addr: nat)
    requires addr % PageSize == 0
    ensures (addr + PageSize) % PageSize == 0
  {
    Hex.DivModUnique(addr + PageSize, PageSize, addr / PageSize + 1, 0);
  }

  /** One step of the loop leaves every other page's entry alone. */
  lemma MapStepKeeps(s: Space, addr: nat, m: PhysicalMemory.Pmm, v: nat)
    requires Valid(s) && addr < TwoTo32 && v < TwoTo32 && PhysicalMemory.Valid(m)
    requires addr % PageSize == 0 && (v < addr || addr + PageSize <= v)
    ensures PteOf(MapStep(s, addr, m).0, v) == PteOf(s, v)
  {
    PageApart(addr, v);
    MapPageKeeps(s, addr, addr, UserRw, PhysicalMemory.Alloc(m).1, v);
  }

  /** Pages outside [addr, end) keep their entries. */
  lemma {:induction false} IdentityMapKeeps(s: Space, addr: nat, end: nat, m: PhysicalMemory.Pmm, v: nat)
    requires Valid(s) && end < TwoTo32 && v < TwoTo32 && PhysicalMemory.Valid(m)
    requires addr % PageSize == 0 && end % PageSize == 0
    requires v < addr || end <= v
    ensures PteOf(IdentityMapFrom(s, addr, end, m).0, v) == PteOf(s, v)
    decreases end - addr
  {
    if addr < end {
      var step := MapStep(s, addr, m);
      var rest := IdentityMapFrom(step.0, addr + PageSize, end, step.1);
      assert IdentityMapFrom(s, addr, end, m) == rest;
      MapStepKeeps(s, addr, m, v);
      NextPage(addr);
      IdentityMapKeeps(step.0, addr + PageSize, end, step.1, v);
    }
  }

  /** The page at addr is mapped to itself by the first step. */
  lemma MapStepSets(s: Space, addr: nat, m: PhysicalMemory.Pmm, v: nat)
    requires Valid(s) && addr < TwoTo32 && PhysicalMemory.Valid(m)
    requires addr % PageSize == 0 && addr <= v < addr + PageSize
    ensures PteOf(MapStep(s, addr, m).0, v) == addr + UserRw
  {
    MapPageSets(s, addr, addr, UserRw, PhysicalMemory.Alloc(m).1);
    EntryOf(addr, UserRw);
    assert v / PageSize == addr / PageSize by {
      Hex.DivModUnique(v, PageSize, addr / PageSize, v - addr);
    }
    SameSlot(v, addr);
  }

  /** An entry Frame(v) + 7 translates v to itself. */
  lemma IdentityEntry(s: Space, v: nat)
    requires Valid(s) && v < TwoTo32 && PteOf(s, v) == Frame(v) + UserRw
    ensures Translate(s, v) == Some(v)
  {
    var k, o := v / PageSize, v % PageSize;
    assert Frame(v) == PageSize * k;
    Hex.DivModUnique(Frame(v), PageSize, k, 0);
    EntryOf(Frame(v), UserRw);
    assert IsPresent(PteOf(s, v));
  }

  /** The first page of the loop is mapped to itself and later steps keep it. */
  lemma IdentityMapFirst(s: Space, addr: nat, end: nat, m: PhysicalMemory.Pmm, v: nat)
    requires Valid(s) && end < TwoTo32 && PhysicalMemory.Valid(m)
    requires addr % PageSize == 0 && end % PageSize == 0
    requires addr <= v < end && v < addr + PageSize
    ensures PteOf(IdentityMapFrom(s, addr, end, m).0, v) == addr + UserRw
  {
    var step := MapStep(s, addr, m);
    var rest := IdentityMapFrom(step.0, addr + PageSize, end, step.1);
    assert IdentityMapFrom(s, addr, end, m) == rest;
    MapStepSets(s, addr, m, v);
    NextPage(addr);
    IdentityMapKeeps(step.0, addr + PageSize, end, step.1, v);
  }

  /** Every address in [addr, end) ends up mapped to itself. */
  lemma {:induction false} IdentityMapSets(s: Space, addr: nat, end: nat, m: PhysicalMemory.Pmm, v: nat)
    requires Valid(s) && end < TwoTo32 && PhysicalMemory.Valid(m)
    requires addr % PageSize == 0 && end % PageSize == 0
    requires addr <= v < end
    ensures PteOf(IdentityMapFrom(s, addr, end, m).0, v) == Frame(v) + UserRw
    decreases end - addr
  {
    if v < addr + PageSize {
      IdentityMapFirst(s, addr, end, m, v);
      Hex.DivModUnique(v, PageSize, addr / PageSize, v - addr);
    } else {
      var step := MapStep(s, addr, m);
      NextPage(addr);
      IdentityMapSets(step.0, addr + PageSize, end, step.1, v);
    }
  }

  /** identity_map_region: start rounded down and end rounded up to a page
      (the rounding of end in 32 bits); the allocator after the tables it
      created. */
  function IdentityMapRegion(s: Space, start: nat, end: nat, m: PhysicalMemory.Pmm): (r: (Space, PhysicalMemory.Pmm))
    requires Valid(s) && start < TwoTo32 && end < TwoTo32 && PhysicalMemory.Valid(m)
    ensures Valid(r.0) && NeverFrees(m, r.1)
  {
    IdentityMapFrom(s, Frame(start), Frame(Wrap(end + PageSize - 1)), m)
  }

  /** Every address of [start, end) translates to itself, and pages outside
      the rounded region keep their entries. */
  lemma IdentityMapRegionMaps(s: Space, start: nat, end: nat, m: PhysicalMemory.Pmm, v: nat)
    requires Valid(s) && start < TwoTo32 && end < TwoTo32 && v < TwoTo32 && PhysicalMemory.Valid(m)
    requires end + PageSize - 1 < TwoTo32
    ensures start <= v < end ==> Translate(IdentityMapRegion(s, start, end, m).0, v) == Some(v)
    ensures v < Frame(start) || Frame(end + PageSize - 1) <= v ==>
      PteOf(IdentityMapRegion(s, start, end, m).0, v) == PteOf(s, v)
  {
    var lo, hi := Frame(start), Frame(end + PageSize - 1);
    assert Wrap(end + PageSize - 1) == end + PageSize - 1;
    assert lo % PageSize == 0 && hi % PageSize == 0;
    if start <= v < end {
      IdentityMapSets(s, lo, hi, m, v);
      IdentityEntry(IdentityMapRegion(s, start, end, m).0, v);
    }
    if v < lo || hi <= v {
      IdentityMapKeeps(s, lo, hi, m, v);
    }
  }

  /** An end within the last page wraps to 0: nothing is mapped and no
      frame is taken. */
  lemma IdentityMapRegionWraps(s: Space, m: PhysicalMemory.Pmm)
    requires Valid(s) && PhysicalMemory.Valid(m)
    ensures IdentityMapRegion(s, 0, 0xFFFF_F001, m) == (s, m)
  {
  }

  /** (x + 0x3FFFFF) & 0xFFC00000 */
  function Round4M(x: nat): (r: nat)
    requires x < TwoTo32
    ensures r % DirSpan == 0 && r < TwoTo32
    ensures x + DirSpan - 1 < TwoTo32 ==> x <= r < x + DirSpan
  {
    var t := Wrap(x + DirSpan - 1);
    t - t % DirSpan
  }

  predicate ModulesOk(modules: seq<PhysicalMemory.Module>)
  {
    forall i :: 0 <= i < |modules| ==> PhysicalMemory.ModuleOk(modules[i])
  }

  /** The highest of 2 MiB, kernel_end and the module ends. */
  function UsedTop(kernelEnd: nat, hasModules: bool, modules: seq<PhysicalMemory.Module>): nat
  {
    PhysicalMemory.HighestEnd(if kernelEnd > 0x20_0000 then kernelEnd else 0x20_0000,
                              if hasModules then modules else [])
  }

  /** find_highest_used_address */
  function HighestUsed(kernelEnd: nat, hasModules: bool, modules: seq<PhysicalMemory.Module>): (r: nat)
    requires kernelEnd < TwoTo32 && ModulesOk(modules)
    ensures r % DirSpan == 0 && IdentityMapSize <= r < TwoTo32
  {
    var top := UsedTop(kernelEnd, hasModules, modules);
    var h := Round4M(Wrap(top + 0x10_0000));
    if h < IdentityMapSize then IdentityMapSize else h
  }

  /** Absent overflow, the result is the least 4 MiB multiple at or above
      1 MiB past everything in use, but never below 32 MiB. */
  lemma HighestUsedBound(kernelEnd: nat, hasModules: bool, modules: seq<PhysicalMemory.Module>)
    requires kernelEnd < TwoTo32 && ModulesOk(modules)
    requires UsedTop(kernelEnd, hasModules, modules) + 0x10_0000 + DirSpan - 1 < TwoTo32
    ensures var r := HighestUsed(kernelEnd, hasModules, modules);
      var top := UsedTop(kernelEnd, hasModules, modules);
      && r >= top + 0x10_0000
      && top >= kernelEnd && top >= 0x20_0000
      && (hasModules ==> forall i :: 0 <= i < |modules| ==> top >= modules[i].end)
      && (r == IdentityMapSize || r < top + 0x10_0000 + DirSpan)
  {
  }

  /** What paging_init leaves: the translation, the page directory's
      frame, the end of the region it reserves in the page allocator, and
      the allocator after the directory, the reservation and the page
      tables. */
  datatype Booted = Booted(space: Space, dirAddr: nat, reserved: nat, pmm: PhysicalMemory.Pmm)

  /** The reservation end: 512 KiB past the used top and 1 MiB past the
      page directory, rounded to 4 MiB. */
  function ReservedEnd(highest: nat, dirAddr: nat): (r: nat)
    requires highest < TwoTo32
    ensures r % DirSpan == 0 && r < TwoTo32
  {
    var reservation := Round4M(Wrap(highest + 0x8_0000));
    var tables := Wrap(dirAddr + 0x10_0000);
    Round4M(if tables > reservation then tables else reservation)
  }

  lemma ReservedEndBound(highest: nat, dirAddr: nat)
    requires highest + 0x8_0000 + 2 * DirSpan < TwoTo32 && dirAddr + 0x10_0000 + DirSpan < TwoTo32
    ensures var r := ReservedEnd(highest, dirAddr);
      r >= highest + 0x8_0000 && r >= dirAddr + 0x10_0000
  {
  }

  /** paging_init: the directory comes from pmm_alloc_page, the region up
      to the reservation end is marked used, and the identity mapping of
      the first 128 MiB takes each page table from pmm_alloc_page. */
  function PagingInit(kernelEnd: nat, hasModules: bool, modules: seq<PhysicalMemory.Module>,
                      pmm: PhysicalMemory.Pmm): (r: Booted)
    requires kernelEnd < TwoTo32 && ModulesOk(modules) && PhysicalMemory.Valid(pmm)
    ensures Valid(r.space) && NeverFrees(pmm, r.pmm)
    ensures r.reserved % DirSpan == 0
  {
    var highest := HighestUsed(kernelEnd, hasModules, modules);
    var dir := PhysicalMemory.Alloc(pmm);
    var reserved := ReservedEnd(highest, dir.1);
    var marked := PhysicalMemory.MarkRegionUsed(dir.0, 0x10_0000, reserved);
    var mapped := IdentityMapRegion(EmptySpace(), 0, KernelSpaceEnd, marked);
    Booted(mapped.0, dir.1, reserved, mapped.1)
  }

  /** After paging_init exactly the first 128 MiB translate, each address
      to itself. */
  lemma PagingInitMaps(kernelEnd: nat, hasModules: bool, modules: seq<PhysicalMemory.Module>,
                       pmm: PhysicalMemory.Pmm, v: nat)
    requires kernelEnd < TwoTo32 && ModulesOk(modules) && PhysicalMemory.Valid(pmm)
    requires v < TwoTo32
    ensures var r := PagingInit(kernelEnd, hasModules, modules, pmm);
      Translate(r.space, v) == if v < KernelSpaceEnd then Some(v) else None
  {
    var r := PagingInit(kernelEnd, hasModules, modules, pmm);
    var dir := PhysicalMemory.Alloc(pmm);
    var marked := PhysicalMemory.MarkRegionUsed(dir.0, 0x10_0000, r.reserved);
    var e := EmptySpace();
    assert r.space == IdentityMapRegion(e, 0, KernelSpaceEnd, marked).0;
    IdentityMapRegionMaps(e, 0, KernelSpaceEnd, marked, v);
    if v >= KernelSpaceEnd {
      Hex.DivModUnique(KernelSpaceEnd + PageSize - 1, PageSize, 0x8000, PageSize - 1);
      assert PteOf(r.space, v) == PteOf(e, v);
      IndexSplit(v);
      assert e.dir[DirIndex(v)] == 0;
      assert PteOf(e, v) == 0;
    }
  }

  /** The allocator marks every page from 1 MiB up to the reservation end. */
  lemma PagingInitReserves(kernelEnd: nat, hasModules: bool, modules: seq<PhysicalMemory.Module>,
                           pmm: PhysicalMemory.Pmm, q: nat)
    requires kernelEnd < TwoTo32 && ModulesOk(modules) && PhysicalMemory.Valid(pmm)
    requires q < pmm.totalPages
    ensures var r := PagingInit(kernelEnd, hasModules, modules, pmm);
      q * PageSize + 0x10_0000 < r.reserved ==> PhysicalMemory.IsUsed(r.pmm, q)
  {
    var r := PagingInit(kernelEnd, hasModules, modules, pmm);
    var dir := PhysicalMemory.Alloc(pmm);
    var reserved := r.reserved;
    var marked := PhysicalMemory.MarkRegionUsed(dir.0, 0x10_0000, reserved);
    assert r.pmm == IdentityMapRegion(EmptySpace(), 0, KernelSpaceEnd, marked).1;
    if q * PageSize + 0x10_0000 < reserved {
      ReservedPages(reserved, q);
      PhysicalMemory.MarkRegionPages(dir.0, 0x10_0000, reserved, q);
    }
  }

  /** The page directory and every page table paging_init installs lie in
      frames the allocator counts as used, the directory's having been
      free before. */
  lemma PagingInitTakesFrames(kernelEnd: nat, hasModules: bool, modules: seq<PhysicalMemory.Module>,
                              pmm: PhysicalMemory.Pmm)
    requires kernelEnd < TwoTo32 && ModulesOk(modules) && PhysicalMemory.Valid(pmm)
    ensures var r := PagingInit(kernelEnd, hasModules, modules, pmm);
      && TablesTaken(r.space, r.pmm)
      && (r.dirAddr != 0 ==>
            var p := PhysicalMemory.AddrToPage(r.dirAddr);
            p < pmm.totalPages && !PhysicalMemory.IsUsed(pmm, p) && PhysicalMemory.IsUsed(r.pmm, p))
  {
    var r := PagingInit(kernelEnd, hasModules, modules, pmm);
    var dir := PhysicalMemory.Alloc(pmm);
    var marked := PhysicalMemory.MarkRegionUsed(dir.0, 0x10_0000, r.reserved);
    var e := EmptySpace();
    assert TablesTaken(e, marked);
    IdentityMapTakes(e, 0, Frame(Wrap(KernelSpaceEnd + PageSize - 1)), marked);
  }

  /** The next pmm_alloc_page after paging_init, as kheap_init and
      vmm_alloc_page make it, hands out neither the directory nor any page
      table. */
  lemma NextAllocAvoidsPaging(kernelEnd: nat, hasModules: bool, modules: seq<PhysicalMemory.Module>,
                              pmm: PhysicalMemory.Pmm)
    requires kernelEnd < TwoTo32 && ModulesOk(modules) && PhysicalMemory.Valid(pmm)
    ensures var r := PagingInit(kernelEnd, hasModules, modules, pmm);
      var a := PhysicalMemory.Alloc(r.pmm).1;
      a != 0 ==>
        && a != r.dirAddr
        && forall d :: 0 <= d < Entries && IsPresent(r.space.dir[d]) ==> a != Frame(r.space.dir[d])
  {
    PagingInitTakesFrames(kernelEnd, hasModules, modules, pmm);
  }

  /** A 4 MiB-aligned 32-bit end: rounding it up to pages is exact and
      covers page q when q's address lies below it. */
  lemma ReservedPages(reserved: nat, q: nat)
    requires reserved % DirSpan == 0 && reserved < TwoTo32
    requires q * PageSize + 0x10_0000 < reserved
    ensures reserved + PageSize - 1 < TwoTo32
    ensures q + 256 < (reserved + PageSize - 1) / PageSize
  {
    var k := reserved / PageSize;
    assert reserved == PageSize * k by {
      Hex.DivModUnique(reserved, PageSize, reserved / DirSpan * 1024, 0);
    }
    assert reserved + PageSize - 1 < TwoTo32;
    Hex.DivModUnique(reserved + PageSize - 1, PageSize, k, PageSize - 1);
    assert q + 256 < k;
  }

}

# MaahiOS core in Dafny

MaahiOS is a small hobby x86 kernel written in C, plus two Python build tools
that produce its icons. This project models the parts of it that are logic
rather than hardware access, as pure Dafny functions over immutable state,
and proves what the code promises about them:

- **Icon tools** (`tools/create_icons.py`, `tools/bmp_to_c.py`): the 32-bit
  BMP encoder with its 14-byte file header and 40-byte info header, the
  square-icon pixel generators, and the C array literal emitter with its
  twelve-per-line wrapping. File existence is a parameter.
- **Memory managers**: the physical page bitmap allocator (`pmm.c`), the
  two-level page tables and identity mapping (`paging.c`), the kernel bump
  heap (`kheap.c`) and the user free-list heap (`heap.c`).
- **Queues and tables**: the 16-entry scheduler ring, the 64-slot process
  table, and the PS/2 mouse driver's 128-slot packet ring, its 3-byte packet
  assembly and its cursor clamping.
- **Hardware record packers**: PCI configuration addresses and lane merges,
  GDT and TSS descriptors, IDT gates, the 8259A PIC masks and the PIT divisor,
  using `bv8`/`bv16`/`bv32` where the code packs bits.
- **Text and pixel renderers**: the VGA text console, `int_to_str`, the
  exception reports, the mode-13h pixel routines, the mouse-cursor
  compositor, the system manager's 5x7 glyphs and desktop, the GUI object
  pools, and one pass of each demo task.

C's 32-bit unsigned arithmetic is written out explicitly (`% 2^32`, or
`bv32`). Port writes become logs of `(port, value)` pairs, and port reads,
multiboot data, handler addresses and allocator results become parameters.
Memory-mapped buffers become sequences, and the pixel calls the GUI code
makes become an abstract pixel map. Each module follows one source file;
`Options`, `Uint32`, `Bytes`, `CStrings`, `Decimal` and `Hex` hold the shared
definitions (optional values, 32-bit wrap-around, little-endian packing,
NUL-terminated strings, decimal and hexadecimal text).

## Model

| member | source | states |
|---|---|---|
| PageBitmap.SetBitTest | src/managers/memory/pmm.c:34-52 | after bitmap_set(p), bitmap_test(q) holds exactly when q is p or it held before |
| PageBitmap.ClearBitTest | src/managers/memory/pmm.c:41-52 | after bitmap_clear(p), bitmap_test(q) holds exactly when q is not p and it held before |
| PageBitmap.SetThenClear | src/managers/memory/pmm.c:34-45 | clearing a bit that was just set on a clear page gives back the original bitmap |
| PhysicalMemory.AddrPageRoundTrip | src/managers/memory/pmm.c:24-31 | page_to_addr(addr_to_page(a)) is a for every page-aligned 32-bit address at or above 1 MiB |
| PhysicalMemory.PageAddrRoundTrip | src/managers/memory/pmm.c:24-31 | addr_to_page(page_to_addr(p)) is p for every page index below 2^20, including those whose address wraps past 4 GiB |
| PhysicalMemory.AlignDown | src/managers/memory/pmm.c:119 | x & ~(PAGE_SIZE-1) is the page multiple at or below x, less than a page away |
| PhysicalMemory.UsedBelowSet | src/managers/memory/pmm.c:123-126 | setting a clear bit raises the count of set bits by one exactly when the page is among those counted, so used_pages++ keeps the count |
| PhysicalMemory.UsedBelowClear | src/managers/memory/pmm.c:152-155 | clearing a set bit lowers the count of set bits by one, so used_pages-- keeps the count |
| PhysicalMemory.MarkOne | src/managers/memory/pmm.c:122-127 | one marking step keeps used_pages equal to the set bits and adds exactly page p to the used pages |
| PhysicalMemory.MarkPages | src/managers/memory/pmm.c:122-127 | the marking loop leaves used exactly the pages used before plus those in [lo, hi) below total_pages, and leaves the padding bits beyond total_pages alone |
| PhysicalMemory.MarkRegionUsed | src/managers/memory/pmm.c:117-128 | marking a region never frees a page and keeps used_pages equal to the number of set bits |
| PhysicalMemory.MarkRegionPages | src/managers/memory/pmm.c:117-128 | for a region above 1 MiB whose rounded end does not wrap, a page ends up used exactly when it was used or the region touches it |
| PhysicalMemory.FirstFree | src/managers/memory/pmm.c:132-139 | the scan finds the lowest clear page at or after from, or reports that all of them are used |
| PhysicalMemory.AllocPage | src/managers/memory/pmm.c:130-143 | the lowest free page is marked and its address returned with used_pages one higher; when every page is used the result is 0 and nothing changes; the loop computes exactly PhysicalMemory.Alloc |
| PhysicalMemory.Alloc | src/managers/memory/pmm.c:130-143 | pmm_alloc_page never frees a page and takes at most one; a non-zero result is a page-aligned address of a page that was free and is now used, and a full allocator gives 0 and stays as it was |
| PhysicalMemory.FreePage | src/managers/memory/pmm.c:145-156 | the page of addr becomes free and used_pages drops by one when it was used and in range; otherwise the state is unchanged |
| PhysicalMemory.FreePageIdempotent | src/managers/memory/pmm.c:145-156 | freeing the same address twice has the effect of freeing it once |
| PhysicalMemory.AllocThenFree | src/managers/memory/pmm.c:130-156 | freeing the address of the page just allocated restores the allocator exactly |
| PhysicalMemory.GetFreePages | src/managers/memory/pmm.c:168-170 | total_pages - used_pages is the number of clear bits among the real pages, so it never wraps |
| PhysicalMemory.TotalPages | src/managers/memory/pmm.c:59-65 | the page count computed in 32 bits is below 2^20 |
| PhysicalMemory.TotalPagesIsUpperMemory | src/managers/memory/pmm.c:59-65 | when mem_upper * 1024 fits in 32 bits the allocator manages mem_upper / 4 pages, even if adding 1 MiB wraps |
| PhysicalMemory.HighestEnd | src/managers/memory/pmm.c:72-82 | the bitmap placement starts from the maximum of kernel_end and every module end, and that maximum is one of them |
| PhysicalMemory.MarkModules | src/managers/memory/pmm.c:103-108 | marking the modules in turn keeps the allocator valid and never frees a page |
| PhysicalMemory.ZeroBitmapUnused | src/managers/memory/pmm.c:90-96 | an all-zero bitmap has no used page, so used_pages = 0 is consistent |
| PhysicalMemory.Init | src/managers/memory/pmm.c:57-115 | after pmm_init the bitmap has ceil(total/32) words, total_pages is as computed from mem_upper and used_pages counts the set bits |
| PhysicalMemory.InitMarksKernel | src/managers/memory/pmm.c:99-100 | every page that the kernel image touches above 1 MiB is used after pmm_init, whatever the modules and bitmap placement |
| Paging.EntryOf | src/managers/memory/paging.c:43 | the page-aligned frame combined with flags below 4096 is frame + flags, keeps the frame and has bit 0 of flags |
| Paging.IndexSplit | src/managers/memory/paging.c:14-15 | virt >> 22 and (virt >> 12) & 0x3FF are below 1024 and together give the page number virt / 4096 |
| Paging.SameSlot | src/managers/memory/paging.c:14-15 | two addresses have the same directory and table index exactly when they lie in the same 4 KiB page |
| Paging.EmptySpace | src/managers/memory/paging.c:128-131 | the cleared page directory has all 1024 entries 0 |
| Paging.MapPage | src/managers/memory/paging.c:13-44 | the frame pmm_alloc_page returned is installed as a new table exactly when the directory entry was not present; afterwards the entry is present and no other directory entry changes |
| Paging.MapPageInstalls | src/managers/memory/paging.c:36 | a newly installed directory entry is the page-aligned table frame plus the present, write and user bits |
| Paging.MapPageSets | src/managers/memory/paging.c:43 | the entry for virt becomes the frame of phys combined with the flags |
| Paging.MapPageKeeps | src/managers/memory/paging.c:13-44 | the entry of every address in another page is unchanged, including when a fresh table is cleared |
| Paging.MapPageTranslates | src/managers/memory/paging.c:43 | with a present flag below 4096, virt translates to phys's frame at virt's offset |
| Paging.MapStep | src/managers/memory/paging.c:53-55 | one loop step, through paging_map_page, takes at most one frame from the page allocator and frees none |
| Paging.MapStepTakes | src/managers/memory/paging.c:19-36 | a step that creates a page table installs a frame that the page allocator now counts as used, and earlier tables stay counted |
| Paging.IdentityMapTakes | src/managers/memory/paging.c:47-56 | after the identity loop every present directory entry names a table frame the page allocator counts as used |
| Paging.IdentityMapKeeps | src/managers/memory/paging.c:53-55 | the identity loop leaves every address outside [addr, end) with its old entry |
| Paging.MapStepSets | src/managers/memory/paging.c:54 | a step maps every address of page addr to the entry addr + 7 |
| Paging.IdentityEntry | src/managers/memory/paging.c:54 | an address whose entry is its own frame plus 7 translates to itself |
| Paging.IdentityMapFirst | src/managers/memory/paging.c:53-55 | the first page of the loop keeps the identity entry the first step gives it |
| Paging.IdentityMapSets | src/managers/memory/paging.c:53-55 | after the loop every address of [addr, end) has its own frame plus 7 as entry |
| Paging.IdentityMapRegionMaps | src/managers/memory/paging.c:47-56 | every address of [start, end) translates to itself, and addresses outside the page-rounded region keep their entries |
| Paging.IdentityMapRegionWraps | src/managers/memory/paging.c:50 | an end inside the last 4 KiB page rounds to 0 in 32 bits, so nothing is mapped and no frame is taken |
| Paging.Round4M | src/managers/memory/paging.c:102 | (x + 0x3FFFFF) & 0xFFC00000 is a 4 MiB multiple and, absent overflow, the least one at or above x |
| Paging.HighestUsed | src/managers/memory/paging.c:79-110 | find_highest_used_address returns a 4 MiB multiple of at least 32 MiB |
| Paging.HighestUsedBound | src/managers/memory/paging.c:79-110 | absent overflow the result lies at least 1 MiB above the kernel, every module and 2 MiB, and is within 4 MiB of that point unless it is the 32 MiB floor |
| Paging.ReservedEnd | src/managers/memory/paging.c:118-142 | the reservation end is a 4 MiB multiple |
| Paging.ReservedEndBound | src/managers/memory/paging.c:118-142 | absent overflow the reservation end lies at least 512 KiB past the used top and 1 MiB past the page directory |
| Paging.PagingInit | src/managers/memory/paging.c:113-163 | paging_init takes the directory from pmm_alloc_page, reserves a 4 MiB-aligned region, builds a well-formed translation whose tables also come from pmm_alloc_page, and never frees a page |
| Paging.PagingInitMaps | src/managers/memory/paging.c:147-157 | after paging_init exactly the addresses below 128 MiB translate, each to itself |
| Paging.PagingInitReserves | src/managers/memory/paging.c:142-145 | every page from 1 MiB up to the reservation end is used in the allocator |
| Paging.PagingInitTakesFrames | src/managers/memory/paging.c:126-157 | after paging_init the directory frame, free before, and every installed page-table frame are used in the page allocator |
| Paging.NextAllocAvoidsPaging | src/managers/memory/paging.c:167-171 | the next pmm_alloc_page after paging_init, as vmm_alloc_page makes it, returns neither the directory nor any page-table frame |
| KernelHeap.Init | src/lib/kheap.c:20-38 | the heap starts and bumps from the first free page and ends at 128 MiB |
| KernelHeap.PageEnd | src/lib/kheap.c:63 | (x + 4095) & ~4095 is a page multiple and, absent overflow, the least one at or above x |
| KernelHeap.CoverPages | src/lib/kheap.c:66-72 | the page loop makes one pmm_alloc_page call per 4 KiB between last_page_allocated and page_end and leaves last_page_allocated at the larger of the two |
| KernelHeap.Bump | src/lib/kheap.c:58-72 | the success path returns the old bump pointer and leaves it at the new end |
| KernelHeap.KmallocAsWritten | src/lib/kheap.c:41-75 | with 32-bit arithmetic as written, kmalloc never moves the heap bounds |
| KernelHeap.Align16 | src/lib/kheap.c:47 | the rounded size is the least multiple of 16 at or above size |
| KernelHeap.Kmalloc | src/lib/kheap.c:41-75 | NULL and no change unless the rounded request fits below heap_end; otherwise the old bump pointer, with the heap still valid |
| KernelHeap.KmallocZero | src/lib/kheap.c:42-44 | kmalloc(0) returns NULL and changes nothing |
| KernelHeap.KmallocEffect | src/lib/kheap.c:47-59 | a granted call returns the old pointer and advances it by the size rounded up to 16, which covers the request; a refused one changes nothing |
| KernelHeap.KmallocDisjoint | src/lib/kheap.c:58-59 | two successive granted calls hand out disjoint, increasing ranges |
| KernelHeap.KmallocCoversPages | src/lib/kheap.c:63-72 | after a granted call the pages requested from pmm reach past the bump pointer |
| KernelHeap.KmallocAgrees | src/lib/kheap.c:47-59 | the 32-bit and the unbounded versions agree whenever the rounded request fits in 32 bits |
| KernelHeap.KmallocWraps | src/lib/kheap.c:50-59 | a request of 0xFFFFFFF0 at 2 MiB passes the bound check as written and leaves the pointer below heap_start; the corrected version refuses it |
| KernelHeap.KmallocRoundsToNothing | src/lib/kheap.c:47 | a request of 0xFFFFFFF1 rounds to 0 as written and is granted without moving the pointer |
| KernelHeap.Kfree | src/lib/kheap.c:78-81 | kfree leaves the heap as it is |
| KernelHeap.Stats | src/lib/kheap.c:84-88 | used and free bytes add up to the heap size, and the page count is the heap size in whole pages |
| UserHeap.AlignSizeAsWritten | src/lib/heap.c:34-36 | align_size as computed in 32 bits always gives a multiple of 8 |
| UserHeap.AlignSize | src/lib/heap.c:34-36 | the rounded size is the least multiple of 8 at or above size |
| UserHeap.AlignSizeAgrees | src/lib/heap.c:34-36 | the 32-bit rounding agrees with the exact one for every size up to 0xFFFFFFF8 |
| UserHeap.AlignSizeWraps | src/lib/heap.c:34-36 | as written, 0xFFFFFFF9 rounds to 0, where the intended rounding is 2^32 |
| UserHeap.TotalSizeSplice | src/lib/heap.c:106-115 | replacing a run of blocks changes the total data size by the difference of the two runs |
| UserHeap.FirstFit | src/lib/heap.c:98-121 | the search returns the first block in list order that is free and at least size bytes, or reports that none is |
| UserHeap.Expand | src/lib/heap.c:39-78 | expand_heap counts one page and one system call even on failure, and appends one free block of 4096 - 12 bytes at the tail only when a page came back |
| UserHeap.MallocAligned | src/lib/heap.c:89-132 | each page request made is answered by the next supplied page, and both counters rise by the number of requests |
| UserHeap.MallocZero | src/lib/heap.c:90-92 | malloc(0) returns NULL and changes nothing, as written and as corrected |
| UserHeap.MallocAgrees | src/lib/heap.c:89-132 | for every size up to 0xFFFFFFF8 malloc as written (32-bit align_size) makes exactly the call the corrected malloc makes |
| UserHeap.MallocFirstFit | src/lib/heap.c:98-119 | when a block fits, malloc returns the data address of the first fitting block, marks it used with room for the request, and asks the kernel for nothing; for sizes up to 0xFFFFFFF8 malloc as written returns the same |
| UserHeap.PlaceSplit | src/lib/heap.c:103-115 | a block with room for the request, a header and 8 bytes becomes a used block of exactly the request followed, in the list and in memory, by a free block of the rest; otherwise it is only marked used |
| UserHeap.PlaceConserves | src/lib/heap.c:103-115 | splitting and marking keep the bytes the list spans, headers included |
| UserHeap.SplitConserves | src/lib/heap.c:106-115 | splitting a block turns its data into data, one header and data of the same total |
| UserHeap.MarkUsedConserves | src/lib/heap.c:103 | marking a block used keeps the bytes the list spans |
| UserHeap.PlaceDisjoint | src/lib/heap.c:103-115 | placing a request in a block of a list of non-overlapping blocks keeps them non-overlapping |
| UserHeap.ExpandFresh | src/lib/heap.c:53-68 | adding a fresh page keeps the blocks apart and the rest of the supply fresh |
| UserHeap.MallocAlignedDisjoint | src/lib/heap.c:89-132 | with pages that overlap no block and no other page, malloc keeps the blocks non-overlapping |
| UserHeap.ExpandConserves | src/lib/heap.c:39-68 | an expansion grows the span of the list by one page exactly when the kernel granted one |
| UserHeap.MallocAlignedConserves | src/lib/heap.c:89-132 | the list's span grows by one page per granted request and by nothing else |
| UserHeap.MallocAlignedResult | src/lib/heap.c:98-132 | a non-NULL pointer is the data address of a used block of the list at least as large as the request |
| UserHeap.MallocResult | src/lib/heap.c:89-132 | a non-NULL result comes from a non-zero request and points at the data of a used block at least as large as the request; for sizes up to 0xFFFFFFF8 malloc as written returns the same |
| UserHeap.IndexOf | src/lib/heap.c:141 | finds the first block whose header sits at the given address, or reports that none does |
| UserHeap.FreeNull | src/lib/heap.c:136-138 | free(NULL) changes nothing, as written and as corrected |
| UserHeap.FreeMarks | src/lib/heap.c:141-142 | after free, as written or corrected, the block whose header is 12 bytes before ptr is free and the blocks before it are unchanged |
| UserHeap.FreeAsWrittenEffect | src/lib/heap.c:135-151 | free as written marks the block free and, exactly when its list successor is free, adds 12 plus the successor's size to it and drops the successor; all other blocks stay, in order |
| UserHeap.FreeAgrees | src/lib/heap.c:145-148 | free as written and the corrected free agree exactly when the freed block has no free list successor away from its end |
| UserHeap.FreeConserves | src/lib/heap.c:135-151 | free, as written and as corrected, keeps the bytes the list spans, whether or not it absorbs the successor |
| UserHeap.MergeConserves | src/lib/heap.c:145-148 | absorbing the successor adds its header and data to the block, so the span of the list is unchanged |
| UserHeap.MergeDisjoint | src/lib/heap.c:145-148 | absorbing a free successor that starts where the block ends keeps the blocks apart |
| UserHeap.MarkDisjoint | src/lib/heap.c:142 | marking a block free keeps the blocks apart |
| UserHeap.FreeDisjoint | src/lib/heap.c:135-151 | free that absorbs only an adjacent successor keeps a non-overlapping list non-overlapping |
| UserHeap.ReleasePlaced | src/lib/heap.c:103-148 | freeing a block just placed, when it was split or its successor is not free, restores the list, under both the code's free-successor test and the adjacency test |
| UserHeap.PlacedIndex | src/lib/heap.c:118-141 | the block malloc placed is found again from its header address |
| UserHeap.MallocFreeRoundTrip | src/lib/heap.c:89-151 | freeing what malloc just took from an existing block restores the list when malloc split the block or the next block was not free, for the corrected pair and, up to 0xFFFFFFF8, for malloc and free as written |
| UserHeap.Stats | src/lib/heap.c:154-172 | heap_stats reports the page counter and the data bytes of the free and used blocks, which add up to all the data bytes of the list |
| UserHeap.FreeAsWrittenOverlaps | src/lib/heap.c:145-148 | with pages handed out at 0x1000, 0x3000, 0x2000, freeing the first block as written absorbs the block at 0x3000 and the result overlaps the block at 0x2000 |
| UserHeap.FreeKeepsOutOfOrderApart | src/lib/heap.c:145-148 | on the same list the adjacent-only free leaves three separate, non-overlapping blocks |
| UserHeap.HugeRequestServed | src/lib/heap.c:95-119 | as written, a request of 0xFFFFFFF9 bytes is served with a 0-byte block split off a free page |
| UserHeap.HugeRequestRefused | src/lib/heap.c:95-132 | rounded correctly, the same request does not fit that page and, with no pages left to be had, gets no pointer |
| Mouse.ToI8 | src/drivers/mouse.c:196 | (int8_t)b lies in [-128, 128) and is congruent to b modulo 256 |
| Mouse.NegI8 | src/drivers/mouse.c:197 | -(int8_t)b stored in an int8_t is congruent to minus the byte's value and equals it for every byte except 0x80 |
| Mouse.Slot | src/drivers/mouse.c:147 | (t + i) % 128 stays a ring index |
| Mouse.Pending | src/drivers/mouse.c:209-216 | the number of packets between tail and head is below 128 and leads from tail to head |
| Mouse.Unread | src/drivers/mouse.c:209-216 | the unread packets mouse_read would return number exactly as many as are pending between tail and head |
| Mouse.Clamp | src/drivers/mouse.c:152-155 | the coordinate lands in [0, hi], unchanged when already inside and at the nearer bound otherwise |
| Mouse.Push | src/drivers/mouse.c:140-156 | push_packet appends the packet to the unread packets unless the ring was one short of full, in which case they are all lost; the cursor moves by twice the motion, clamped to 1024 x 768 |
| Mouse.Read | src/drivers/mouse.c:209-216 | mouse_read returns nothing and changes nothing when head equals tail, otherwise the oldest unread packet, which it removes |
| Mouse.GetButtons | src/drivers/mouse.c:242-246 | mouse_get_buttons is 0 on an empty ring and otherwise the buttons of the oldest packet, which it consumes |
| Mouse.Handler | src/drivers/mouse.c:166-206 | every interrupt counts in irq_total and keeps the driver state well formed |
| Mouse.HandlerIgnores | src/drivers/mouse.c:170-186 | a status without OBF, a keyboard byte or an unsynchronised first byte only counts the interrupt |
| Mouse.HandlerCollects | src/drivers/mouse.c:188-191 | an accepted byte that does not finish a packet is stored at pkt_i, which advances, and no packet is produced |
| Mouse.HandlerCompletes | src/drivers/mouse.c:193-205 | the third byte completes a packet with buttons from the low three bits of the first byte, dx from the second as int8 and dy the negated third; pkt_i returns to 0 and both PICs are acknowledged |
| Mouse.HandleAll | src/drivers/mouse.c:166-206 | a run of interrupts keeps the driver state well formed |
| Mouse.ThreeBytesOnePacket | src/drivers/mouse.c:166-206 | from a synchronised start, three mouse bytes whose first has bit 3 set produce exactly one new unread packet |
| Mouse.DyWraps | src/drivers/mouse.c:197 | a Y byte of 0x80 negates to -128 again, so that motion is reported in the wrong direction |
| Mouse.Init | src/drivers/mouse.c:100-103 | mouse_init restarts packet assembly, empties the ring and zeroes irq_total |
| Mouse.DrainBuffer | src/drivers/mouse.c:221-224 | mouse_drain_buffer restarts packet assembly and keeps the unread packets and the cursor |
| Mouse.ResetPosition | src/drivers/mouse.c:253-256 | mouse_reset_position sets the cursor and touches nothing else |
| Irq.LineBit | src/managers/irq/irq_manager.c:147 | the 8-bit cast of 1 << k is the line's bit for k below 8 and zero above |
| Irq.Remap | src/managers/irq/irq_manager.c:35-63 | pic_remap leaves every line masked, wires the slave to master line 2 and maps lines 0 to 15 onto vectors 0x20 to 0x2F |
| Irq.ClearBit | src/managers/irq/irq_manager.c:145-151 | clearing a line's bit unmasks that line and leaves the others as they were |
| Irq.EnableMaster | src/managers/irq/irq_manager.c:100-103 | irq_enable below 8 unmasks exactly that master line and leaves the slave untouched |
| Irq.EnableSlave | src/managers/irq/irq_manager.c:104-151 | irq_enable from 8 to 15 unmasks line n - 8 on the slave and the cascade line on the master, and nothing else |
| Irq.SetBit | src/managers/irq/irq_manager.c:190 | setting a line's bit masks that line and leaves the others as they were |
| Irq.DisableMaster | src/managers/irq/irq_manager.c:177-191 | irq_disable below 8 masks exactly that master line and leaves the slave untouched |
| Irq.DisableSlave | src/managers/irq/irq_manager.c:177-191 | irq_disable from 8 to 15 masks line n - 8 on the slave only, unlike irq_enable, which also touches the cascade |
| Irq.DisableUndoesEnable | src/managers/irq/irq_manager.c:92-191 | disabling a masked master line after enabling it restores the original masks |
| Irq.GetMask | src/managers/irq/irq_manager.c:212-216 | irq_get_pic_mask has the master mask in bits 0-7, the slave mask in bits 8-15 and nothing above |
| Irq.BootMasks | src/managers/irq/irq_manager.c:197-206 | after remapping, enabling the timer and enabling the mouse, the combined mask is 0xEFFA: only lines 0, 2 and 12 are open |
| Idt.MakeGate | src/managers/interrupt/idt.c:20-26 | the descriptor idt_set_entry writes encodes the handler address exactly across its two halves, with a zero reserved byte and the selector and type as given |
| Idt.GateKinds | src/managers/interrupt/idt.c:74-109 | 0x8F is a present ring-0 trap gate, 0x8E a present ring-0 interrupt gate, and 0xEE a present ring-3 interrupt gate rather than the trap gate its comment says |
| Idt.Init | src/managers/interrupt/idt.c:29-42 | idt_init zeroes all 256 gates and sets the limit to 256 * 8 - 1 |
| Idt.SetEntry | src/managers/interrupt/idt.c:20-26 | idt_set_entry replaces one gate and leaves the other gates and the limit alone |
| Idt.InstallExceptions | src/managers/interrupt/idt.c:76-95 | vectors k to 19 get their stubs as ring-0 trap gates on the kernel code selector, and nothing else changes |
| Idt.InstallHandlers | src/managers/interrupt/idt.c:74-114 | the twenty exception gates, the system-call gate at 128 and the timer gate at 32 hold their handlers, types and the kernel code selector; every other gate is unchanged |
| Idt.UninstalledNotPresent | src/managers/interrupt/idt.c:29-114 | after idt_init and installation, every other vector has a gate that is not present |
| Gdt.SetEntry | src/managers/gdt/gdt.c:52-61 | gdt_set_entry's descriptor encodes the base exactly, the limit's low 20 bits, the flag nibble of the granularity byte and the access byte |
| Gdt.SetTssEntry | src/managers/gdt/gdt.c:63-66 | a TSS descriptor has access 0x89 and flags 0x40 with the given base and limit |
| Gdt.Init | src/managers/gdt/gdt.c:68-95 | gdt_init builds six descriptors, a pointer limit of 6 * 8 - 1 and a 25-dword TSS |
| Gdt.InitTable | src/managers/gdt/gdt.c:68-89 | a null descriptor, flat 4 GiB kernel and user code and data segments with access 0x9A, 0x92, 0xFA, 0xF3, and a TSS descriptor at the TSS address with limit 103 |
| Gdt.InitTss | src/managers/gdt/gdt.c:90-94 | the TSS is zero except ss0 = 0x10, esp0 = 0x90000 and an I/O map base of 104 |
| Pit.Divisor | src/managers/timer/pit.c:32 | the divisor is the largest d with d * frequency at most 1193182, and a zero frequency has none |
| Pit.Init | src/managers/timer/pit.c:30-40 | pit_init sends 0x36 to port 0x43, then two bytes to port 0x40; nothing is sent for a zero frequency |
| Pit.InitBytesReconstruct | src/managers/timer/pit.c:38-39 | the low byte plus 256 times the high byte is the divisor modulo 2^16 |
| Pit.KernelRate | src/managers/timer/pit.c:30-40 | at 1000 Hz the divisor 1193 goes out as 0xA9 then 0x04 |
| Pit.Tick | src/managers/timer/pit.c:21 | pit_ticks++ adds one to the unsigned tick counter, wrapping to 0 after 2^32 - 1 |
| Pit.Handler | src/managers/timer/pit.c:20-25 | pit_handler counts the tick and then runs scheduler_tick: nothing else changes while scheduling is off or the queue is empty, otherwise the oldest queued process is started and leaves the queue |
| Pit.TickNCounts | src/managers/timer/pit.c:20-25 | n timer interrupts add n to the counter modulo 2^32 |
| Pci.ConfigAddress | src/drivers/pci.c:15-17 | pci_config_address always sets the enable bit and clears the two low bits |
| Pci.Decode | src/drivers/pci.c:15-17 | the device field of an address is below 32, the function below 8, and the register dword-aligned |
| Pci.AddressRoundTrip | src/drivers/pci.c:15-17 | for a slot below 32 and a function below 8, bus, slot, function and aligned register can be read back from the address |
| Pci.SlotBleeds | src/drivers/pci.c:16 | slot 32 is not masked and lands in the bus field: bus 0 slot 32 is the address of bus 1 slot 0 |
| Pci.ReadByte | src/drivers/pci.c:20-24 | pci_config_read_byte at lane 0 is the low byte of the dword and at lane 3 the high byte |
| Pci.ReadWord | src/drivers/pci.c:27-31 | pci_config_read_word returns the low half of the dword for offsets with bit 1 clear and the high half otherwise |
| Pci.WriteDword | src/drivers/pci.c:61-65 | pci_config_write_dword sends the configuration address, then the value as given |
| Pci.WriteByteReads | src/drivers/pci.c:41-48 | reading back the byte lane pci_config_write_byte wrote returns the written value |
| Pci.WriteByteKeeps | src/drivers/pci.c:41-48 | pci_config_write_byte leaves the other three byte lanes of the dword unchanged |
| Pci.WriteWordReads | src/drivers/pci.c:51-58 | reading back the half pci_config_write_word wrote returns the written value |
| Pci.WriteWordKeeps | src/drivers/pci.c:51-58 | pci_config_write_word leaves the other half of the dword unchanged |
| Vga.Cell | src/drivers/vga.c:11 | a cell holds attribute 0x07 in its high byte and the character's low byte below it |
| Vga.Clear | src/drivers/vga.c:9-15 | vga_clear blanks all 2000 cells with attribute 0x07 and homes the cursor |
| Vga.Target | src/drivers/vga.c:27-31 | a character lands on the screen: a cursor past column 79 first moves to the start of the next row, staying on row 24 at the bottom |
| Vga.PutChar | src/drivers/vga.c:40-57 | a newline only moves the cursor to column 0 of the next row (or keeps it on the last row); any other character writes one cell at the target, moves one column right and leaves every other cell alone |
| Vga.PutAllAppend | src/drivers/vga.c:40-57 | printing a + b is printing a and then b |
| Vga.Print | src/drivers/vga.c:17-38 | vga_print's own loop does on the text up to its NUL exactly what vga_putchar does on each character in turn |
| Vga.PutAllRow | src/drivers/vga.c:33-35 | text without newlines that fits on the row lands cell by cell to the right of the cursor |
| Vga.PutInt | src/drivers/vga.c:59-83 | vga_putint shows the signed decimal text of the number: '0' for zero, else '-' for negatives, then the digits most significant first |
| Vga.PutBackwards | src/drivers/vga.c:80-82 | the output loop prints the digit buffer in reverse |
| Vga.HexText | src/drivers/vga.c:85-92 | vga_put_hex builds exactly the eight lower-case hexadecimal digits of the value, zero-padded |
| Vga.PutHex | src/drivers/vga.c:85-94 | vga_put_hex prints those eight digits |
| Decimal.CollectDigits | src/drivers/vga.c:71-74 | the digit loop stores the decimal digits of a positive number least significant first, so read backwards they are its digits |
| Decimal.SignedTextRoundTrip | src/drivers/vga.c:63-82 | the text the integer printers produce parses back to the number: an optional '-' followed by digits with no leading zero |
| Decimal.SignedTextLength | src/drivers/vga.c:60-74 | the text of any int other than INT_MIN takes at most eleven characters, so the digit buffer never overflows |
| Hex.HexDigitsIndex | src/drivers/vga.c:88-92 | digit j of the k-digit text is nibble k - 1 - j of the value, most significant first |
| Hex.Hex8RoundTrip | src/drivers/vga.c:85-94 | eight hexadecimal digits describe a 32-bit value exactly: parsing them gives the value back |
| Exceptions.HexWord | src/managers/interrupt/exception_handler.c:7-17 | print_hex's text is "0x" and eight digits that parse back to the value |
| Exceptions.PrintHexBuffer | src/managers/interrupt/exception_handler.c:9-15 | the buffer loop fills position 9 - i with nibble i, giving "0x", the eight upper-case digits most significant first, and NUL |
| Exceptions.ExceptionName | src/managers/interrupt/exception_handler.c:19-27 | vectors 0, 6, 13 and 14 have their own names and every other vector is "Unknown Exception" |
| Exceptions.UserReport | src/managers/interrupt/exception_handler.c:30-40 | a ring-3 exception prints no fault address and restarts the system manager at its entry point |
| Exceptions.KernelReport | src/managers/interrupt/exception_handler.c:43-75 | a kernel exception halts; it prints 15 pieces, or 18 with the fault-address label and CR2 exactly when the vector is 14 |
| Exceptions.Handle | src/managers/interrupt/exception_handler.c:78-107 | a saved CS with a non-zero privilege level restarts the system manager and any other halts; the fault address appears exactly for a page fault in ring 0 |
| Scheduler.Contents | src/managers/scheduler/scheduler.c:31-34 | the queue, oldest first, has queue_count entries read from queue_head around the 16-slot ring |
| Scheduler.Boot | src/managers/scheduler/scheduler.c:17-34 | at boot the queue is empty, no process is current and scheduling is off |
| Scheduler.Init | src/managers/scheduler/scheduler.c:39-43 | scheduler_init clears the current PID and the flag and keeps the queue |
| Scheduler.Enable | src/managers/scheduler/scheduler.c:87-90 | scheduler_enable turns scheduling on and changes nothing else |
| Scheduler.Disable | src/managers/scheduler/scheduler.c:95-98 | scheduler_disable turns scheduling off and changes nothing else |
| Scheduler.AddProcess | src/managers/scheduler/scheduler.c:104-116 | scheduler_add_process drops the process when 16 are queued and otherwise appends it at the back |
| Scheduler.AppendAtTail | src/managers/scheduler/scheduler.c:109-115 | writing at queue_tail and advancing it modulo 16 appends exactly one entry and keeps the others |
| Scheduler.SchedulerTick | src/managers/scheduler/scheduler.c:56-82 | a tick does nothing while scheduling is off or the queue is empty; otherwise it removes the oldest entry, makes its PID current and starts it |
| Scheduler.TakeOldest | src/managers/scheduler/scheduler.c:63-71 | advancing queue_head modulo 16 removes the oldest entry and keeps the rest in order |
| Scheduler.StartsInOrder | src/managers/scheduler/scheduler.c:56-116 | up to 16 processes added to an empty, enabled queue are started by successive ticks in the order they were added |
| Scheduler.AddAllContents | src/managers/scheduler/scheduler.c:104-116 | additions that fit append the processes in order |
| Scheduler.DrainContents | src/managers/scheduler/scheduler.c:56-82 | k ticks start the first k queued processes in order |
| ProcessTable.Init | src/managers/process/process_manager.c:23-31 | process_manager_init empties all 64 slots and restarts PIDs at 1 |
| ProcessTable.CreateSysman | src/managers/process/process_manager.c:36-65 | process_create_sysman returns -1 and changes nothing when kmalloc fails; otherwise it returns next_pid, stores a ready block with that PID and the entry point in slot PID - 1, and advances next_pid |
| ProcessTable.GetByPid | src/managers/process/process_manager.c:70-75 | process_get_by_pid is null outside 1 to 64 and otherwise the slot PID - 1, whose block carries that PID |
| ProcessTable.CreateThenGet | src/managers/process/process_manager.c:36-75 | a created process is found under the PID it was given, ready and with its entry point |
| ProcessTable.GetCount | src/managers/process/process_manager.c:80-88 | process_manager_get_count counts the non-null slots and is between 0 and 64 |
| ProcessTable.UsedUpdate | src/managers/process/process_manager.c:80-88 | overwriting one slot changes the count by one exactly when it turns an empty slot into a used one or the reverse |
| ProcessTable.CreateCounts | src/managers/process/process_manager.c:36-88 | each successful creation adds one to the process count |
| ProcessTable.Start | src/managers/process/process_manager.c:93-110 | process_start with a null block changes nothing; otherwise it marks that process running and leaves every other process as it was |
| Sysman.DrawChar | src/sysman/sysman.c:116-125 | draw_char colours exactly the pixels at (x + col, y + row) with row below 7, col below 5 and bit 4 - col of font[row] set, all inside the 5x7 box, and leaves the rest of the screen alone |
| Sysman.GradientColor | src/sysman/sysman.c:135 | the band colour at (x, y) is the quarter of x + y rounded down, at most 92 |
| Sysman.Gradient | src/sysman/sysman.c:133-138 | the gradient loops colour every pixel of rows 0 to 49 with its band colour and no other pixel |
| Sysman.BoxAt | src/sysman/sysman.c:167-171 | the box a pixel belongs to, if any, is the 25x30 rectangle at (20 + 28k, 150) |
| Sysman.BoxesApart | src/sysman/sysman.c:167-177 | a pixel lies in box k's rectangle exactly when it belongs to box k, so the ten boxes do not overlap |
| Sysman.Boxes | src/sysman/sysman.c:167-177 | after the box loop, each pixel of box k has colour 2k + 4 and pixels outside the boxes are unchanged |
| Sysman.Border | src/sysman/sysman.c:180-187 | the border loops colour rows 0 and 199 and columns 0 and 319 with 15 and nothing else |
| Graphics.PixelIndex | src/drivers/graphics.c:82 | offset y * 320 + x names the on-screen pixel (x, y) and no other |
| Graphics.PutPixel | src/drivers/graphics.c:80-84 | put_pixel changes exactly the pixel at (x, y) when it is on the 320x200 screen |
| Graphics.PutPixelClips | src/drivers/graphics.c:81 | put_pixel off the screen changes nothing |
| Graphics.RowSpan | src/drivers/graphics.c:100-102 | a run of put_pixel calls along a row colours the on-screen part of the span and nothing else |
| Graphics.ColumnSpan | src/drivers/graphics.c:106-108 | the same run down a column |
| Graphics.RectFilled | src/drivers/graphics.c:87-93 | draw_rect_filled colours exactly the on-screen pixels of the rectangle, so it is clipped |
| Graphics.Line | src/drivers/graphics.c:96-110 | draw_line colours the inclusive span between the ends of a horizontal or vertical line and draws nothing for any other line |
| Graphics.ClearScreen | src/drivers/graphics.c:113-117 | clear_screen sets all 64000 pixels to the colour |
| Cursor.PatternShape | src/libgui/cursor_compositor.c:57-76 | the cursor pattern has 18 rows of 12 cells |
| Cursor.DrawShape | src/libgui/cursor_compositor.c:55-95 | cursor_draw_shape paints exactly the non-transparent pattern cells, outline black and fill white, and leaves transparent cells and everything outside the 12x18 area untouched |
| Cursor.SaveArea | src/libgui/cursor_compositor.c:26-34 | cursor_backup_area stores the 12x18 pixels at (x, y) row by row |
| Cursor.SaveRow | src/libgui/cursor_compositor.c:30-32 | one row of the backup holds the twelve pixels to the right of (x, y) |
| Cursor.RestoreArea | src/libgui/cursor_compositor.c:39-48 | cursor_restore_area writes every saved pixel back to its place and nothing else |
| Cursor.Init | src/libgui/cursor_compositor.c:127-130 | orbit_cursor_init marks the cursor as not drawn, at (-1, -1) |
| Cursor.Draw | src/libgui/cursor_compositor.c:101-121 | orbit_draw_cursor at the current position changes nothing; otherwise the cursor is remembered at the new position with a full backup |
| Cursor.FirstDraw | src/libgui/cursor_compositor.c:107-116 | the first draw after init restores nothing: it saves what is under the cursor and paints the shape over it |
| Cursor.DrawComposes | src/libgui/cursor_compositor.c:98-121 | moving the cursor over a background restores the old area first, so the screen is the background with the cursor at the new position only |
| Cursor.SameSave | src/libgui/cursor_compositor.c:26-34 | screens that agree pixel for pixel give the same backup |
| Gui.CreateButton | src/libgui/controls.c:11-31 | gui_create_button refuses and leaves the pool alone when 32 buttons exist; otherwise it fills the next slot with the geometry given, gray background, black text, not pressed, and the text cut to 31 characters |
| CStrings.CopyBounded | src/libgui/controls.c:24-28 | the copy loop stores the first min(len, limit) characters of the C string and a terminating NUL |
| Gui.CreateWindow | src/libgui/window.c:12-32 | gui_create_window refuses and leaves the pool alone when 8 windows exist; otherwise it fills the next slot with the geometry and background given, a navy title colour, visible, and the title cut to 63 characters |
| Gui.FreeWindow | src/libgui/window.c:62-65 | gui_free_window hides that window only, and a null pointer changes nothing |
| Gui.FreeHides | src/libgui/window.c:48-65 | a freed window is no longer drawn by gui_draw_window, and freeing one window does not change whether another is drawn |
| Orbit.IntToStr | src/orbit/orbit.c:12-36 | int_to_str writes the signed decimal text and a NUL, at most twelve characters, only '-' and digits before the NUL, and parsing it gives the number back |
| Orbit.CopyBackwards | src/orbit/orbit.c:32-35 | the copy loop appends the digit buffer reversed after the sign |
| Task1.Next | src/tasks/task1.c:29-33 | the letter index grows by one and wraps from 9 to 0, and only that wrap advances the colour index modulo 3 |
| Task1.Pass | src/tasks/task1.c:15-33 | one pass writes only row 5, columns 10 to 19: the first letter_index + 1 cells hold a prefix of "ABCDEFGHIJ" and the rest spaces, all in the current colour |
| Task1.AfterCounts | src/tasks/task1.c:8-37 | after n passes from the start the letter index is n mod 10 and the colour index (n div 10) mod 3 |
| Task2.Rand | src/tasks/task2.c:9-12 | rand_simple2 updates the seed to seed * 1103515245 + 12345 modulo 2^32 and returns a number below 32768 |
| Task2.RandBits | src/tasks/task2.c:11 | the returned number is bits 16 to 30 of the new seed |
| Task2.ShotsShape | src/tasks/task2.c:15-26 | there are ten shot strings of eight characters each, none of them NUL |
| Task2.Pass | src/tasks/task2.c:28-43 | one pass picks shot rand mod 10 and writes its eight characters in yellow at row 14, columns 30 to 37, and nothing else |
| Task3.BarLength | src/tasks/task3.c:13 | the bar length is below 20 |
| Task3.Pass | src/tasks/task3.c:11-28 | one pass writes exactly the twenty cells of row 23 from column 55 in light cyan, '#' before the bar length and '-' after it, and adds one to the counter |
| Task3.BarGrows | src/tasks/task3.c:13-27 | the bar grows by one cell per pass and starts over after 19 |
| IconBitmap.EncodePixels | tools/create_icons.py:45-48 | the pixel array is four bytes per pixel, pixel i at bytes 4i to 4i + 3 as (b, g, r, alpha), in list order |
| IconBitmap.FileHeader | tools/create_icons.py:16-22 | the file header is 14 bytes |
| IconBitmap.InfoHeader | tools/create_icons.py:25-37 | the info header is 40 bytes |
| IconBitmap.CreateBmp | tools/create_icons.py:9-48 | create_bmp writes a file exactly when struct.pack accepts the header fields; the file is 54 + 4 * len(pixels) bytes with the pixel array from byte 54 |
| Bytes.U16RoundTrip | tools/create_icons.py:16 | the little-endian 'H' layout reads back as the value packed |
| Bytes.U32RoundTrip | tools/create_icons.py:16 | the little-endian 'I' layout reads back as the value packed |
| Bytes.I32RoundTrip | tools/create_icons.py:25 | the little-endian 'i' two's-complement layout reads back as the value packed |
| IconBitmap.FileHeaderRoundTrip | tools/create_icons.py:16-22 | the file header decodes to the file size, two zero reserved words and pixel offset 54 |
| IconBitmap.InfoHeaderRoundTrip | tools/create_icons.py:25-37 | the info header decodes to 40, width, height, 1, 32, 0, w * h * 4, 2835, 2835, 0, 0 in that order |
| IconBitmap.HeaderRoundTrip | tools/create_icons.py:15-42 | the first 54 bytes of the file decode to "BM", file size 54 + w * h * 4 and every info header field as written |
| IconBitmap.PixelRoundTrip | tools/create_icons.py:44-48 | pixel i of the list decodes from byte 54 + 4i with no row reordering, and its alpha is 0 exactly when it is black |
| IconBitmap.SizeFieldAgreement | tools/create_icons.py:15 | the announced file size equals the bytes written exactly when the list holds width * height pixels, which create_bmp does not check |
| IconBitmap.Row | tools/create_icons.py:59-67 | one generated row holds 32 pixels |
| IconBitmap.Rows | tools/create_icons.py:58-67 | the y-outer, x-inner loops put pixel (x, y) at list index 32y + x |
| IconBitmap.SquareIcon | tools/create_icons.py:54-67 | each generator produces 32 x 32 = 1024 pixels |
| IconBitmap.SquareIconFile | tools/create_icons.py:54-126 | each icon file is 54 + 4096 bytes |
| IconBitmap.SquareIconAt | tools/create_icons.py:58-67 | list entry 32y + x is white on the square's edge, the fill colour inside it and black outside [8, 24) squared |
| IconBitmap.IconsDifferOnlyInFill | tools/create_icons.py:54-126 | two generators differ only at pixels strictly inside the square |
| IconBitmap.SquareIsVerticallySymmetric | tools/create_icons.py:58-67 | the square is symmetric top to bottom, so rows written top-down under a bottom-up height show the same picture |
| IconBitmap.ProcessIconProbes | tools/create_icons.py:54-69 | in the process icon, pixel (0, 0) is transparent, (16, 16) opaque blue and (8, 8) opaque white |
| IconBitmap.IconPixelBytes | tools/create_icons.py:44-67 | the four bytes of pixel (x, y) in an icon file are the encoding of its square colour |
| IconBitmap.RowCount | tools/create_icons.py:59-67 | a row outside the square is 32 black pixels, an edge row has 16 white, and an inner row has 2 white and 14 fill |
| IconBitmap.RowsCount | tools/create_icons.py:58-67 | the first n rows hold the running counts of white and fill pixels |
| IconBitmap.SquareIconCounts | tools/create_icons.py:54-126 | every square icon has 60 opaque white border pixels and 196 opaque fill pixels |
| EmbeddedArray.Token | tools/bmp_to_c.py:17 | each byte becomes a four-character token |
| EmbeddedArray.TokenDigits | tools/bmp_to_c.py:17 | a token is "0x" and the byte's two upper-case hexadecimal digits, which parse back to the byte |
| EmbeddedArray.ParseBodyStep | tools/bmp_to_c.py:16-23 | a token followed by one of the two separators, or by nothing at the end, adds its byte in front of what the rest parses to |
| EmbeddedArray.BodyRoundTrip | tools/bmp_to_c.py:16-23 | the tokens and separators of the body parse back to exactly the input bytes, in order |
| EmbeddedArray.SizedBodyRoundTrip | tools/bmp_to_c.py:14-25 | the declared length, the brace lines and the body read back as the length and the bytes |
| EmbeddedArray.DeclarationRoundTrip | tools/bmp_to_c.py:8-26 | bmp_to_c_array's output starts with the "// NAME - Embedded BMP data" line and the array declaration, ends with the closing brace lines, and reads back as declared length len(data) and the data itself |
| EmbeddedArray.SeparatorBreaks | tools/bmp_to_c.py:18-23 | the separator after token i breaks the line exactly when i + 1 is a multiple of 12 |
| EmbeddedArray.TokenHasNoBreak | tools/bmp_to_c.py:17 | a token holds no line break |
| EmbeddedArray.BodyFromBreaks | tools/bmp_to_c.py:16-23 | the body from token i on holds (N - 1) / 12 - i / 12 line breaks |
| EmbeddedArray.BodyBreaks | tools/bmp_to_c.py:16-23 | the body of N bytes holds (N - 1) / 12 line breaks when N is positive and none when it is empty |
| EmbeddedArray.Present | tools/bmp_to_c.py:61-67 | the converted entries are a subsequence of the mapping whose files all exist |
| EmbeddedArray.PresentExactly | tools/bmp_to_c.py:61-67 | an entry is converted exactly when it is in the mapping and its file exists |
| EmbeddedArray.Blocks | tools/bmp_to_c.py:61-65 | main appends one declaration per existing file, in mapping order, made from that file's bytes and array name |
| EmbeddedArray.MissingFileSkipped | tools/bmp_to_c.py:63-67 | a missing file only removes its own declaration: the others are still converted, in order |
| EmbeddedArray.AllPresent | tools/bmp_to_c.py:61-65 | with every file present, every entry is converted in mapping order |
| EmbeddedArray.OneOfFourMissing | tools/bmp_to_c.py:54-69 | with one of the four icon files missing, the document holds exactly the other three declarations, in order |


## Left out

- Port I/O, inline assembly and serial output are not modelled. This covers `graphics_mode_13h`'s register programming, `mouse_init`'s 8042 command sequence and its wait and flush helpers, the readback-and-retry loops and serial trace in `irq_manager.c`, and the CR0/CR3 writes of `paging_enable`. Only the values these routines write are modelled.
- `pit_wait` and the tasks' yield loops busy-wait on a counter that an interrupt updates. Concurrency is out of scope, so each task is modelled as one sequential pass.
- `scheduler_tick`'s jump into ring 3 never returns. The model stops at the state change made just before that jump.
- `print_hex`/`pmm_print_stats` in `pmm.c`, `pmm_get_total_pages`, `pit_get_ticks` and the mouse getters (`mouse_get_x`/`y`, the interrupt total) only print or return a stored field. The state they read is modelled, but these functions have no member of their own.
- `mouse_set_bounds` has an empty body.
- `vmm_alloc_page` and `vmm_free_page` (`paging.c:167-189`) forward to the page allocator, so `PhysicalMemory.Alloc` and `PhysicalMemory.FreePage` stand for them. The "page table allocated in reserved region" check in `paging_map_page` only prints.
- Paging: each directory slot keeps its own table. Two directory entries that share one physical table frame (aliasing) are not modelled.
- The drawing halves of `controls.c` and `window.c`, and the libgui `draw.c`, `cursor.c`, `bmp.c` and `icons.c`, forward straight to system calls. They are not modelled, except for the visibility guard in `gui_draw_window`.
- Sysman: `syscall_put_pixel` is taken to behave as `Graphics.PutPixel`. The kernel side of the system call, and the particular `draw_char` calls with the font tables in `sysman_main_c`, are not modelled. Only `draw_char` itself and the gradient, box and border loops are.
- The kernel's boot sequence, the ring-3 switch, the system-call stubs and dispatcher, and the USB/UHCI driver are not part of this model.
- Icons: the encoder writes pixels in list order, with no bottom-up row reversal, and there are four square icons and no folder-shaped one. The model follows the code. `IconBitmap.SquareIsVerticallySymmetric` shows that the square icons look the same either way.
- The tools' file writing, `os.makedirs` and print statements are not modelled. Bytes go in and bytes or text come out.
- Exceptions: the saved CS, EIP and CR2 are parameters, and the final halt loop is the `Halt` outcome.
- KernelHeap: `pmm_alloc_page` calls are reported as a count, because the pages they return do not belong to the heap's own state. `last_page_allocated` is part of the state.
- Mouse: the interrupt counter is unbounded; its 32-bit wrap is not modelled.
- Mouse.Push: `push_packet` does not check for a full ring. With 127 packets pending, moving the head onto the tail makes every unread packet appear consumed, and the contract states exactly that loss.
- Vga.PutInt: requires the number not to be INT_MIN, because negating INT_MIN is undefined in C.
- Orbit.IntToStr: requires the number not to be INT_MIN, for the same reason.
- Cursor.DrawComposes: requires x ≥ 0. `cur_x >= 0` is the "already drawn" flag, so a cursor drawn at a negative x is recorded as not drawn and is never erased by the next draw. `Cursor.Draw` itself handles every x.
- Cursor.FirstDraw: requires x ≥ 0 for the same reason.
- Cursor: the area is read and written one pixel at a time through `syscall_read_pixel` and 1x1 `syscall_fill_rect`, taken to act as a plain pixel map.
- ProcessTable.CreateSysman: requires next_pid ≤ 64. The code does not bound it, and slot next_pid - 1 would lie outside the table.
- Task3.Pass: requires the counter to be below INT_MAX, because incrementing past it is undefined behaviour in C.
- Task2.Rand: the seed update is stated as the code's formula modulo 2^32, since the linear congruential step has no simpler meaning. `Task2.RandBits` relates the returned value to the seed's bits.
- UserHeap.MallocAligned: `syscall_alloc_page` results are a supplied list. A run that asks for more pages than the list holds ends as `Exhausted`, so the recursion after a failed expansion is bounded by that list rather than by memory.
- Pit: below 19 Hz the divisor does not fit in 16 bits, and only its low 16 bits reach the hardware, as the code writes them.
- The empty `heap_init` is the constant `UserHeap.Empty`.

## Findings

| source | as written | input that shows it | evidently intended | confidence | as-written member | corrected member |
|---|---|---|---|---|---|---|
| src/lib/kheap.c:50 | the bound check adds the request to `heap_current` in 32 bits | a request of 0xFFFFFFF0 with `heap_current` at 2 MiB: the sum wraps below `heap_end`, so the call is granted and `heap_current` ends below `heap_start` | refuse any request that does not fit between `heap_current` and `heap_end` | not executed | KernelHeap.KmallocWraps | KernelHeap.KmallocEffect |
| src/lib/heap.c:34-36 | `align_size` rounds up in 32 bits | `align_size(0xFFFFFFF9)` is 0, so `malloc` grants a huge request with a zero-size block | refuse a request whose rounded size does not fit in 32 bits | not executed | UserHeap.HugeRequestServed | UserHeap.HugeRequestRefused |
| src/lib/heap.c:145-148 | `free` merges the list successor whenever it is free | expansion pages at 0x1000, 0x3000 and 0x2000 in list order: freeing the first absorbs the block at 0x3000 and so claims the memory at 0x2000 too | merge only a successor that starts where the freed block ends | not executed | UserHeap.FreeAsWrittenOverlaps | UserHeap.FreeDisjoint |

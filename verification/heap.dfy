/** src/lib/heap.c: the user-space heap. A singly linked list of blocks,
    each a 12-byte header (size, is_free, next on i386) followed by its
    data; first-fit allocation with splitting, pages obtained one at a
    time from the kernel, and freeing with forward coalescing. The list is
    modelled as a sequence in list order. */
module UserHeap {
  import opened Uint32

  const HeaderSize: nat := 12
  const PageSize: nat := 4096
  const AlignTo: nat := 8

  datatype Block = Block(addr: nat, size: nat, isFree: bool)

  /** One past the last byte a block (header and data) occupies. */
  function End(b: Block): nat
  {
    b.addr + HeaderSize + b.size
  }

  datatype Heap = Heap(blocks: seq<Block>, pagesAllocated: nat, syscallsMade: nat)

  /** heap_init */
  const Empty: Heap := Heap([], 0, 0)

  // ---------------------------------------------------------------------
  // align_size

  /** align_size as the code computes it: size + 7 in 32-bit size_t, then
      the low three bits cleared. */
  function AlignSizeAsWritten(size: nat): (r: nat)
    requires size < TwoTo32
    ensures r % AlignTo == 0
  {
    var t := (size + AlignTo - 1) % TwoTo32;
    t - t % AlignTo
  }

  /** The least multiple of 8 that is at least size. */
  function AlignSize(size: nat): (r: nat)
    ensures r % AlignTo == 0 && size <= r < size + AlignTo
  {
    (size + AlignTo - 1) / AlignTo * AlignTo
  }

  /** The two agree on every size whose rounding does not pass 2^32. */
  lemma AlignSizeAgrees(size: nat)
    requires size <= TwoTo32 - AlignTo
    ensures AlignSizeAsWritten(size) == AlignSize(size)
  {
  }

  /** The sizes from 0xFFFFFFF9 up round to 0: such a request is served
      as if it were for nothing. */
  lemma AlignSizeWraps()
    ensures AlignSizeAsWritten(0xFFFF_FFF9) == 0
    ensures AlignSize(0xFFFF_FFF9) == 0x1_0000_0000
  {
  }

  // ---------------------------------------------------------------------
  // Block list sums

  function TotalSize(bs: seq<Block>): nat
  {
    if |bs| == 0 then 0 else TotalSize(bs[..|bs| - 1]) + bs[|bs| - 1].size
  }

  function FreeSize(bs: seq<Block>): nat
  {
    if |bs| == 0 then 0
    else FreeSize(bs[..|bs| - 1]) + (if bs[|bs| - 1].isFree then bs[|bs| - 1].size else 0)
  }

  /** Bytes the list spans, headers included. */
  function Footprint(bs: seq<Block>): nat
  {
    TotalSize(bs) + HeaderSize * |bs|
  }

  lemma {:induction false} TotalSizeAppend(a: seq<Block>, b: seq<Block>)
    ensures TotalSize(a + b) == TotalSize(a) + TotalSize(b)
    decreases |b|
  {
    if |b| == 0 {
      assert a + b == a;
    } else {
      assert (a + b)[..|a + b| - 1] == a + b[..|b| - 1];
      TotalSizeAppend(a, b[..|b| - 1]);
    }
  }

  lemma TotalSizeSplice(bs: seq<Block>, i: nat, j: nat, mid: seq<Block>)
    requires i <= j <= |bs|
    ensures TotalSize(bs[..i] + mid + bs[j..]) + TotalSize(bs[i..j]) == TotalSize(bs) + TotalSize(mid)
  {
    TotalSizeAppend(bs[..i] + mid, bs[j..]);
    TotalSizeAppend(bs[..i], mid);
    TotalSizeAppend(bs[..i], bs[i..j]);
    TotalSizeAppend(bs[..i] + bs[i..j], bs[j..]);
    assert bs[..i] + bs[i..j] + bs[j..] == bs;
  }

  // ---------------------------------------------------------------------
  // Disjoint blocks

  predicate Apart(a: Block, b: Block)
  {
    End(a) <= b.addr || End(b) <= a.addr
  }

  /** No two blocks of the list share a byte. */
  predicate Disjoint(bs: seq<Block>)
  {
    forall i, j :: 0 <= i < j < |bs| ==> Apart(bs[i], bs[j])
  }

  // ---------------------------------------------------------------------
  // malloc

  predicate Fits(b: Block, size: nat)
  {
    b.isFree && b.size >= size
  }

  /** The first block, in list order, that is free and large enough. */
  function FirstFit(bs: seq<Block>, size: nat): (i: int)
    ensures -1 <= i < |bs|
    ensures i >= 0 ==> Fits(bs[i], size) && forall k :: 0 <= k < i ==> !Fits(bs[k], size)
    ensures i == -1 ==> forall k :: 0 <= k < |bs| ==> !Fits(bs[k], size)
  {
    if |bs| == 0 then -1
    else if Fits(bs[0], size) then 0
    else
      var j := FirstFit(bs[1..], size);
      assert forall k :: 1 <= k < |bs| ==> bs[k] == bs[1..][k - 1];
      if j == -1 then -1 else j + 1
  }

  /** Whether taking size bytes of b leaves room for another header and
      eight bytes. */
  predicate Splits(b: Block, size: nat)
  {
    b.size >= size + HeaderSize + AlignTo
  }

  /** Marks block i used, splitting off the remainder as a free block
      placed right after it when the remainder is big enough. */
  function Place(bs: seq<Block>, i: nat, size: nat): (r: seq<Block>)
    requires i < |bs| && Fits(bs[i], size)
  {
    var b := bs[i];
    if Splits(b, size) then
      bs[..i] + [Block(b.addr, size, false), Block(b.addr + HeaderSize + size, b.size - size - HeaderSize, true)] + bs[i + 1..]
    else bs[i := b.(isFree := false)]
  }

  /** expand_heap, given what syscall_alloc_page returned (0 on failure):
      both counters advance; a page adds one free block at the tail. */
  function Expand(h: Heap, page: nat): (r: Heap)
    ensures r.pagesAllocated == h.pagesAllocated + 1 && r.syscallsMade == h.syscallsMade + 1
    ensures page == 0 ==> r.blocks == h.blocks
    ensures page != 0 ==> r.blocks == h.blocks + [Block(page, PageSize - HeaderSize, true)]
  {
    var counted := h.(pagesAllocated := h.pagesAllocated + 1, syscallsMade := h.syscallsMade + 1);
    if page == 0 then counted
    else counted.(blocks := h.blocks + [Block(page, PageSize - HeaderSize, true)])
  }

  /** What a call returns: the heap after it, the pointer (0 for NULL) and
      how many page requests it made, answered by the front of the supply.
      Exhausted stands for a run that needs more page requests than were
      supplied. */
  datatype Outcome = Outcome(heap: Heap, ptr: nat, requests: nat) | Exhausted

  /** malloc on an already aligned size. The supply lists the successive
      results of syscall_alloc_page. After an expansion the code calls
      malloc again on the aligned size, which for size 0 returns NULL at
      once. */
  function MallocAligned(h: Heap, size: nat, supply: seq<nat>): (r: Outcome)
    ensures r.Outcome? ==> r.requests <= |supply|
    ensures r.Outcome? ==> && r.heap.pagesAllocated == h.pagesAllocated + r.requests
                           && r.heap.syscallsMade == h.syscallsMade + r.requests
    decreases |supply|
  {
    var i := FirstFit(h.blocks, size);
    if i >= 0 then
      Outcome(h.(blocks := Place(h.blocks, i, size)), h.blocks[i].addr + HeaderSize, 0)
    else if |supply| == 0 then Exhausted
    else
      var grown := Expand(h, supply[0]);
      if |grown.blocks| == 0 || size == 0 then Outcome(grown, 0, 1)
      else
        var r := MallocAligned(grown, size, supply[1..]);
        if r.Outcome? then r.(requests := r.requests + 1) else r
  }

  /** malloc with the size rounded as the code rounds it. */
  function MallocAsWritten(h: Heap, size: nat, supply: seq<nat>): Outcome
    requires size < TwoTo32
  {
    if size == 0 then Outcome(h, 0, 0)
    else MallocAligned(h, AlignSizeAsWritten(size), supply)
  }

  /** malloc: NULL for size 0; otherwise first fit on the size rounded up
      to a multiple of 8. */
  function Malloc(h: Heap, size: nat, supply: seq<nat>): Outcome
  {
    if size == 0 then Outcome(h, 0, 0)
    else MallocAligned(h, AlignSize(size), supply)
  }

  lemma MallocZero(h: Heap, supply: seq<nat>)
    ensures Malloc(h, 0, supply) == Outcome(h, 0, 0)
    ensures MallocAsWritten(h, 0, supply) == Outcome(h, 0, 0)
  {
  }

  /** Up to 0xFFFFFFF8 the code's rounding is exact, so malloc as written
      and the corrected malloc make the same call. */
  lemma MallocAgrees(h: Heap, size: nat, supply: seq<nat>)
    requires size <= TwoTo32 - AlignTo
    ensures MallocAsWritten(h, size, supply) == Malloc(h, size, supply)
  {
    AlignSizeAgrees(size);
  }

  /** When some block fits, malloc takes the first block in list order that
      is free and large enough, marks it used, returns the address just
      past its header and asks the kernel for nothing. */
  lemma MallocFirstFit(h: Heap, size: nat, supply: seq<nat>, i: nat)
    requires size > 0 && i < |h.blocks| && Fits(h.blocks[i], AlignSize(size))
    requires forall k :: 0 <= k < i ==> !Fits(h.blocks[k], AlignSize(size))
    ensures var r := Malloc(h, size, supply);
      && r.Outcome? && r.requests == 0
      && r.ptr == h.blocks[i].addr + HeaderSize
      && r.heap.blocks[i].addr == h.blocks[i].addr
      && !r.heap.blocks[i].isFree
      && r.heap.blocks[i].size >= size
      && r.heap.pagesAllocated == h.pagesAllocated
      && (size <= TwoTo32 - AlignTo ==> MallocAsWritten(h, size, supply) == r)
  {
    var a := AlignSize(size);
    var j := FirstFit(h.blocks, a);
    assert j == i;
    if size <= TwoTo32 - AlignTo {
      MallocAgrees(h, size, supply);
    }
  }

  /** The split: a block with room for the request plus a header and eight
      bytes becomes a used block of exactly the request and a free block
      of what remains, right behind it in the list and in memory. */
  lemma PlaceSplit(bs: seq<Block>, i: nat, size: nat)
    requires i < |bs| && Fits(bs[i], size)
    ensures var r := Place(bs, i, size);
      && (Splits(bs[i], size) ==>
           |r| == |bs| + 1
           && r[i] == Block(bs[i].addr, size, false)
           && r[i + 1] == Block(End(r[i]), bs[i].size - size - HeaderSize, true)
           && End(r[i + 1]) == End(bs[i])
           && r[..i] == bs[..i] && r[i + 2..] == bs[i + 1..])
      && (!Splits(bs[i], size) ==>
           && |r| == |bs| && r[i] == bs[i].(isFree := false)
           && (forall k :: 0 <= k < |bs| && k != i ==> r[k] == bs[k]))
  {
  }

  /** Splitting and marking keep the bytes the list spans. */
  lemma PlaceConserves(bs: seq<Block>, i: nat, size: nat)
    requires i < |bs| && Fits(bs[i], size)
    ensures Footprint(Place(bs, i, size)) == Footprint(bs)
  {
    if Splits(bs[i], size) {
      SplitConserves(bs, i, size);
    } else {
      MarkUsedConserves(bs, i);
    }
  }

  /** Splitting block i in two turns its payload into a payload, a header
      and a payload. */
  lemma SplitConserves(bs: seq<Block>, i: nat, size: nat)
    requires i < |bs| && Fits(bs[i], size) && Splits(bs[i], size)
    ensures Footprint(Place(bs, i, size)) == Footprint(bs)
  {
    var b := bs[i];
    var mid := [Block(b.addr, size, false), Block(b.addr + HeaderSize + size, b.size - size - HeaderSize, true)];
    TotalSizeSplice(bs, i, i + 1, mid);
    assert bs[i..i + 1] == [b];
    assert TotalSize(mid) == b.size - HeaderSize by {
      assert mid[..1] == [mid[0]];
      assert [mid[0]][..0] == [];
    }
    assert TotalSize([b]) == b.size by {
      assert [b][..0] == [];
    }
  }

  /** Marking block i used keeps every size. */
  lemma MarkUsedConserves(bs: seq<Block>, i: nat)
    requires i < |bs|
    ensures Footprint(bs[i := bs[i].(isFree := false)]) == Footprint(bs)
  {
    var b := bs[i];
    var mid := [b.(isFree := false)];
    TotalSizeSplice(bs, i, i + 1, mid);
    assert bs[..i] + mid + bs[i + 1..] == bs[i := b.(isFree := false)];
    assert bs[i..i + 1] == [b];
    assert mid[..0] == [] && [b][..0] == [];
  }

  /** Replacing bs[i..j] by blocks apart from each other and from the rest
      of the list keeps the list disjoint. */
  lemma SpliceDisjoint(bs: seq<Block>, i: nat, j: nat, mid: seq<Block>)
    requires i <= j <= |bs| && Disjoint(bs) && Disjoint(mid)
    requires forall m, k :: 0 <= m < |mid| && (0 <= k < i || j <= k < |bs|) ==> Apart(mid[m], bs[k])
    ensures Disjoint(bs[..i] + mid + bs[j..])
  {
    var r := bs[..i] + mid + bs[j..];
    var n := |mid|;
    forall x, y | 0 <= x < y < |r|
      ensures Apart(r[x], r[y])
    {
      if y < i {
        assert r[x] == bs[x] && r[y] == bs[y];
      } else if y < i + n {
        assert r[y] == mid[y - i];
        if x < i {
          assert r[x] == bs[x];
          assert Apart(mid[y - i], bs[x]);
        } else {
          assert r[x] == mid[x - i];
        }
      } else {
        assert r[y] == bs[y - i - n + j];
        if x < i {
          assert r[x] == bs[x];
        } else if x < i + n {
          assert r[x] == mid[x - i];
          assert Apart(mid[x - i], bs[y - i - n + j]);
        } else {
          assert r[x] == bs[x - i - n + j];
        }
      }
    }
  }

  /** A block lying inside another is apart from whatever the other is
      apart from. */
  lemma WithinApart(inner: Block, outer: Block, c: Block)
    requires outer.addr <= inner.addr && End(inner) <= End(outer) && Apart(outer, c)
    ensures Apart(inner, c)
  {
  }

  lemma PlaceDisjoint(bs: seq<Block>, i: nat, size: nat)
    requires i < |bs| && Fits(bs[i], size) && Disjoint(bs)
    ensures Disjoint(Place(bs, i, size))
  {
    var b := bs[i];
    if Splits(b, size) {
      var mid := [Block(b.addr, size, false), Block(b.addr + HeaderSize + size, b.size - size - HeaderSize, true)];
      assert Apart(mid[0], mid[1]);
      assert bs[..i] + mid + bs[i + 1..] == Place(bs, i, size);
      SpliceWithinDisjoint(bs, i, mid);
    } else {
      var mid := [b.(isFree := false)];
      assert bs[..i] + mid + bs[i + 1..] == Place(bs, i, size);
      SpliceWithinDisjoint(bs, i, mid);
    }
  }

  /** Replacing block i by disjoint blocks lying inside it keeps the list
      disjoint. */
  lemma SpliceWithinDisjoint(bs: seq<Block>, i: nat, mid: seq<Block>)
    requires i < |bs| && Disjoint(bs) && Disjoint(mid)
    requires forall m :: 0 <= m < |mid| ==> bs[i].addr <= mid[m].addr && End(mid[m]) <= End(bs[i])
    ensures Disjoint(bs[..i] + mid + bs[i + 1..])
  {
    forall m, k | 0 <= m < |mid| && (0 <= k < i || i + 1 <= k < |bs|)
      ensures Apart(mid[m], bs[k])
    {
      assert Apart(bs[i], bs[k]);
      WithinApart(mid[m], bs[i], bs[k]);
    }
    SpliceDisjoint(bs, i, i + 1, mid);
  }

  /** A page is fresh when it shares no byte with any block. */
  predicate FreshPage(bs: seq<Block>, page: nat)
  {
    forall k :: 0 <= k < |bs| ==> End(bs[k]) <= page || page + PageSize <= bs[k].addr
  }

  /** Every page the kernel may still hand out is fresh, and no two of
      them overlap. */
  predicate FreshSupply(bs: seq<Block>, supply: seq<nat>)
  {
    && (forall n :: 0 <= n < |supply| && supply[n] != 0 ==> FreshPage(bs, supply[n]))
    && (forall m, n :: 0 <= m < n < |supply| && supply[m] != 0 && supply[n] != 0 ==>
          supply[m] + PageSize <= supply[n] || supply[n] + PageSize <= supply[m])
  }

  lemma ExpandFresh(h: Heap, supply: seq<nat>)
    requires |supply| > 0 && Disjoint(h.blocks) && FreshSupply(h.blocks, supply)
    ensures Disjoint(Expand(h, supply[0]).blocks)
    ensures FreshSupply(Expand(h, supply[0]).blocks, supply[1..])
  {
    var g := Expand(h, supply[0]).blocks;
    if supply[0] != 0 {
      var nb := Block(supply[0], PageSize - HeaderSize, true);
      assert g == h.blocks + [nb];
      forall x, y | 0 <= x < y < |g|
        ensures Apart(g[x], g[y])
      {
        if y == |g| - 1 {
          assert FreshPage(h.blocks, supply[0]);
          assert g[x] == h.blocks[x];
        } else {
          assert g[x] == h.blocks[x] && g[y] == h.blocks[y];
        }
      }
      forall n | 0 <= n < |supply[1..]| && supply[1..][n] != 0
        ensures FreshPage(g, supply[1..][n])
      {
        assert supply[1..][n] == supply[n + 1];
        assert FreshPage(h.blocks, supply[n + 1]);
        forall k | 0 <= k < |g|
          ensures End(g[k]) <= supply[n + 1] || supply[n + 1] + PageSize <= g[k].addr
        {
          if k < |h.blocks| {
            assert g[k] == h.blocks[k];
          }
        }
      }
    }
  }

  /** For a fresh supply, the blocks never overlap through any malloc. */
  lemma {:induction false} MallocAlignedDisjoint(h: Heap, size: nat, supply: seq<nat>)
    requires Disjoint(h.blocks) && FreshSupply(h.blocks, supply)
    ensures var r := MallocAligned(h, size, supply); r.Outcome? ==> Disjoint(r.heap.blocks)
    decreases |supply|
  {
    var i := FirstFit(h.blocks, size);
    if i >= 0 {
      PlaceDisjoint(h.blocks, i, size);
    } else if |supply| > 0 {
      ExpandFresh(h, supply);
      var grown := Expand(h, supply[0]);
      if |grown.blocks| != 0 && size != 0 {
        MallocAlignedDisjoint(grown, size, supply[1..]);
      }
    }
  }

  /** The number of page requests among those given that succeeded. */
  function PagesGranted(supply: seq<nat>): nat
  {
    if |supply| == 0 then 0 else (if supply[0] != 0 then 1 else 0) + PagesGranted(supply[1..])
  }

  /** One expansion grows the list by a page exactly when the kernel
      granted one. */
  lemma ExpandConserves(h: Heap, page: nat)
    ensures Footprint(Expand(h, page).blocks) == Footprint(h.blocks) + (if page != 0 then PageSize else 0)
  {
    if page != 0 {
      var nb := Block(page, PageSize - HeaderSize, true);
      TotalSizeAppend(h.blocks, [nb]);
      assert [nb][..0] == [];
    }
  }

  /** The grants among the first n requests: the first one's, then the
      rest's. */
  lemma GrantedHead(supply: seq<nat>, n: nat)
    requires 0 < n <= |supply|
    ensures PagesGranted(supply[..n]) == (if supply[0] != 0 then 1 else 0) + PagesGranted(supply[1..][..n - 1])
  {
    assert supply[..n][1..] == supply[1..][..n - 1];
  }

  /** The list grows by one page per successful page request, and by
      nothing else. */
  lemma {:induction false} MallocAlignedConserves(h: Heap, size: nat, supply: seq<nat>)
    ensures var r := MallocAligned(h, size, supply);
      r.Outcome? ==>
        Footprint(r.heap.blocks) == Footprint(h.blocks) + PageSize * PagesGranted(supply[..r.requests])
    decreases |supply|
  {
    var r := MallocAligned(h, size, supply);
    var i := FirstFit(h.blocks, size);
    if i >= 0 {
      PlaceConserves(h.blocks, i, size);
      assert supply[..r.requests] == [];
    } else if |supply| > 0 {
      var grown := Expand(h, supply[0]);
      ExpandConserves(h, supply[0]);
      if |grown.blocks| == 0 || size == 0 {
        GrantedHead(supply, 1);
        assert supply[1..][..0] == [];
      } else {
        MallocAlignedConserves(grown, size, supply[1..]);
        if r.Outcome? {
          GrantedHead(supply, r.requests);
        }
      }
    }
  }

  /** A non-NULL pointer from malloc is the data of a used block of the list
      at least as large as the request. */
  lemma {:induction false} MallocAlignedResult(h: Heap, size: nat, supply: seq<nat>)
    ensures var r := MallocAligned(h, size, supply);
      r.Outcome? && r.ptr != 0 ==>
        exists k :: 0 <= k < |r.heap.blocks| && r.heap.blocks[k].addr + HeaderSize == r.ptr
          && !r.heap.blocks[k].isFree && r.heap.blocks[k].size >= size
    decreases |supply|
  {
    var i := FirstFit(h.blocks, size);
    if i >= 0 {
      PlaceSplit(h.blocks, i, size);
      var r := MallocAligned(h, size, supply);
      assert r.heap.blocks[i].addr + HeaderSize == r.ptr;
    } else if |supply| > 0 {
      var grown := Expand(h, supply[0]);
      if |grown.blocks| != 0 && size != 0 {
        MallocAlignedResult(grown, size, supply[1..]);
      }
    }
  }

  lemma MallocResult(h: Heap, size: nat, supply: seq<nat>)
    ensures var r := Malloc(h, size, supply);
      r.Outcome? && r.ptr != 0 ==>
        && size > 0
        && exists k :: 0 <= k < |r.heap.blocks| && r.heap.blocks[k].addr + HeaderSize == r.ptr
             && !r.heap.blocks[k].isFree && r.heap.blocks[k].size >= size
    ensures size <= TwoTo32 - AlignTo ==> MallocAsWritten(h, size, supply) == Malloc(h, size, supply)
  {
    if size > 0 {
      MallocAlignedResult(h, AlignSize(size), supply);
    }
    if size <= TwoTo32 - AlignTo {
      MallocAgrees(h, size, supply);
    }
  }

  // ---------------------------------------------------------------------
  // free

  /** The position of the block whose header is at addr. */
  function IndexOf(bs: seq<Block>, addr: nat): (i: int)
    ensures -1 <= i < |bs|
    ensures i >= 0 ==> bs[i].addr == addr && forall k :: 0 <= k < i ==> bs[k].addr != addr
    ensures i == -1 ==> forall k :: 0 <= k < |bs| ==> bs[k].addr != addr
  {
    if |bs| == 0 then -1
    else if bs[0].addr == addr then 0
    else
      var j := IndexOf(bs[1..], addr);
      assert forall k :: 1 <= k < |bs| ==> bs[k] == bs[1..][k - 1];
      if j == -1 then -1 else j + 1
  }

  /** free is only defined for NULL and for pointers malloc returned: the
      header must sit 12 bytes before ptr. */
  predicate Freeable(h: Heap, ptr: nat)
  {
    ptr == 0 || (ptr >= HeaderSize && IndexOf(h.blocks, ptr - HeaderSize) >= 0)
  }

  /** Marks block i free and, when merge holds, absorbs its list successor
      (header and data) into it. */
  function Release(bs: seq<Block>, i: nat, merge: bool): seq<Block>
    requires i < |bs| && (merge ==> i + 1 < |bs|)
  {
    var b := bs[i].(isFree := true);
    if merge then bs[..i] + [b.(size := b.size + HeaderSize + bs[i + 1].size)] + bs[i + 2..]
    else bs[i := b]
  }

  /** free as the code does it: the successor in the list is absorbed
      whenever it is free, wherever it lies in memory. */
  function FreeAsWritten(h: Heap, ptr: nat): Heap
    requires Freeable(h, ptr)
  {
    if ptr == 0 then h
    else
      var i := IndexOf(h.blocks, ptr - HeaderSize);
      var merge := i + 1 < |h.blocks| && h.blocks[i + 1].isFree;
      h.(blocks := Release(h.blocks, i, merge))
  }

  /** Whether block i's list successor is free and starts right where
      block i ends. */
  predicate Absorbs(bs: seq<Block>, i: nat)
    requires i < |bs|
  {
    i + 1 < |bs| && bs[i + 1].isFree && bs[i + 1].addr == End(bs[i])
  }

  /** free, absorbing the successor only when it is free and adjacent. */
  function Free(h: Heap, ptr: nat): Heap
    requires Freeable(h, ptr)
  {
    if ptr == 0 then h
    else
      var i := IndexOf(h.blocks, ptr - HeaderSize);
      h.(blocks := Release(h.blocks, i, Absorbs(h.blocks, i)))
  }

  lemma FreeNull(h: Heap)
    ensures FreeAsWritten(h, 0) == h && Free(h, 0) == h
  {
  }

  /** After free the block at ptr - 12 is free and the blocks before it
      are untouched. */
  lemma FreeMarks(h: Heap, ptr: nat)
    requires Freeable(h, ptr) && ptr != 0
    ensures var i := IndexOf(h.blocks, ptr - HeaderSize);
      var r := Free(h, ptr).blocks;
      i < |r| && r[i].addr == ptr - HeaderSize && r[i].isFree && r[..i] == h.blocks[..i]
    ensures var i := IndexOf(h.blocks, ptr - HeaderSize);
      var w := FreeAsWritten(h, ptr).blocks;
      i < |w| && w[i].addr == ptr - HeaderSize && w[i].isFree && w[..i] == h.blocks[..i]
  {
  }

  /** free as written: the block at ptr - 12 becomes free; when its list
      successor is free, the successor's header and data are added to its
      size and the successor leaves the list; every other block stays as
      it was, in order. */
  lemma FreeAsWrittenEffect(h: Heap, ptr: nat)
    requires Freeable(h, ptr) && ptr != 0
    ensures var bs := h.blocks;
      var i := IndexOf(bs, ptr - HeaderSize);
      var merge := i + 1 < |bs| && bs[i + 1].isFree;
      var r := FreeAsWritten(h, ptr);
      && r.pagesAllocated == h.pagesAllocated && r.syscallsMade == h.syscallsMade
      && |r.blocks| == (if merge then |bs| - 1 else |bs|)
      && r.blocks[..i] == bs[..i]
      && r.blocks[i] == bs[i].(isFree := true, size := bs[i].size + (if merge then HeaderSize + bs[i + 1].size else 0))
      && r.blocks[i + 1..] == (if merge then bs[i + 2..] else bs[i + 1..])
  {
  }

  /** The code's free and the corrected one agree exactly when the freed
      block has no free list successor lying elsewhere than right behind
      it. */
  lemma FreeAgrees(h: Heap, ptr: nat)
    requires Freeable(h, ptr)
    ensures FreeAsWritten(h, ptr) == Free(h, ptr) <==>
      (ptr == 0 ||
        var i := IndexOf(h.blocks, ptr - HeaderSize);
        !(i + 1 < |h.blocks| && h.blocks[i + 1].isFree && h.blocks[i + 1].addr != End(h.blocks[i])))
  {
    if ptr != 0 {
      var bs := h.blocks;
      var i := IndexOf(bs, ptr - HeaderSize);
      if i + 1 < |bs| && bs[i + 1].isFree && bs[i + 1].addr != End(bs[i]) {
        assert |FreeAsWritten(h, ptr).blocks| != |Free(h, ptr).blocks|;
      }
    }
  }

  /** Freeing, with or without absorbing the successor, keeps the bytes the
      list spans. */
  lemma FreeConserves(h: Heap, ptr: nat)
    requires Freeable(h, ptr)
    ensures Footprint(Free(h, ptr).blocks) == Footprint(h.blocks)
    ensures Footprint(FreeAsWritten(h, ptr).blocks) == Footprint(h.blocks)
  {
    if ptr != 0 {
      var bs := h.blocks;
      var i := IndexOf(bs, ptr - HeaderSize);
      var b := bs[i].(isFree := true);
      if i + 1 < |bs| {
        MergeConserves(bs, i);
      }
      MarkConserves(bs, i, b);
    }
  }

  lemma MergeConserves(bs: seq<Block>, i: nat)
    requires i + 1 < |bs|
    ensures Footprint(Release(bs, i, true)) == Footprint(bs)
  {
    var b := bs[i].(isFree := true);
    var mid := [b.(size := b.size + HeaderSize + bs[i + 1].size)];
    TotalSizeSplice(bs, i, i + 2, mid);
    var pair := bs[i..i + 2];
    assert pair == [bs[i], bs[i + 1]];
    assert pair[..1] == [bs[i]] && [bs[i]][..0] == [] && mid[..0] == [];
    assert TotalSize(pair) == bs[i].size + bs[i + 1].size;
  }

  lemma MarkConserves(bs: seq<Block>, i: nat, b: Block)
    requires i < |bs| && b.size == bs[i].size
    ensures Footprint(bs[i := b]) == Footprint(bs)
  {
    TotalSizeSplice(bs, i, i + 1, [b]);
    assert bs[..i] + [b] + bs[i + 1..] == bs[i := b];
    assert bs[i..i + 1] == [bs[i]];
    assert [b][..0] == [] && [bs[i]][..0] == [];
  }

  /** Absorbing an adjacent successor keeps the blocks apart. */
  lemma MergeDisjoint(bs: seq<Block>, i: nat)
    requires i < |bs| && Absorbs(bs, i) && Disjoint(bs)
    ensures Disjoint(Release(bs, i, true))
  {
    var b := bs[i].(isFree := true);
    var merged := b.(size := b.size + HeaderSize + bs[i + 1].size);
    forall k | 0 <= k < i || i + 2 <= k < |bs|
      ensures Apart([merged][0], bs[k])
    {
      assert Apart(bs[i], bs[k]) && Apart(bs[i + 1], bs[k]);
    }
    SpliceDisjoint(bs, i, i + 2, [merged]);
  }

  /** Marking a block free keeps the blocks apart. */
  lemma MarkDisjoint(bs: seq<Block>, i: nat)
    requires i < |bs| && Disjoint(bs)
    ensures Disjoint(Release(bs, i, false))
  {
    var b := bs[i].(isFree := true);
    forall k | 0 <= k < i || i + 1 <= k < |bs|
      ensures Apart([b][0], bs[k])
    {
      assert Apart(bs[i], bs[k]);
    }
    SpliceDisjoint(bs, i, i + 1, [b]);
    assert bs[..i] + [b] + bs[i + 1..] == bs[i := b];
  }

  /** Freeing keeps the blocks apart when successors are absorbed only
      when adjacent. */
  lemma FreeDisjoint(h: Heap, ptr: nat)
    requires Freeable(h, ptr) && Disjoint(h.blocks)
    ensures Disjoint(Free(h, ptr).blocks)
  {
    if ptr != 0 {
      var i := IndexOf(h.blocks, ptr - HeaderSize);
      if Absorbs(h.blocks, i) {
        MergeDisjoint(h.blocks, i);
      } else {
        MarkDisjoint(h.blocks, i);
      }
    }
  }

  /** Releasing a block just placed, when it was split or its successor is
      not free, restores the list. */
  lemma ReleasePlaced(bs: seq<Block>, i: nat, size: nat)
    requires i < |bs| && Fits(bs[i], size)
    requires Splits(bs[i], size) || i + 1 == |bs| || !bs[i + 1].isFree
    ensures var p := Place(bs, i, size);
      i < |p| && Release(p, i, Absorbs(p, i)) == bs
    ensures var p := Place(bs, i, size);
      i < |p| && Release(p, i, i + 1 < |p| && p[i + 1].isFree) == bs
  {
    PlaceSplit(bs, i, size);
    var p := Place(bs, i, size);
    if Splits(bs[i], size) {
      assert Absorbs(p, i);
      assert Release(p, i, true) == bs[..i] + [bs[i]] + bs[i + 1..];
    } else {
      assert !Absorbs(p, i);
    }
  }

  /** The block malloc placed at i is found again by its header address. */
  lemma PlacedIndex(bs: seq<Block>, i: nat, size: nat)
    requires i < |bs| && Fits(bs[i], size)
    requires forall k :: 0 <= k < i ==> bs[k].addr != bs[i].addr
    ensures IndexOf(Place(bs, i, size), bs[i].addr) == i
  {
    PlaceSplit(bs, i, size);
    var p := Place(bs, i, size);
    forall k | 0 <= k < i
      ensures p[k].addr != bs[i].addr
    {
      assert p[k] == p[..i][k];
    }
  }

  /** Freeing what malloc just took from an existing block gives back the
      list as it was, when malloc split the block or the next block was
      not free. */
  lemma MallocFreeRoundTrip(h: Heap, size: nat, supply: seq<nat>, i: nat)
    requires size > 0 && i < |h.blocks| && Fits(h.blocks[i], AlignSize(size))
    requires forall k :: 0 <= k < i ==> !Fits(h.blocks[k], AlignSize(size))
    requires forall k :: 0 <= k < i ==> h.blocks[k].addr != h.blocks[i].addr
    requires Splits(h.blocks[i], AlignSize(size)) || i + 1 == |h.blocks| || !h.blocks[i + 1].isFree
    ensures var r := Malloc(h, size, supply);
      r.Outcome? && Freeable(r.heap, r.ptr) && Free(r.heap, r.ptr).blocks == h.blocks
    ensures size <= TwoTo32 - AlignTo ==>
      var w := MallocAsWritten(h, size, supply);
      w.Outcome? && Freeable(w.heap, w.ptr) && FreeAsWritten(w.heap, w.ptr).blocks == h.blocks
  {
    var a := AlignSize(size);
    MallocFirstFit(h, size, supply, i);
    var r := Malloc(h, size, supply);
    assert r.heap.blocks == Place(h.blocks, i, a);
    PlacedIndex(h.blocks, i, a);
    ReleasePlaced(h.blocks, i, a);
  }

  // ---------------------------------------------------------------------
  // heap_stats

  /** heap_stats: the page count, and the data bytes of the used and of the
      free blocks; together they are all the data bytes of the list. */
  method Stats(h: Heap) returns (pages: nat, used: nat, free: nat)
    ensures pages == h.pagesAllocated
    ensures free == FreeSize(h.blocks)
    ensures used + free == TotalSize(h.blocks)
  {
    pages := h.pagesAllocated;
    used, free := 0, 0;
    var k := 0;
    while k < |h.blocks|
      invariant k <= |h.blocks|
      invariant free == FreeSize(h.blocks[..k])
      invariant used + free == TotalSize(h.blocks[..k])
    {
      assert h.blocks[..k + 1][..k] == h.blocks[..k];
      if h.blocks[k].isFree {
        free := free + h.blocks[k].size;
      } else {
        used := used + h.blocks[k].size;
      }
      k := k + 1;
    }
    assert h.blocks[..k] == h.blocks;
  }

  // ---------------------------------------------------------------------
  // Absorbing a successor that is not adjacent

  /** Three pages handed out in the order 0x1000, 0x3000, 0x2000; the first
      block in use, the other two free. */
  const OutOfOrder: Heap := Heap([
    Block(0x1000, PageSize - HeaderSize, false),
    Block(0x3000, PageSize - HeaderSize, true),
    Block(0x2000, PageSize - HeaderSize, true)], 3, 3)

  /** Freeing the first block as the code does absorbs the block at 0x3000:
      the result claims 0x1000 up to 0x3000, over the block at 0x2000. */
  lemma FreeAsWrittenOverlaps()
    ensures Disjoint(OutOfOrder.blocks)
    ensures Freeable(OutOfOrder, 0x100C)
    ensures FreeAsWritten(OutOfOrder, 0x100C).blocks
      == [Block(0x1000, 2 * PageSize - HeaderSize, true), Block(0x2000, PageSize - HeaderSize, true)]
    ensures !Disjoint(FreeAsWritten(OutOfOrder, 0x100C).blocks)
  {
    var r := FreeAsWritten(OutOfOrder, 0x100C).blocks;
    assert !Apart(r[0], r[1]);
  }

  /** The adjacent-only free leaves the three blocks apart. */
  lemma FreeKeepsOutOfOrderApart()
    ensures Free(OutOfOrder, 0x100C).blocks
      == [Block(0x1000, PageSize - HeaderSize, true), Block(0x3000, PageSize - HeaderSize, true),
          Block(0x2000, PageSize - HeaderSize, true)]
    ensures Disjoint(Free(OutOfOrder, 0x100C).blocks)
  {
    FreeDisjoint(OutOfOrder, 0x100C);
  }

  /** A request of 0xFFFFFFF9 bytes, rounded as the code rounds it, is
      served with a block of 0 bytes split off a free page. */
  lemma HugeRequestServed()
    ensures var h := Heap([Block(0x1000, PageSize - HeaderSize, true)], 1, 1);
      var r := MallocAsWritten(h, 0xFFFF_FFF9, []);
      && r.Outcome? && r.ptr == 0x100C
      && r.heap.blocks == [Block(0x1000, 0, false), Block(0x100C, PageSize - 2 * HeaderSize, true)]
  {
    var h := Heap([Block(0x1000, PageSize - HeaderSize, true)], 1, 1);
    AlignSizeWraps();
    assert FirstFit(h.blocks, 0) == 0;
    assert Splits(h.blocks[0], 0);
    assert MallocAsWritten(h, 0xFFFF_FFF9, []) == MallocAligned(h, 0, []);
  }

  /** Rounded correctly, the same request is never served from that block;
      with no more pages to be had, no pointer comes back. */
  lemma HugeRequestRefused()
    ensures var h := Heap([Block(0x1000, PageSize - HeaderSize, true)], 1, 1);
      Malloc(h, 0xFFFF_FFF9, []) == Exhausted
  {
  }
}

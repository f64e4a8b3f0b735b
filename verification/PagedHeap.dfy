/**
 The kernel heap together with its pages: map_heap_backing in the growth path and unmap_pages in the contraction path
 of kernel/src/mm/heap.cpp. What the pages hold is exchanged inside the heap, where the source calls the virtual memory
 manager: see Filled. The translations themselves are disjoint from all words of the heap, so they are made right
 before, and dropped right after, the call that asks for it.
 */
module PagedHeap {
  import opened Machine
  import opened Paging
  import opened CircularList
  import opened HeapChunks
  import opened HeapMemory
  import opened Heap
  import opened Vmm
  import P = Pmm

  /** The heap window is outside the identity and the recursive window. */
  ghost predicate DataWindow(start: int, max: int)
  {
    0 <= start && ENTRIES <= start / PAGE && max <= RECURSIVE * ENTRIES * PAGE
  }

  /** Of the pages of the window, exactly those below `end` are mapped, present and writable. */
  ghost predicate MappedBelow(m: Memory, pd: nat, start: int, end: int, max: int)
    requires TablesOk(m, pd) && DataWindow(start, max)
  {
    && (forall q: nat :: start / PAGE <= q && q * PAGE < max ==> (PageWalk(m, pd, q).Some? <==> q * PAGE < end))
    && ReadWrite(m, pd, start / PAGE, max / PAGE + 1)
  }

  lemma PageRange(a: int, b: int)
    requires 0 <= a <= b && a % PAGE == 0 && b % PAGE == 0
    ensures a / PAGE + (b - a) / PAGE == b / PAGE && (b - a) / PAGE >= 0
    ensures forall q: nat :: a / PAGE <= q < b / PAGE <==> a <= q * PAGE < b
  {
    assert a == 4096 * (a / 4096) && b == 4096 * (b / 4096) && b - a == 4096 * (b / 4096 - a / 4096);
  }

  class BackedHeap {
    const heap: KernelHeap
    const vmm: Vmm

    constructor (heap: KernelHeap, vmm: Vmm)
      ensures this.heap == heap && this.vmm == vmm
    {
      this.heap, this.vmm := heap, vmm;
    }

    /** The mapped pages of the window are those of [startAddr, endAddr), on distinct frames that the heap owns. */
    ghost predicate Paged()
      reads this, heap, vmm, vmm.pmm, vmm.pmm.mem, vmm.pmm.mem.bitmap
    {
      && vmm.Valid() && DataWindow(heap.startAddr, heap.maxAddr)
      && MappedBelow(vmm.mem, vmm.pd, heap.startAddr, heap.endAddr, heap.maxAddr)
    }

    ghost predicate Valid()
      reads this, heap, heap.ram, vmm, vmm.pmm, vmm.pmm.mem, vmm.pmm.mem.bitmap
    {
      heap.Tagged() && Paged()
    }

    /** The words that hold tags and links, and the chunks they describe, are free of stale PINUSE bits. */
    ghost predicate Clean()
      reads heap, heap.ram
    {
      HeapChunks.Clean(heap.ram.words, heap.chunks)
    }

    /** Address a is on a mapped page of the window. */
    ghost predicate OnPage(a: nat)
      requires vmm.Valid()
      reads this, heap, vmm, vmm.pmm, vmm.pmm.mem, vmm.pmm.mem.bitmap
    {
      a < heap.maxAddr <= RECURSIVE * ENTRIES * PAGE && PageWalk(vmm.mem, vmm.pd, a / PAGE).Some?
    }

    /** Every byte of the payload of c is. */
    ghost predicate Reachable(c: Chunk)
      requires vmm.Valid()
      reads this, heap, vmm, vmm.pmm, vmm.pmm.mem, vmm.pmm.mem.bitmap
    {
      forall a: nat :: c.addr + 8 <= a < c.End() + 4 ==> OnPage(a)
    }

    /** The pages of the heap are mapped, so a payload is reachable exactly when it ends at or below endAddr. */
    lemma ReachableWhen(c: Chunk)
      requires Valid() && c in UsedChunks(heap.chunks)
      ensures Reachable(c) <==> c.End() + 4 <= heap.endAddr
    {
      hide Heads, ListOk, FreeNodes, PageWalk, WellFormed, Accounts, P.PhysicalMemory.Valid;
      var start, end := heap.startAddr, heap.endAddr;
      assert start <= c.addr && c.End() <= end;
      vmm.TablesAmong(vmm.mem, vmm.pmm.owned);
      hide Tiles;
      forall a: nat | start <= a ensures OnPage(a) <==> a < end { PageBelow(start, end, a); }
      if c.End() + 4 > end { assert !OnPage(end); }
    }

    /** All payloads are reachable exactly when they all lie inside the heap. */
    lemma AllReachableWhen()
      requires Valid()
      ensures (forall c :: c in UsedChunks(heap.chunks) ==> Reachable(c)) <==> PayloadsInside(heap.chunks, heap.endAddr)
    {
      forall c | c in UsedChunks(heap.chunks) ensures Reachable(c) <==> c.End() + 4 <= heap.endAddr {
        ReachableWhen(c);
      }
    }

    /** Directory slots that have a page table. */
    ghost function Tables(): set<int>
      requires vmm.Valid()
      reads this, vmm, vmm.pmm, vmm.pmm.mem, vmm.pmm.mem.bitmap
    {
      Slots(vmm.mem, vmm.pd)
    }

    /** Whether the frame allocator can back the pages from `end` to `newEnd`, with the page tables they need. */
    ghost predicate Backable(end: int, newEnd: int)
      requires vmm.Valid() && 0 <= end <= newEnd
      reads this, vmm, vmm.pmm, vmm.pmm.mem, vmm.pmm.mem.bitmap
    {
      vmm.Room(end / PAGE, (newEnd - end) / PAGE)
    }

    /** map_heap_backing of the pages from `end` to `newEnd`; fails exactly in a panic of the frame allocator. */
    method MapBacking(end: int, newEnd: int) returns (ok: bool)
      requires vmm.Valid() && DataWindow(heap.startAddr, heap.maxAddr)
      requires MappedBelow(vmm.mem, vmm.pd, heap.startAddr, end, heap.maxAddr)
      requires heap.startAddr <= end < newEnd <= heap.maxAddr < W32
      requires heap.startAddr % PAGE == 0 && end % PAGE == 0 && newEnd % PAGE == 0
      modifies vmm`mem, vmm.pmm`usedFrames, vmm.pmm`owned, vmm.pmm.mem`allocatedUnits, vmm.pmm.mem.bitmap
      ensures ok <==> old(Backable(end, newEnd))
      ensures ok ==>
                && vmm.Valid() && MappedBelow(vmm.mem, vmm.pd, heap.startAddr, newEnd, heap.maxAddr)
                && vmm.pmm.usedFrames == old(vmm.pmm.usedFrames) + (newEnd - end) / PAGE
                                         + |Tables()| - |old(Tables())|
    {
      hide MappedBelow, Translations, Accounts, TablesOk, PageWalk, Slots, P.PhysicalMemory.Valid, WellFormed;
      hide EntriesSet;
      hide Vmm.Room;
      PageRange(end, newEnd);
      vmm.TablesAmong(vmm.mem, vmm.pmm.owned);
      WindowFree(vmm.mem, vmm.pd, heap.startAddr, end, newEnd, heap.maxAddr);
      ghost var m, f := vmm.mem, 0;
      ok, f := vmm.MapFresh(end, (newEnd - end) / PAGE, PRESENT | WRITABLE);
      if ok {
        vmm.TablesAmong(vmm.mem, vmm.pmm.owned);
        WindowGrows(m, vmm.mem, vmm.pd, heap.startAddr, end, newEnd, heap.maxAddr, f);
      }
    }

    /** The mapping done by the heap constructor, in a window where nothing is mapped yet. */
    method MapInitial() returns (ok: bool)
      requires heap.Tagged() && vmm.Valid() && DataWindow(heap.startAddr, heap.maxAddr)
      requires MappedBelow(vmm.mem, vmm.pd, heap.startAddr, heap.startAddr, heap.maxAddr)
      modifies vmm`mem, vmm.pmm`usedFrames, vmm.pmm`owned, vmm.pmm.mem`allocatedUnits, vmm.pmm.mem.bitmap
      ensures ok <==> old(Backable(heap.startAddr, heap.endAddr))
      ensures ok ==> Valid()
      ensures ok ==> vmm.pmm.usedFrames == old(vmm.pmm.usedFrames) + (heap.endAddr - heap.startAddr) / PAGE
                                           + |Tables()| - |old(Tables())|
    {
      hide MappedBelow, Accounts, TablesOk, PageWalk, Slots, P.PhysicalMemory.Valid, WellFormed, DataWindow;
      hide Tiles, NoAdjacentFree, Heads, ListOk, FreeNodes;
      ok := MapBacking(heap.startAddr, heap.endAddr);
    }

    /** unmap_pages in the contraction path: the double-free panic is never reached. */
    method UnmapBacking(end: int, newEnd: int) returns (ok: bool)
      requires vmm.Valid() && DataWindow(heap.startAddr, heap.maxAddr)
      requires MappedBelow(vmm.mem, vmm.pd, heap.startAddr, end, heap.maxAddr)
      requires heap.startAddr <= newEnd <= end <= heap.maxAddr < W32
      requires heap.startAddr % PAGE == 0 && end % PAGE == 0 && newEnd % PAGE == 0
      modifies vmm`mem, vmm.pmm`usedFrames, vmm.pmm`owned, vmm.pmm.mem`allocatedUnits, vmm.pmm.mem.bitmap
      ensures ok && vmm.Valid() && MappedBelow(vmm.mem, vmm.pd, heap.startAddr, newEnd, heap.maxAddr)
      ensures vmm.pmm.usedFrames == old(vmm.pmm.usedFrames) - (end - newEnd) / PAGE
      ensures Tables() == old(Tables())
    {
      hide MappedBelow, Accounts, TablesOk, PageWalk, Slots, P.PhysicalMemory.Valid, WellFormed, PtesCleared;
      PageRange(newEnd, end);
      vmm.TablesAmong(vmm.mem, vmm.pmm.owned);
      ghost var m := vmm.mem;
      WindowTaken(m, vmm.pd, heap.startAddr, newEnd, end, heap.maxAddr);
      vmm.BackedToo();
      ok := vmm.UnmapPages(newEnd, (end - newEnd) / PAGE);
      WindowShrinks(m, vmm.mem, vmm.pd, heap.startAddr, end, newEnd, heap.maxAddr);
    }

    /** What the growth path does to the page tables before the heap adopts the new pages. */
    method Prepare(nb: int) returns (backed: bool, end: int)
      requires Valid() && MIN_CHUNK <= nb < W32 && (Fits(heap.chunks, nb) || heap.Growable(nb))
      modifies vmm`mem, vmm.pmm`usedFrames, vmm.pmm`owned, vmm.pmm.mem`allocatedUnits, vmm.pmm.mem.bitmap
      ensures end == GrownEnd(nb) && end % PAGE == 0 && heap.endAddr <= end <= heap.maxAddr
      ensures backed <==> end == heap.endAddr || old(Backable(heap.endAddr, GrownEnd(nb)))
      ensures var e := GrownEnd(nb);
              if e == heap.endAddr then
                backed && Paged() && vmm.pmm.usedFrames == old(vmm.pmm.usedFrames) && vmm.mem == old(vmm.mem)
              else
                backed ==>
                  && vmm.Valid() && MappedBelow(vmm.mem, vmm.pd, heap.startAddr, e, heap.maxAddr)
                  && vmm.pmm.usedFrames == old(vmm.pmm.usedFrames) + (e - heap.endAddr) / PAGE
                                           + |Tables()| - |old(Tables())|
    {
      hide MappedBelow, Accounts, TablesOk, PageWalk, Slots, P.PhysicalMemory.Valid, WellFormed, DataWindow;
      hide Tiles, NoAdjacentFree, Heads, ListOk, FreeNodes, AlignUp, RoundUp, Fits;
      backed, end := true, heap.endAddr;
      NodesPositive(heap.ram.words, heap.head, heap.startAddr, heap.endAddr, heap.maxAddr, heap.chunks, heap.nodes);
      var hole := heap.FindSmallestChunk(nb);
      ghost var k := FoundFits(heap.ram.words, heap.head, heap.startAddr, heap.endAddr, heap.maxAddr, heap.chunks,
                               heap.nodes, nb, hole);
      if hole == 0 {
        GrowthCheckExact(heap.head, heap.startAddr, heap.endAddr, heap.maxAddr, nb);
        var newSize := (heap.endAddr - heap.startAddr + nb) % W32;
        if newSize > heap.endAddr - heap.startAddr && (heap.startAddr + AlignUp(newSize, PAGE)) % W32 <= heap.maxAddr {
          GrowthStays(heap.head, heap.startAddr, heap.endAddr, heap.maxAddr, nb);
          GrowthSums(heap.startAddr, heap.endAddr, nb);
          end := heap.startAddr + AlignUp(newSize, PAGE);
          backed := MapBacking(heap.endAddr, end);
        }
      }
    }

    /** Where the heap ends once it has grown by nb bytes. */
    ghost function Needed(nb: int): int
      reads heap
    {
      heap.startAddr + RoundUp(heap.endAddr - heap.startAddr + nb)
    }

    /** Where the heap will end if alloc has to grow it by nb bytes and may; otherwise where it ends. */
    ghost function GrownEnd(nb: int): int
      reads heap
    {
      if Fits(heap.chunks, nb) || Needed(nb) > heap.maxAddr then heap.endAddr else Needed(nb)
    }

    /** Nothing fits, and growing by nb bytes would pass the limit or finds no frames for pages and page tables. */
    ghost predicate Refused(nb: int)
      requires Valid() && nb >= MIN_CHUNK
      reads this, heap, heap.ram, vmm, vmm.pmm, vmm.pmm.mem, vmm.pmm.mem.bitmap
    {
      !Fits(heap.chunks, nb) && (Needed(nb) > heap.maxAddr || !Backable(heap.endAddr, Needed(nb)))
    }

    /** The chunks alloc takes a block from: those of the heap, grown if nothing fits. */
    ghost function Offered(nb: int): seq<Chunk>
      requires heap.chunks != []
      reads heap
    {
      if Fits(heap.chunks, nb) then heap.chunks else Grown(heap.chunks, heap.endAddr, Needed(nb))
    }

    /**
     alloc with its page mapping: each new page gets a fresh frame, and used_frames counts pages and new tables. It runs
     out of memory exactly when it is refused, and otherwise takes a best fit.
     */
    method Alloc(size: int, frames: Words) returns (r: AllocResult, ghost at: int)
      requires Valid() && 0 <= size < 0xFFFF_FFF5
      requires Fits(heap.chunks, Request2Size(size)) || heap.Growable(Request2Size(size))
      modifies heap`nodes, heap`chunks, heap`endAddr, heap.ram
      modifies vmm`mem, vmm.pmm`usedFrames, vmm.pmm`owned, vmm.pmm.mem`allocatedUnits, vmm.pmm.mem.bitmap
      ensures old(heap.chunks) != [] && Request2Size(size) >= MIN_CHUNK
      ensures r.OutOfMemory? <==> old(Refused(Request2Size(size)))
      ensures var nb, g := Request2Size(size), old(Offered(Request2Size(size)));
              && (!r.OutOfMemory? ==> BestFit(g, at, nb) && (r.PastEnd? <==> at == |g| - 1 && !Cut(g, at, nb)))
              && (r.Block? ==> heap.chunks == Allocated(g, at, nb))
      ensures r.Block? ==>
                && Valid() && 0 <= at < |heap.chunks| && heap.chunks[at].used && r.mem == heap.chunks[at].addr + 8
                && heap.endAddr == old(GrownEnd(Request2Size(size)))
                && (old(Clean()) ==> Clean()) && r.mem % 8 == 0 && heap.chunks[at].size - 4 >= size
                && Request2Size(size) <= heap.chunks[at].size < Request2Size(size) + 16
                && UsedChunks(heap.chunks) == old(UsedChunks(heap.chunks)) + {heap.chunks[at]}
                && heap.chunks[at] !in old(UsedChunks(heap.chunks)) && Reachable(heap.chunks[at])
                && FreeBytes(heap.chunks) ==
                     old(FreeBytes(heap.chunks)) + (heap.endAddr - old(heap.endAddr)) - heap.chunks[at].size
                && PayloadsBelow(old(heap.ram.words), heap.ram.words, old(UsedChunks(heap.chunks)), old(heap.endAddr))
                && vmm.pmm.usedFrames == old(vmm.pmm.usedFrames) + (heap.endAddr - old(heap.endAddr)) / PAGE
                                         + |Tables()| - |old(Tables())|
    {
      hide MappedBelow, Accounts, TablesOk, PageWalk, Slots, P.PhysicalMemory.Valid, WellFormed, DataWindow;
      hide Tiles, NoAdjacentFree, Heads, ListOk, FreeNodes, AlignUp, RoundUp, Fits, UsedChunks;
      hide FreeBytes, PayloadsBelow, HeapChunks.Clean, Backable, Filled, Reachable;
      hide Request2Size, Feet, InsideKept, Grown, Allocated, BestFit;
      RequestFits(size);
      ghost var m, cs := heap.ram.words, heap.chunks;
      NodesPositive(m, heap.head, heap.startAddr, heap.endAddr, heap.maxAddr, cs, heap.nodes);
      NeededGrows(Request2Size(size));
      var backed, _ := Prepare(Request2Size(size));
      r, at := heap.AllocUnlocked(size, backed, frames);
      if r.Block? {
        InUseMember(heap.chunks, at);
        ReachableWhen(heap.chunks[at]);
      }
    }

    lemma NeededGrows(nb: int)
      requires heap.Tagged() && nb >= MIN_CHUNK
      ensures 0 <= heap.endAddr < Needed(nb)
    {
      hide Tiles, NoAdjacentFree, Heads, ListOk, FreeNodes;
    }

    /** palignedAlloc: the over-allocation may grow the heap, and the trim may contract it again. */
    method PalignedAlloc(size: int, frames: Words) returns (r: PageResult, ok: bool, ghost at: int, ghost hole: int)
      requires Valid() && 0 <= size < 0xFFFF_FFF5 && Request2Size(size) + 4108 < 0xFFFF_FFF5
      requires var req := Request2Size(size) + 4112; Fits(heap.chunks, req) || heap.Growable(req)
      modifies heap`nodes, heap`chunks, heap`endAddr, heap.ram
      modifies vmm`mem, vmm.pmm`usedFrames, vmm.pmm`owned, vmm.pmm.mem`allocatedUnits, vmm.pmm.mem.bitmap
      ensures ok && (r.NoBlock? ==> !r.cause.Block?)
      ensures old(heap.chunks) != [] && Request2Size(size) >= MIN_CHUNK
      ensures r == NoBlock(OutOfMemory) <==> old(Refused(Request2Size(size) + 4112))
      ensures var req := Request2Size(size) + 4112; var g := old(Offered(Request2Size(size) + 4112));
              r != NoBlock(OutOfMemory) ==>
                && BestFit(g, hole, req) && (r == NoBlock(PastEnd) <==> hole == |g| - 1 && !Cut(g, hole, req))
                && (r.Aligned? ==>
                      && 0 <= at < |heap.chunks| && Valid() && hole < |Allocated(g, hole, req)|
                      && (var piece := Allocated(g, hole, req)[hole].End() - AlignedStart(g[hole].addr);
                          heap.chunks[at].size ==
                            if piece > Request2Size(size) + MIN_CHUNK then Request2Size(size) else piece)
                      && (StaleAt(heap.ram.words, heap.chunks, at) <==>
                            if (g[hole].addr + 8) % PAGE == 0 then !PrevUsed(g, hole)
                            else PInuse(Load(Filled(old(heap.ram.words), frames, old(heap.endAddr), old(GrownEnd(req))),
                                             LeadEnd(g[hole].addr) + 4)))
                      && (Reachable(heap.chunks[at]) <==>
                            !LosesTail(Allocated(g, hole, req), heap.startAddr, hole, Request2Size(size))))
      ensures r.Aligned? ==>
                && Valid() && 0 <= at < |heap.chunks| && heap.chunks[at].used
                && (old(Clean()) ==> (Clean() <==> !StaleAt(heap.ram.words, heap.chunks, at)))
                && r.mem == heap.chunks[at].addr + 8 && r.mem % PAGE == 0 && heap.chunks[at].size - 4 >= size
                && Request2Size(size) <= heap.chunks[at].size <= Request2Size(size) + MIN_CHUNK
                && FreeBytes(heap.chunks) ==
                     old(FreeBytes(heap.chunks)) + (heap.endAddr - old(heap.endAddr)) - heap.chunks[at].size
                && UsedChunks(heap.chunks) == old(UsedChunks(heap.chunks)) + {heap.chunks[at]}
                && (forall e :: e <= old(heap.endAddr) && e <= heap.endAddr ==>
                      PayloadsBelow(old(heap.ram.words), heap.ram.words, old(UsedChunks(heap.chunks)), e))
                && vmm.pmm.usedFrames == old(vmm.pmm.usedFrames) + (heap.endAddr - old(heap.endAddr)) / PAGE
                                         + |Tables()| - |old(Tables())|
    {
      hide MappedBelow, Accounts, TablesOk, PageWalk, Slots, P.PhysicalMemory.Valid, WellFormed, DataWindow;
      hide Tiles, NoAdjacentFree, Heads, ListOk, FreeNodes, AlignUp, RoundUp, Fits, UsedChunks;
      hide FreeBytes, PayloadsBelow, HeapChunks.Clean, CleanBut, StaleAt, Backable, Filled, Reachable, LosesTail;
      hide Request2Size, Feet, InsideKept, Grown, Allocated, BestFit, LeadEnd, PInuse;
      ok := true;
      RequestFits(size);
      ghost var end0, m, cs := heap.endAddr, heap.ram.words, heap.chunks;
      NodesPositive(m, heap.head, heap.startAddr, heap.endAddr, heap.maxAddr, cs, heap.nodes);
      NeededGrows(Request2Size(size) + 4112);
      var backed, end := Prepare(Request2Size(size) + 4112);
      r, at, hole := heap.PalignedAllocUnlocked(size, backed, frames);
      if r.Aligned? {
        ok := UnmapBacking(end, heap.endAddr);
        PagesBetween(end0, end, heap.endAddr);
        InUseMember(heap.chunks, at);
        ReachableWhen(heap.chunks[at]);
      }
    }

    /** free with its unmapping: contraction gives back exactly its pages and never reaches the double-free panic. */
    method Free(ptr: int, ghost i: int) returns (r: FreeResult, ok: bool)
      requires Valid()
      requires ptr != 0 ==>
                 && 0 <= i < |heap.chunks| && heap.chunks[i].used && ptr == heap.chunks[i].addr + 8
                 && (Backwards(heap.ram.words, heap.chunks, i) ==> FootOf(heap.ram.words, heap.chunks, i))
      modifies heap`nodes, heap`chunks, heap`endAddr, heap.ram
      modifies vmm`mem, vmm.pmm`usedFrames, vmm.pmm`owned, vmm.pmm.mem`allocatedUnits, vmm.pmm.mem.bitmap
      ensures ok && (r.Released? ==> Valid() && (old(Clean()) ==> Clean()))
      ensures ptr == 0 ==> r.Released? && heap.chunks == old(heap.chunks) && heap.ram.words == old(heap.ram.words)
      ensures ptr != 0 ==>
                var cs, end, back := old(heap.chunks), old(heap.endAddr),
                                     old(Backwards(heap.ram.words, heap.chunks, i));
                && Joinable(cs, i, back)
                && r == (if OverContracts(cs, heap.startAddr, end, i, back) then ContractAssert else Released)
                && (r.Released? ==>
                      && heap.chunks == Freed(cs, heap.startAddr, end, i, back)
                      && heap.endAddr == FreedEnd(cs, heap.startAddr, end, i, back)
                      && UsedChunks(heap.chunks) == UsedChunks(cs) - {cs[i]}
                      && FreeBytes(heap.chunks) == FreeBytes(cs) + cs[i].size - (end - heap.endAddr)
                      && PayloadsBelow(old(heap.ram.words), heap.ram.words, UsedChunks(heap.chunks), heap.endAddr)
                      && ((forall c :: c in UsedChunks(heap.chunks) ==> Reachable(c)) <==>
                            if Swallowed(Merged(cs, i, back), heap.startAddr, end) then !PrevUsed(cs, Lo(i, back))
                            else Hi(cs, i) == |cs| || !cs[|cs| - 1].used))
      ensures r.Released? ==>
                && vmm.pmm.usedFrames == old(vmm.pmm.usedFrames) - (old(heap.endAddr) - heap.endAddr) / PAGE
                && Tables() == old(Tables())
    {
      hide MappedBelow, Accounts, TablesOk, PageWalk, Slots, P.PhysicalMemory.Valid, WellFormed, DataWindow;
      hide Tiles, NoAdjacentFree, Heads, ListOk, FreeNodes, UsedChunks, FreeBytes, PayloadsBelow, FootOf;
      hide PayloadsInside, Reachable, Swallowed;
      hide Feet, Freed, FreedEnd, OverContracts, Settled, Remains, Backwards, CleanBut, Joinable, StaleAt;
      ok := true;
      var end := heap.endAddr;
      r := heap.FreeUnlocked(ptr, i);
      if r.Released? {
        ok := UnmapBacking(end, heap.endAddr);
        AllReachableWhen();
      }
    }
  }

  lemma PageBelow(start: int, end: int, a: int)
    requires 0 <= start <= a && start % PAGE == 0 && end % PAGE == 0
    ensures start / PAGE <= a / PAGE && a / PAGE * PAGE <= a && (a / PAGE * PAGE < end <==> a < end)
  {
    assert end == 4096 * (end / 4096) && start == 4096 * (start / 4096);
  }

  lemma PagesBetween(a: int, b: int, c: int)
    requires a % PAGE == 0 && b % PAGE == 0 && c % PAGE == 0
    ensures (b - a) / PAGE - (b - c) / PAGE == (c - a) / PAGE
  {
    assert a == 4096 * (a / 4096) && b == 4096 * (b / 4096) && c == 4096 * (c / 4096);
    assert b - a == 4096 * (b / 4096 - a / 4096) && b - c == 4096 * (b / 4096 - c / 4096);
    assert c - a == 4096 * (c / 4096 - a / 4096);
  }

  /** The pages behind the heap are unmapped data pages. */
  lemma WindowFree(m: Memory, pd: nat, start: int, end: int, newEnd: int, max: int)
    requires TablesOk(m, pd) && DataWindow(start, max) && MappedBelow(m, pd, start, end, max)
    requires 0 <= start <= end < newEnd <= max && start % PAGE == 0 && end % PAGE == 0 && newEnd % PAGE == 0
    ensures end / PAGE + (newEnd - end) / PAGE == newEnd / PAGE <= RECURSIVE * ENTRIES && newEnd / PAGE > end / PAGE
    ensures forall q: nat :: end / PAGE <= q < newEnd / PAGE ==> DataPage(q) && PageWalk(m, pd, q) == None
  {
    hide WellFormed, PageWalk, HasFlag, ReadWrite;
    PageRange(end, newEnd);
    PageRange(start, end);
    assert end < newEnd ==> end / PAGE < newEnd / PAGE by {
      assert end == 4096 * (end / 4096) && newEnd == 4096 * (newEnd / 4096);
    }
    forall q: nat | end / PAGE <= q < newEnd / PAGE ensures DataPage(q) && PageWalk(m, pd, q) == None {
      assert end <= q * PAGE < newEnd;
    }
  }

  lemma WindowGrows(m: Memory, m': Memory, pd: nat, start: int, end: int, newEnd: int, max: int, f: nat)
    requires TablesOk(m, pd) && TablesOk(m', pd) && DataWindow(start, max) && MappedBelow(m, pd, start, end, max)
    requires 0 <= start <= end < newEnd <= max && start % PAGE == 0 && end % PAGE == 0 && newEnd % PAGE == 0
    requires newEnd / PAGE <= RECURSIVE * ENTRIES && end / PAGE + (newEnd - end) / PAGE == newEnd / PAGE
    requires Translations(m, m', pd, end / PAGE, f, (newEnd - end) / PAGE, PRESENT | WRITABLE)
    requires EntriesSet(m, m', pd, end / PAGE, f, (newEnd - end) / PAGE, PRESENT | WRITABLE)
    ensures MappedBelow(m', pd, start, newEnd, max)
  {
    hide WellFormed, PageWalk, HasFlag, ReadWrite, EntriesSet;
    MappingReadWrite(m, m', pd, end / PAGE, f, (newEnd - end) / PAGE, start / PAGE, max / PAGE + 1);
    PageRange(end, newEnd);
    forall q: nat | start / PAGE <= q && q * PAGE < max ensures PageWalk(m', pd, q).Some? <==> q * PAGE < newEnd {
      if q >= end / PAGE { PresentEntry(f + q - end / PAGE); }
      assert end / PAGE <= q < newEnd / PAGE <==> end <= q * PAGE < newEnd;
    }
  }

  /** The pages at the end of the heap are mapped data pages. */
  lemma WindowTaken(m: Memory, pd: nat, start: int, newEnd: int, end: int, max: int)
    requires TablesOk(m, pd) && DataWindow(start, max) && MappedBelow(m, pd, start, end, max)
    requires 0 <= start <= newEnd <= end <= max && start % PAGE == 0 && end % PAGE == 0 && newEnd % PAGE == 0
    ensures newEnd / PAGE + (end - newEnd) / PAGE == end / PAGE <= RECURSIVE * ENTRIES
    ensures forall q: nat :: newEnd / PAGE <= q < end / PAGE ==> DataPage(q)
    ensures PresentPages(m, pd, newEnd / PAGE, (end - newEnd) / PAGE) == (end - newEnd) / PAGE
  {
    hide WellFormed, PageWalk, HasFlag, ReadWrite;
    PageRange(newEnd, end);
    PageRange(start, newEnd);
    forall q: nat | newEnd / PAGE <= q < end / PAGE ensures DataPage(q) && PageWalk(m, pd, q).Some? {
      assert newEnd <= q * PAGE < end;
    }
    CountPresent(m, pd, newEnd / PAGE, (end - newEnd) / PAGE);
  }

  lemma WindowShrinks(m: Memory, m': Memory, pd: nat, start: int, end: int, newEnd: int, max: int)
    requires TablesOk(m, pd) && TablesOk(m', pd) && DataWindow(start, max) && MappedBelow(m, pd, start, end, max)
    requires 0 <= start <= newEnd <= end <= max && start % PAGE == 0 && end % PAGE == 0 && newEnd % PAGE == 0
    requires forall q: nat :: q < RECURSIVE * ENTRIES ==>
               PageWalk(m', pd, q) == if newEnd / PAGE <= q < newEnd / PAGE + (end - newEnd) / PAGE then None
                  else PageWalk(m, pd, q)
    requires newEnd / PAGE + (end - newEnd) / PAGE <= RECURSIVE * ENTRIES
    requires PtesCleared(m, m', pd, newEnd / PAGE, (end - newEnd) / PAGE)
    ensures MappedBelow(m', pd, start, newEnd, max)
  {
    hide WellFormed, PageWalk, HasFlag, ReadWrite, PtesCleared;
    UnmappingReadWrite(m, m', pd, newEnd / PAGE, (end - newEnd) / PAGE, start / PAGE, max / PAGE + 1);
    PageRange(newEnd, end);
    forall q: nat | start / PAGE <= q && q * PAGE < max ensures PageWalk(m', pd, q).Some? <==> q * PAGE < newEnd {
      assert newEnd / PAGE <= q < end / PAGE <==> newEnd <= q * PAGE < end;
    }
  }
}

/**
 Loading and unloading of kernel modules (kernel/src/sys/ld.cpp): pages and frames for the regions of a module, the
 table of layouts, and the error exits.
 */
module ModuleLinker {
  import opened Machine
  import opened Bitmap
  import opened ElfObject
  import opened Relocation
  import opened ModuleImage
  import G = Paging
  import P = Pmm
  import V = Vmm

  const MAX_LAYOUTS := 64

  // ---- the linker ------------------------------------------------------------------------------------

  /** How stage1 ends; it never returns false. */
  datatype Stage = Ready | Failed | Halted

  /** load returns a layout, returns null, or never returns. */
  datatype LoadResult = Loaded(index: nat) | Refused | Panicked

  function WithRegion(l: Layout, a: Access, r: Region): Layout
  {
    if a == RX then l.(rx := r) else l.(rw := r)
  }

  /** A run of units is the page set of the region placed there. */
  lemma AllocatedRegion(r: Region, at: nat, count: nat)
    requires r.size == count * PAGE && count > 0 && r.base == MODULE_BASE + at * PAGE && at + count <= MODULE_PAGES
    ensures Held(r) && InWindow(r) && RegionPages(r) == Run(at, count)
    ensures PageOf(r.base) == at && r.size / PAGE == count
  {
  }

  lemma FitIsFree(used: set<nat>, count: nat, at: nat)
    requires FirstFit(used, MODULE_PAGES, count, at)
    ensures FreeRun(used, MODULE_PAGES, count, at) && at + count <= MODULE_PAGES && Run(at, count) !! used
  {
  }

  /** No run of that many pages is free in the window. */
  ghost predicate NoRoom(used: set<nat>, size: nat)
  {
    size > 0 && forall k: nat :: !FreeRun(used, MODULE_PAGES, size / PAGE, k)
  }

  // ---- frames and translations of the window ---------------------------------------------------------

  const MODULE_PAGE: nat := MODULE_BASE / PAGE

  /** Of the pages of the window, exactly those of live modules are mapped, present and writable. */
  ghost predicate Backs(m: G.Memory, pd: nat, used: set<nat>)
    requires G.TablesOk(m, pd)
  {
    && (forall k: nat :: k < MODULE_PAGES ==> (PageMapped(m, pd, k) <==> k in used))
    && V.ReadWrite(m, pd, MODULE_PAGE, MODULE_PAGE + MODULE_PAGES)
  }

  ghost predicate PageMapped(m: G.Memory, pd: nat, k: nat)
    requires G.TablesOk(m, pd) && k < MODULE_PAGES
  {
    G.PageWalk(m, pd, MODULE_PAGE + k).Some?
  }

  /** No run of that many frames is free. */
  ghost predicate Starved(free: set<nat>, pages: nat)
  {
    forall k: nat :: k + pages <= P.MAX_FRAMES ==> !(Run(k, pages) <= free)
  }

  /**
   Placing a region of that size halts: the window has no run of free pages for it, or there are no frames for the
   lowest such run and the page tables it needs.
   */
  ghost predicate HaltsOn(used: set<nat>, free: set<nat>, slots: set<int>, size: nat)
  {
    && size > 0
    && forall at: nat :: FirstFit(used, MODULE_PAGES, size / PAGE, at) ==>
         !V.RoomFor(free, slots, MODULE_PAGE + at, size / PAGE)
  }

  /** The region took the lowest run of free pages, and `taken` are the frames of its pages and page tables. */
  ghost predicate PlacedAs(used: set<nat>, free: set<nat>, slots: set<int>, r: Region, taken: set<nat>)
  {
    if r.size == 0 then taken == {}
    else
      && r.base >= MODULE_BASE && FirstFit(used, MODULE_PAGES, r.size / PAGE, PageOf(r.base))
      && V.Took(free, slots, MODULE_PAGE + PageOf(r.base), r.size / PAGE, taken)
  }

  /**
   When placing both regions halts: the code region cannot be placed, or it can, takes these frames, and then the data
   region cannot.
   */
  ghost predicate HaltsExactly(used: set<nat>, free: set<nat>, slots: set<int>, l: Layout, taken: set<nat>,
                               halted: bool)
  {
    if HaltsOn(used, free, slots, l.rx.size) then halted
    else
      && InWindow(l.rx) && PlacedAs(used, free, slots, l.rx, taken)
      && (halted <==>
            HaltsOn(used + RegionPages(l.rx), free - taken, slots + RegionSlots(l.rx), l.rw.size))
  }

  /** Directory slots that serve the pages of the region. */
  ghost function RegionSlots(r: Region): set<int>
    requires r.size > 0 ==> r.base >= MODULE_BASE
  {
    if r.size == 0 then {} else V.PageSlots(MODULE_PAGE + PageOf(r.base), r.size / PAGE)
  }

  /** What placing a region leaves free. */
  ghost predicate Drew(used: set<nat>, free: set<nat>, slots: set<int>, r: Region, free': set<nat>, slots': set<int>)
  {
    free' <= free && PlacedAs(used, free, slots, r, free - free') && slots' == slots + RegionSlots(r)
  }

  lemma DrewNothing(used: set<nat>, free: set<nat>, slots: set<int>, r: Region)
    requires r.size == 0
    ensures Drew(used, free, slots, r, free, slots)
  {
    assert slots + {} == slots && free - free == {};
  }

  lemma DrewRegion(used: set<nat>, free: set<nat>, slots: set<int>, r: Region, at: nat, free': set<nat>,
                   slots': set<int>)
    requires r.size > 0 && r.base == MODULE_BASE + at * PAGE && FirstFit(used, MODULE_PAGES, r.size / PAGE, at)
    requires free' <= free && V.Took(free, slots, MODULE_PAGE + at, r.size / PAGE, free - free')
    requires slots' == slots + V.PageSlots(MODULE_PAGE + at, r.size / PAGE)
    ensures Drew(used, free, slots, r, free', slots')
  {
    hide FirstFit, V.Took, V.PageSlots;
    assert PageOf(r.base) == at;
  }

  lemma BothHalt(used: set<nat>, free: set<nat>, slots: set<int>, l: Layout, free': set<nat>, slots': set<int>,
                 halted: bool)
    requires !HaltsOn(used, free, slots, l.rx.size) && InWindow(l.rx) && Drew(used, free, slots, l.rx, free', slots')
    requires halted <==> HaltsOn(used + RegionPages(l.rx), free', slots', l.rw.size)
    ensures HaltsExactly(used, free, slots, l, free - free', halted)
  {
    hide HaltsOn, RegionPages, InWindow;
    assert free - (free - free') == free';
  }

  lemma NothingCopied(m: Bytes, obj: Object, r: Region)
    requires Arranged(r) && r.size == 0
    ensures Copied(m, obj, r) && SameOutside(m, m, r.base, r.base + r.size)
  {
  }

  lemma HaltsFirst(used: set<nat>, free: set<nat>, slots: set<int>, l: Layout, taken: set<nat>)
    requires HaltsOn(used, free, slots, l.rx.size)
    ensures HaltsExactly(used, free, slots, l, taken, true)
  {
  }

  lemma NothingFree(free: set<nat>, pages: nat)
    requires free == {} && pages > 0
    ensures Starved(free, pages)
  {
    forall k: nat | k + pages <= P.MAX_FRAMES ensures !(Run(k, pages) <= free) { RunHas(k, 0, pages); }
  }

  lemma RunPages(at: nat, pages: nat, base: int)
    requires at + pages <= MODULE_PAGES && base == MODULE_BASE + at * PAGE && pages > 0
    ensures 0 <= base < W32 && base / PAGE == MODULE_PAGE + at && base / PAGE + pages <= G.RECURSIVE * G.ENTRIES
    ensures forall q: nat :: base / PAGE <= q < base / PAGE + pages ==> V.DataPage(q)
  {
  }

  /** Pages outside the used ones are unmapped. */
  lemma PagesFree(m: G.Memory, pd: nat, used: set<nat>, at: nat, pages: nat)
    requires G.TablesOk(m, pd) && Backs(m, pd, used) && Run(at, pages) !! used && at + pages <= MODULE_PAGES
    ensures forall q: nat :: MODULE_PAGE + at <= q < MODULE_PAGE + at + pages ==> G.PageWalk(m, pd, q) == None
  {
    hide G.WellFormed, G.PageWalk, V.ReadWrite;
    forall q: nat | MODULE_PAGE + at <= q < MODULE_PAGE + at + pages ensures G.PageWalk(m, pd, q) == None {
      var k: nat := q - MODULE_PAGE;
      RunHas(at, k - at, pages);
      assert !PageMapped(m, pd, k);
    }
  }

  lemma BacksMore(m: G.Memory, m': G.Memory, pd: nat, used: set<nat>, at: nat, pages: nat, f: nat)
    requires G.TablesOk(m, pd) && G.TablesOk(m', pd) && Backs(m, pd, used) && at + pages <= MODULE_PAGES
    requires V.Translations(m, m', pd, MODULE_PAGE + at, f, pages, G.PRESENT | G.WRITABLE)
    requires V.EntriesSet(m, m', pd, MODULE_PAGE + at, f, pages, G.PRESENT | G.WRITABLE)
    ensures Backs(m', pd, used + Run(at, pages))
  {
    hide G.WellFormed, G.PageWalk, G.HasFlag, V.ReadWrite, V.EntriesSet;
    V.MappingReadWrite(m, m', pd, MODULE_PAGE + at, f, pages, MODULE_PAGE, MODULE_PAGE + MODULE_PAGES);
    forall k: nat | k < MODULE_PAGES ensures PageMapped(m', pd, k) <==> k in used + Run(at, pages) {
      if k >= at { RunHas(at, k - at, pages); V.PresentEntry(f + k - at); }
      assert PageMapped(m, pd, k) <==> k in used;
      assert k < at ==> k !in Run(at, pages);
    }
  }

  lemma BacksLess(m: G.Memory, m': G.Memory, pd: nat, used: set<nat>, at: nat, pages: nat)
    requires G.TablesOk(m, pd) && G.TablesOk(m', pd) && Backs(m, pd, used) && at + pages <= MODULE_PAGES
    requires forall q: nat :: q < G.RECURSIVE * G.ENTRIES ==>
               G.PageWalk(m', pd, q) ==
                   if MODULE_PAGE + at <= q < MODULE_PAGE + at + pages then None else G.PageWalk(m, pd, q)
    requires V.PtesCleared(m, m', pd, MODULE_PAGE + at, pages)
    ensures Backs(m', pd, used - Run(at, pages))
  {
    hide G.WellFormed, G.PageWalk, V.ReadWrite, V.PtesCleared;
    V.UnmappingReadWrite(m, m', pd, MODULE_PAGE + at, pages, MODULE_PAGE, MODULE_PAGE + MODULE_PAGES);
    forall k: nat | k < MODULE_PAGES ensures PageMapped(m', pd, k) <==> k in used - Run(at, pages) {
      if k >= at { RunHas(at, k - at, pages); }
      assert PageMapped(m, pd, k) <==> k in used;
      assert k < at ==> k !in Run(at, pages);
    }
  }

  lemma PagesPresent(m: G.Memory, pd: nat, used: set<nat>, at: nat, pages: nat)
    requires G.TablesOk(m, pd) && Backs(m, pd, used) && Run(at, pages) <= used && at + pages <= MODULE_PAGES
    ensures V.PresentPages(m, pd, MODULE_PAGE + at, pages) == pages
  {
    hide G.WellFormed, G.PageWalk, V.ReadWrite;
    forall q: nat | MODULE_PAGE + at <= q < MODULE_PAGE + at + pages ensures G.PageWalk(m, pd, q).Some? {
      var k: nat := q - MODULE_PAGE;
      RunHas(at, k - at, pages);
      assert PageMapped(m, pd, k);
    }
    V.CountPresent(m, pd, MODULE_PAGE + at, pages);
  }

  class Linker {
    const pool: FixedBitmap
    const vmm: V.Vmm
    var layouts: seq<Option<Layout>>
    var bytes: Bytes

    ghost predicate PoolOk()
      reads pool, pool.bitmap
    {
      && pool.Valid() && pool.base == MODULE_BASE && pool.maxUnits == MODULE_PAGES && pool.unitSize == PAGE
      && pool != vmm.pmm.mem && pool.bitmap != vmm.pmm.mem.bitmap
    }

    ghost function Used(): set<nat>
      requires PoolOk()
      reads pool, pool.bitmap
    {
      pool.Used()
    }

    /** The accounts of the page tables are in order, and the mapped pages of the window are `used`. */
    ghost predicate Backed(used: set<nat>)
      reads vmm, vmm.pmm, vmm.pmm.mem, vmm.pmm.mem.bitmap
    {
      vmm.Valid() && Backs(vmm.mem, vmm.pd, used)
    }

    /** Frames in use beyond the page tables. */
    ghost function Net(): int
      requires vmm.Valid()
      reads vmm, vmm.pmm, vmm.pmm.mem, vmm.pmm.mem.bitmap
    {
      vmm.pmm.usedFrames - |V.Slots(vmm.mem, vmm.pd)|
    }

    ghost function Free(): set<nat>
      reads vmm.pmm
    {
      vmm.pmm.arena - vmm.pmm.owned
    }

    /**
     In every reachable state: live modules are disjoint inside the window, the bitmap is their pages, and exactly
     these pages are mapped, on distinct owned frames.
     */
    ghost predicate Valid()
      reads this, pool, pool.bitmap, vmm, vmm.pmm, vmm.pmm.mem, vmm.pmm.mem.bitmap
    {
      PoolOk() && |layouts| == MAX_LAYOUTS && AreBytes(bytes) && Table(Used(), layouts) && Backed(Used())
    }

    constructor (vmm: V.Vmm, memory: Bytes)
      requires AreBytes(memory) && vmm.Valid() && Backs(vmm.mem, vmm.pd, {})
      ensures Valid() && Used() == {} && layouts == seq(MAX_LAYOUTS, _ => None) && bytes == memory && this.vmm == vmm
      ensures fresh(pool) && fresh(pool.bitmap)
    {
      this.vmm := vmm;
      pool := new FixedBitmap(MODULE_BASE, MODULE_PAGES, PAGE);
      layouts := seq(MAX_LAYOUTS, _ => None);
      bytes := memory;
      new;
      EmptyTable(layouts);
    }

    /** Directory slots that have a page table. */
    ghost function Tables(): set<int>
      requires vmm.Valid()
      reads vmm, vmm.pmm, vmm.pmm.mem, vmm.pmm.mem.bitmap
    {
      V.Slots(vmm.mem, vmm.pd)
    }

    /** Placing a region of that size halts now. */
    ghost predicate Halts(size: nat)
      requires PoolOk() && vmm.Valid()
      reads pool, pool.bitmap, vmm, vmm.pmm, vmm.pmm.mem, vmm.pmm.mem.bitmap
    {
      HaltsOn(Used(), Free(), Tables(), size)
    }

    lemma HaltsWhen(size: nat, at: nat)
      requires PoolOk() && vmm.Valid() && size > 0 && FirstFit(Used(), MODULE_PAGES, size / PAGE, at)
      ensures Halts(size) <==> !vmm.Room(MODULE_PAGE + at, size / PAGE)
    {
      hide V.RoomFor, V.Vmm.Valid, FixedBitmap.Used, FreeRun;
    }

    lemma HaltsNeverEmpty(size: nat)
      requires PoolOk() && vmm.Valid()
      ensures (Halts(size) ==> size > 0) && G.RecursiveSlot(vmm.mem, vmm.pd)
    {
    }

    lemma HaltsCrowded(size: nat)
      requires PoolOk() && vmm.Valid() && NoRoom(Used(), size)
      ensures Halts(size)
    {
      hide V.Vmm.Room, V.Vmm.Valid, FixedBitmap.Used, FreeRun;
    }

    /** alloc_frames and map_pages for the units of a region; a null frame address cannot occur. */
    method MapRegion(base: int, pages: nat, ghost at: nat, ghost used: set<nat>) returns (res: Stage)
      requires Backed(used) && Run(at, pages) !! used && at + pages <= MODULE_PAGES
      requires base == MODULE_BASE + at * PAGE && pages > 0
      modifies vmm`mem, vmm.pmm`usedFrames, vmm.pmm`owned, vmm.pmm.mem`allocatedUnits, vmm.pmm.mem.bitmap
      ensures !res.Failed? && (res.Halted? <==> !old(vmm.Room(MODULE_PAGE + at, pages)))
      ensures res.Halted? ==> Starved(Free(), pages)
      ensures res.Ready? ==>
                && Backed(used + Run(at, pages)) && Net() == old(Net()) + pages && Free() <= old(Free())
                && V.Took(old(Free()), old(Tables()), MODULE_PAGE + at, pages, old(Free()) - Free())
                && Tables() == old(Tables()) + V.PageSlots(MODULE_PAGE + at, pages)
    {
      hide Backs, V.Accounts, G.TablesOk, V.TablesOwned, G.PageWalk, V.Slots, P.PhysicalMemory.Valid;
      hide G.WellFormed, V.Translations, V.Took, V.PageSlots, V.Lowest, V.Vmm.Room, V.NewSlots, V.EntriesSet;
      hide Run, From, Starved;
      ghost var m, owned, f := vmm.mem, vmm.pmm.owned, 0;
      ghost var slots := Tables();
      vmm.TablesAmong(m, owned);
      vmm.RoomWhen(MODULE_PAGE + at, pages);
      RunPages(at, pages, base);
      PagesFree(m, vmm.pd, used, at, pages);
      var r;
      r, f := vmm.pmm.AllocFrames(pages);
      if r.Panic? {
        assert Starved(Free(), pages) by { StarvedWhen(Free(), pages); }
        return Halted;
      }
      if r.addr == 0 {
        return Failed;
      }
      vmm.FreeCount();
      var ok := vmm.MapTaken(base, r.addr, pages, G.PRESENT | G.WRITABLE, owned, f);
      if !ok {
        assert Free() == {};
        NothingFree(Free(), pages);
        return Halted;
      }
      vmm.TablesAmong(vmm.mem, vmm.pmm.owned);
      BacksMore(m, vmm.mem, vmm.pd, used, at, pages, f);
      vmm.FreeCount();
      OwnedInArena();
      TookFrames(vmm.pmm.arena, owned, vmm.pmm.owned, slots, MODULE_PAGE + at, pages, f);
      res := Ready;
    }

    lemma OwnedInArena()
      requires vmm.Valid()
      ensures vmm.pmm.owned <= vmm.pmm.arena
    {
    }

    /** From the two steps of the mapping: the run first, then the lowest frames for the tables. */
    lemma TookFrames(arena: set<nat>, owned: set<nat>, owned': set<nat>, slots: set<int>, p: nat, n: nat, f: nat)
      requires owned' <= arena && Run(f, n) <= arena - owned && owned + Run(f, n) <= owned'
      requires forall k: nat :: k < f ==> !(Run(k, n) <= arena - owned)
      requires V.Lowest(owned' - (owned + Run(f, n)), arena - (owned + Run(f, n)))
      requires |arena - (owned + Run(f, n))| - |arena - owned'| == |slots + V.PageSlots(p, n)| - |slots|
      ensures arena - owned' <= arena - owned
      ensures V.Took(arena - owned, slots, p, n, (arena - owned) - (arena - owned'))
    {
      hide Run, From, V.PageSlots, V.Lowest;
      var run := Run(f, n);
      var free, taken := arena - owned, (arena - owned) - (arena - owned');
      assert arena - (owned + run) == free - run && taken - run == owned' - (owned + run);
      assert free - run == (taken - run) + (arena - owned');
      assert slots + V.PageSlots(p, n) == slots + (V.PageSlots(p, n) - slots);
      assert V.TookAt(free, slots, p, n, taken, f);
    }

    lemma StarvedWhen(free: set<nat>, pages: nat)
      requires forall k: nat :: k + pages <= P.MAX_FRAMES ==> !(Run(k, pages) <= free)
      ensures Starved(free, pages)
    {
    }

    /** unmap_pages of the units of a region; never panics. */
    method UnmapRegion(base: int, pages: nat, ghost at: nat, ghost used: set<nat>)
      requires Backed(used) && Run(at, pages) <= used && at + pages <= MODULE_PAGES
      requires base == MODULE_BASE + at * PAGE && pages > 0
      modifies vmm`mem, vmm.pmm`usedFrames, vmm.pmm`owned, vmm.pmm.mem`allocatedUnits, vmm.pmm.mem.bitmap
      ensures Backed(used - Run(at, pages)) && Net() == old(Net()) - pages
    {
      hide Backs, V.Accounts, G.TablesOk, V.TablesOwned, G.PageWalk, V.Slots, P.PhysicalMemory.Valid, G.WellFormed;
      hide V.PtesCleared;
      hide Run, From;
      ghost var m := vmm.mem;
      vmm.TablesAmong(m, vmm.pmm.owned);
      vmm.BackedToo();
      RunPages(at, pages, base);
      PagesPresent(m, vmm.pd, used, at, pages);
      var ok := vmm.UnmapPages(base, pages);
      vmm.TablesAmong(vmm.mem, vmm.pmm.owned);
      BacksLess(m, vmm.mem, vmm.pd, used, at, pages);
    }

    /** stage1 for one region: units, frames, translations, then the bytes of its sections. It never returns false. */
    method Stage1(r: Region, obj: Object) returns (res: Stage, r': Region)
      requires PoolOk() && Backed(Used()) && AreBytes(bytes) && r.base == 0 && r.size % PAGE == 0 && r.size < W32
               && Arranged(r)
      modifies this`bytes, pool, pool.bitmap
      modifies vmm`mem, vmm.pmm`usedFrames, vmm.pmm`owned, vmm.pmm.mem`allocatedUnits, vmm.pmm.mem.bitmap
      ensures !res.Failed?
      ensures res.Halted? ==> NoRoom(old(Used()), r.size) || (r.size > 0 && Starved(Free(), r.size / PAGE))
      ensures NoRoom(old(Used()), r.size) ==> res.Halted?
      ensures res.Halted? <==> old(Halts(r.size))
      ensures res.Ready? ==>
                && PoolOk() && AreBytes(bytes) && r' == r.(base := r'.base) && (r'.base == 0 <==> r'.size == 0)
                && InWindow(r') && RegionPages(r') !! old(Used()) && Used() == old(Used()) + RegionPages(r')
                && Backed(Used()) && Net() == old(Net()) + |RegionPages(r')|
                && Drew(old(Used()), old(Free()), old(Tables()), r', Free(), Tables())
                && Copied(bytes, obj, r') && SameOutside(old(bytes), bytes, r'.base, r'.base + r'.size)
    {
      hide AreBytes, FixedBitmap.Used, FixedBitmap.Valid, FixedBitmap.Shape, Run, From, InWindow, RegionPages;
      hide V.Vmm.Valid, Backs, Starved, V.Slots, V.Vmm.Room, Halts, Drew, Copied, SameOutside, NoRoom;
      r' := r;
      if r.size == 0 {
        NothingPlaced(r);
        NothingCopied(bytes, obj, r);
        return Ready, r;
      }
      res, r' := BackRegion(r);
      if !res.Ready? {
        return res, r;
      }
      var ok;
      ok, bytes := CopySections(bytes, obj, r');
      if !ok {
        res := Failed;
      }
    }

    lemma NothingPlaced(r: Region)
      requires PoolOk() && vmm.Valid() && r.size == 0
      ensures InWindow(r) && RegionPages(r) == {} && !Halts(r.size) && !NoRoom(Used(), r.size)
      ensures Drew(Used(), Free(), Tables(), r, Free(), Tables()) && Used() + {} == Used()
    {
      hide V.Vmm.Valid, FixedBitmap.Used;
      DrewNothing(Used(), Free(), Tables(), r);
    }

    /** The units, frames and translations of a region that has pages. */
    method BackRegion(r: Region) returns (res: Stage, r': Region)
      requires PoolOk() && Backed(Used()) && r.size % PAGE == 0 && 0 < r.size < W32
      modifies pool, pool.bitmap
      modifies vmm`mem, vmm.pmm`usedFrames, vmm.pmm`owned, vmm.pmm.mem`allocatedUnits, vmm.pmm.mem.bitmap
      ensures !res.Failed? && (res.Halted? <==> old(Halts(r.size)))
      ensures res.Halted? ==> NoRoom(old(Used()), r.size) || Starved(Free(), r.size / PAGE)
      ensures NoRoom(old(Used()), r.size) ==> res.Halted?
      ensures res.Ready? ==>
                && PoolOk() && r' == r.(base := r'.base) && Held(r')
                && InWindow(r') && RegionPages(r') !! old(Used()) && Used() == old(Used()) + RegionPages(r')
                && Backed(Used()) && Net() == old(Net()) + |RegionPages(r')|
                && Drew(old(Used()), old(Free()), old(Tables()), r', Free(), Tables())
    {
      hide FixedBitmap.Used, FixedBitmap.Valid, FixedBitmap.Shape, Run, From;
      hide V.Vmm.Valid, Backs, Starved, V.Slots, V.Vmm.Room, Halts, Drew, V.Took, V.PageSlots;
      r' := r;
      HaltsNeverEmpty(r.size);
      ghost var used, free, slots := Used(), Free(), Tables();
      var pages := r.size / PAGE;
      assert r.size == pages * PAGE;
      forall k: nat | FirstFit(used, MODULE_PAGES, pages, k)
        ensures Halts(r.size) <==> !vmm.Room(MODULE_PAGE + k, pages)
      {
        HaltsWhen(r.size, k);
      }
      if NoRoom(used, r.size) { HaltsCrowded(r.size); }
      var placed, at := pool.AllocUnits(pages);
      if placed.Panic? {
        return Halted, r;
      }
      FitIsFree(used, pages, at);
      r' := r.(base := placed.addr);
      AllocatedRegion(r', at, pages);
      RunSize(at, pages);
      res := MapRegion(placed.addr, pages, at, used);
      if !res.Ready? {
        return res, r;
      }
      DrewRegion(used, free, slots, r', at, Free(), Tables());
    }

    /** unload_region_locked */
    method Release(r: Region)
      requires PoolOk() && InWindow(r) && RegionPages(r) <= Used() && Backed(Used())
      modifies pool, pool.bitmap
      modifies vmm`mem, vmm.pmm`usedFrames, vmm.pmm`owned, vmm.pmm.mem`allocatedUnits, vmm.pmm.mem.bitmap
      ensures PoolOk() && Used() == old(Used()) - RegionPages(r) && Backed(Used())
      ensures Net() == old(Net()) - |RegionPages(r)|
    {
      hide FixedBitmap.Used, FixedBitmap.Valid, Run, From, V.Vmm.Valid, Backs, V.Slots;
      if r.base == 0 || r.size == 0 {
        return;
      }
      WindowBound(r);
      ghost var used, at: nat, pages := Used(), PageOf(r.base), r.size / PAGE;
      RunSize(at, pages);
      assert r.base == MODULE_BASE + at * PAGE;
      UnmapRegion(r.base, r.size / PAGE, at, used);
      var freed := pool.FreeUnits(r.base, r.size / PAGE);
    }

    /** unload_locked: the pages and frames of exactly this module come back, and its slot is free again. */
    method UnloadLocked(i: nat)
      requires Valid() && i < MAX_LAYOUTS && layouts[i].Some?
      modifies this`layouts, pool, pool.bitmap
      modifies vmm`mem, vmm.pmm`usedFrames, vmm.pmm`owned, vmm.pmm.mem`allocatedUnits, vmm.pmm.mem.bitmap
      ensures Valid() && layouts == old(layouts)[i := None]
      ensures LayoutPlaced(old(layouts[i].value)) && Used() == old(Used()) - LayoutPages(old(layouts[i].value))
      ensures Net() == old(Net()) - |LayoutPages(old(layouts[i].value))|
    {
      hide Table, InWindow, RegionPages, Arranged, AreBytes, FixedBitmap.Valid, FixedBitmap.Used, V.Vmm.Valid;
      hide Backs, V.Slots;
      TableDrops(Used(), layouts, i);
      var l := layouts[i].value;
      Release(l.rw);
      Release(l.rx);
      PagesOfBoth(l, old(Used()));
      layouts := layouts[i := None];
    }

    /** unload: a null pointer and a layout that is no longer tracked are ignored. */
    method Unload(which: Option<nat>)
      requires Valid() && (which.Some? ==> which.value < MAX_LAYOUTS)
      modifies this`layouts, pool, pool.bitmap
      modifies vmm`mem, vmm.pmm`usedFrames, vmm.pmm`owned, vmm.pmm.mem`allocatedUnits, vmm.pmm.mem.bitmap
      ensures Valid()
      ensures which.None? || old(layouts)[which.value].None? ==>
                layouts == old(layouts) && Used() == old(Used()) && Net() == old(Net())
      ensures which.Some? && old(layouts)[which.value].Some? ==>
                && layouts == old(layouts)[which.value := None] && LayoutPlaced(old(layouts[which.value].value))
                && Used() == old(Used()) - LayoutPages(old(layouts[which.value].value))
                && Net() == old(Net()) - |LayoutPages(old(layouts[which.value].value))|
    {
      if which.Some? && layouts[which.value].Some? {
        UnloadLocked(which.value);
      }
    }

    /** find_free_slot of the layout table. */
    method FindSlot() returns (i: nat)
      ensures i <= |layouts| && (i < |layouts| ==> layouts[i].None?)
      ensures forall j :: 0 <= j < i ==> layouts[j].Some?
    {
      i := 0;
      while i < |layouts| && layouts[i].Some?
        invariant i <= |layouts| && forall j :: 0 <= j < i ==> layouts[j].Some?
      {
        i := i + 1;
      }
    }

    /** stage1 on the region in slot i. */
    method PlaceRegion(i: nat, a: Access, obj: Object) returns (res: Stage)
      requires Valid() && i < MAX_LAYOUTS && layouts[i].Some?
      requires var r := layouts[i].value.RegionAt(a); r.base == 0 && r.size % PAGE == 0 && r.size < W32
      modifies this, pool, pool.bitmap
      modifies vmm`mem, vmm.pmm`usedFrames, vmm.pmm`owned, vmm.pmm.mem`allocatedUnits, vmm.pmm.mem.bitmap
      ensures !res.Failed?
      ensures var size := old(layouts[i].value.RegionAt(a).size);
              && (res.Halted? ==> layouts == old(layouts))
              && (res.Halted? ==> NoRoom(old(Used()), size) || (size > 0 && Starved(Free(), size / PAGE)))
              && (res.Halted? <==> old(Halts(layouts[i].value.RegionAt(a).size)))
      ensures res.Ready? ==>
                && Valid() && layouts[i].Some?
                && var r, r' := old(layouts[i].value.RegionAt(a)), layouts[i].value.RegionAt(a);
                   && r' == r.(base := r'.base)
                   && layouts == old(layouts)[i := Some(WithRegion(old(layouts[i].value), a, r'))]
                   && InWindow(r') && RegionPages(r') !! old(Used()) && Used() == old(Used()) + RegionPages(r')
                   && Net() == old(Net()) + |RegionPages(r')| && (r'.base == 0 <==> r'.size == 0)
                   && Drew(old(Used()), old(Free()), old(Tables()), r', Free(), Tables())
                   && Copied(bytes, obj, r') && SameOutside(old(bytes), bytes, r'.base, r'.base + r'.size)
    {
      hide Table, InWindow, RegionPages, Arranged, AreBytes, FixedBitmap.Valid, FixedBitmap.Used, NoRoom, Copied;
      hide SameOutside;
      hide V.Vmm.Valid, Backs, V.Slots, Starved, Halts, Drew;
      ghost var used := Used();
      var l := layouts[i].value;
      SlotPlaced(used, layouts, i);
      var r';
      res, r' := Stage1(l.RegionAt(a), obj);
      if !res.Ready? {
        return;
      }
      SlotGrows(used, layouts, i, a, r');
      layouts := layouts[i := Some(WithRegion(l, a, r'))];
    }

    /** The emplaced layout after stage0: both regions packed, nothing placed yet. */
    method Begin(i: nat, obj: Object) returns (ok: bool)
      requires Valid() && i < MAX_LAYOUTS && layouts[i].None? && Fits(obj.headers)
      modifies this`layouts
      ensures Valid() && Holding(old(Used()), old(layouts), i) && Used() == old(Used())
      ensures ok <==> obj.headers != []
      ensures layouts[i].value.rx.base == layouts[i].value.rw.base == 0
      ensures ok ==> LayoutOk(layouts[i].value, obj) && Packed(layouts[i].value, obj)
    {
      hide Table, AreBytes, FixedBitmap.Valid, FixedBitmap.Used, SlotsRight, PackUpTo, Fits, V.Vmm.Valid, Backs;
      hide WellPacked, FewestPages;
      var rx, rw, slots;
      ok, rx, rw, slots := Stage0(obj);
      var l := if ok then Layout(rx, rw, slots) else Layout(Region(0, 0, []), Region(0, 0, []), []);
      if ok {
        PackedArranged(rx, obj.headers, RX);
        PackedArranged(rw, obj.headers, RW);
      }
      assert LayoutPlaced(l) && LayoutPages(l) == {};
      TableAdds(Used(), layouts, i, l);
      assert Used() + {} == Used();
      layouts := layouts[i := Some(l)];
    }

    /**
     load. It returns null exactly for a null object, an object without sections, or a refused relocation entry, and
     then the layout table, the module bitmap and the frames in use are what they were, up to page tables. On success
     one slot, the first free one, holds the new layout, whose pages were free, and memory is the copied image with all
     relocations applied. No byte outside the module's own regions changes. It panics exactly with a full table or when
     a region cannot be placed; `taken` are the frames that the code region takes first.
     */
    method Load(o: Option<Object>, exports: map<string, nat>)
      returns (res: LoadResult, ghost l: Layout, ghost image: Bytes, ghost taken: set<nat>)
      requires Valid() && (o.Some? ==> Fits(o.value.headers))
      modifies this, pool, pool.bitmap
      modifies vmm`mem, vmm.pmm`usedFrames, vmm.pmm`owned, vmm.pmm.mem`allocatedUnits, vmm.pmm.mem.bitmap
      ensures o.None? ==> res.Refused? && bytes == old(bytes)
      ensures o.Some? && (forall j :: 0 <= j < MAX_LAYOUTS ==> old(layouts[j]).Some?) ==> res.Panicked?
      ensures res.Panicked? ==>
                && o.Some?
                && ((forall j :: 0 <= j < MAX_LAYOUTS ==> old(layouts[j]).Some?)
                    || (o.value.headers != [] && Packed(l, o.value) && (Crowded(old(Used()), l) || Short(l, Free()))))
      ensures o.Some? && o.value.headers != [] && (exists j :: 0 <= j < MAX_LAYOUTS && old(layouts[j]).None?) ==>
                Packed(l, o.value) && HaltsExactly(old(Used()), old(Free()), old(Tables()), l, taken, res.Panicked?)
      ensures !res.Panicked? ==> Valid()
      ensures !res.Panicked? && o.Some? ==>
                && (o.value.headers != [] ==> LayoutOk(l, o.value) && AllPlaced(l))
                && (res.Refused? <==> o.value.headers == [] || !NoFail(Script(o.value, l, exports, |o.value.headers|)))
                && (OffsetsFit(o.value) ==> SameElsewhere(old(bytes), bytes, l))
      ensures res.Refused? ==> layouts == old(layouts) && Used() == old(Used()) && Net() == old(Net())
      ensures res.Loaded? ==>
                && o.Some? && res.index < MAX_LAYOUTS && old(layouts[res.index]).None?
                && (forall j :: 0 <= j < res.index ==> old(layouts[j]).Some?)
                && layouts == old(layouts)[res.index := Some(l)]
                && LayoutPlaced(l) && LayoutPages(l) !! old(Used()) && Used() == old(Used()) + LayoutPages(l)
                && Net() == old(Net()) + |LayoutPages(l)|
                && LayoutOk(l, o.value) && Packed(l, o.value)
                && AreBytes(image) && Copied(image, o.value, l.rx) && Copied(image, o.value, l.rw)
                && bytes == ApplyAll(image, Script(o.value, l, exports, |o.value.headers|))
                && (SitesApart(Script(o.value, l, exports, |o.value.headers|)) ==> Contains(o.value, l, exports, bytes))
    {
      hide Table, AreBytes, FixedBitmap.Valid, FixedBitmap.Used, LayoutPages, LayoutOk, LayoutPlaced, Fits;
      hide OffsetsFit, Packed;
      hide Script, NoFail, ApplyAll, Copied, SameElsewhere, Reached, Crowded, Short, V.Vmm.Valid, Backs, V.Slots;
      hide HaltsOn, HaltsExactly, AllPlaced, SitesApart, Contains;
      l, image, taken := Layout(Region(0, 0, []), Region(0, 0, []), []), bytes, {};
      if o.None? {
        return Refused, l, image, taken;
      }
      var obj := o.value;
      var i := FindSlot();
      if i >= MAX_LAYOUTS {
        return Panicked, l, image, taken;
      }
      ghost var used, table, net := Used(), layouts, Net();
      var ok := Begin(i, obj);
      Nothing(used, table, i);
      if !ok {
        NothingWritten(bytes, l);
        Unwind(i, used, table, net);
        return Refused, l, image, taken;
      }
      var placed;
      placed, taken := PlaceBoth(i, obj, used, table, net);
      l, image := layouts[i].value, bytes;
      if !placed.Ready? {
        return Panicked, l, image, taken;
      }
      var patched;
      ghost var k;
      ok, patched, k := Stage2(obj, layouts[i].value, exports, bytes);
      Settled(used, table, i);
      StaysWithin(obj, l, exports, old(bytes), image, patched, k);
      bytes := patched;
      if !ok {
        Unwind(i, used, table, net);
        return Refused, l, image, taken;
      }
      if SitesApart(Script(obj, l, exports, |obj.headers|)) { LoadedMeans(obj, l, exports, image); }
      res := Loaded(i);
    }

    /** load followed by unload of what it returned: bitmap, table and frames are as before, up to page tables. */
    method LoadThenUnload(o: Option<Object>, exports: map<string, nat>) returns (res: LoadResult)
      requires Valid() && (o.Some? ==> Fits(o.value.headers))
      modifies this, pool, pool.bitmap
      modifies vmm`mem, vmm.pmm`usedFrames, vmm.pmm`owned, vmm.pmm.mem`allocatedUnits, vmm.pmm.mem.bitmap
      ensures !res.Panicked? ==> Valid() && layouts == old(layouts) && Used() == old(Used()) && Net() == old(Net())
    {
      hide Table, AreBytes, FixedBitmap.Valid, FixedBitmap.Used, LayoutPages, LayoutOk, LayoutPlaced, Fits;
      hide OffsetsFit, Packed;
      hide Script, NoFail, ApplyAll, Copied, SameElsewhere, Crowded, Short, V.Vmm.Valid, Backs, V.Slots;
      ghost var l, image, used, table := Layout(Region(0, 0, []), Region(0, 0, []), []), bytes, Used(), layouts;
      ghost var taken;
      res, l, image, taken := Load(o, exports);
      if res.Loaded? {
        ghost var i := res.index;
        Unload(Some(res.index));
        assert table[i := Some(l)][i := None] == table;
        assert used + LayoutPages(l) - LayoutPages(l) == used;
      }
    }

    /** The error exit of load: unload_locked on the layout under construction. */
    method Unwind(i: nat, ghost used: set<nat>, ghost table: seq<Option<Layout>>, ghost net: int)
      requires Valid() && Holding(used, table, i) && Net() == net + |LayoutPages(layouts[i].value)|
      modifies this`layouts, pool, pool.bitmap
      modifies vmm`mem, vmm.pmm`usedFrames, vmm.pmm`owned, vmm.pmm.mem`allocatedUnits, vmm.pmm.mem.bitmap
      ensures Valid() && layouts == table && Used() == used && Net() == net
    {
      hide Table, AreBytes, FixedBitmap.Valid, FixedBitmap.Used, LayoutPlaced, LayoutPages, V.Vmm.Valid, Backs, V.Slots;
      ghost var l := layouts[i].value;
      UnloadLocked(i);
      assert table[i := Some(l)][i := None] == table;
      assert used + LayoutPages(l) - LayoutPages(l) == used;
    }

    /** Slot i was free in `table`; its layout holds exactly the pages added to `used`. */
    ghost predicate Holding(used: set<nat>, table: seq<Option<Layout>>, i: nat)
      requires PoolOk()
      reads this, pool, pool.bitmap
    {
      && i < |table| == MAX_LAYOUTS && table[i].None? && |layouts| == |table| && layouts[i].Some?
      && layouts == table[i := layouts[i]] && LayoutPlaced(layouts[i].value)
      && LayoutPages(layouts[i].value) !! used && Used() == used + LayoutPages(layouts[i].value)
    }

    lemma HoldingParts(used: set<nat>, table: seq<Option<Layout>>, i: nat)
      requires PoolOk() && Holding(used, table, i)
      ensures i < |table| == |layouts| == MAX_LAYOUTS && table[i].None? && layouts[i].Some?
      ensures layouts == table[i := layouts[i]] && LayoutPlaced(layouts[i].value)
      ensures LayoutPages(layouts[i].value) !! used && Used() == used + LayoutPages(layouts[i].value)
    {
    }

    lemma HoldingAgain(used: set<nat>, table: seq<Option<Layout>>, i: nat, before: seq<Option<Layout>>)
      requires PoolOk() && i < |table| == |before| == |layouts| == MAX_LAYOUTS && table[i].None? && layouts[i].Some?
      requires before == table[i := before[i]] && layouts == before[i := layouts[i]] && LayoutPlaced(layouts[i].value)
      requires LayoutPages(layouts[i].value) !! used && Used() == used + LayoutPages(layouts[i].value)
      ensures Holding(used, table, i)
    {
      assert layouts == table[i := layouts[i]];
    }

    lemma Settled(used: set<nat>, table: seq<Option<Layout>>, i: nat)
      requires PoolOk() && Holding(used, table, i)
      ensures i < |table| == |layouts| && layouts[i].Some? && LayoutPlaced(layouts[i].value)
    {
    }

    lemma Nothing(used: set<nat>, table: seq<Option<Layout>>, i: nat)
      requires PoolOk() && Holding(used, table, i) && layouts[i].value.rx.base == layouts[i].value.rw.base == 0
      ensures LayoutPages(layouts[i].value) == {}
    {
    }

    /** stage1 for one region keeps Holding. */
    method PlaceNext(i: nat, a: Access, obj: Object, ghost used: set<nat>, ghost table: seq<Option<Layout>>,
                     ghost net: int)
      returns (res: Stage)
      requires Valid() && Holding(used, table, i) && LayoutOk(layouts[i].value, obj) && Packed(layouts[i].value, obj)
      requires layouts[i].value.RegionAt(a).base == 0 && Net() == net + |LayoutPages(layouts[i].value)|
      modifies this, pool, pool.bitmap
      modifies vmm`mem, vmm.pmm`usedFrames, vmm.pmm`owned, vmm.pmm.mem`allocatedUnits, vmm.pmm.mem.bitmap
      ensures !res.Failed?
      ensures var size := old(layouts[i].value.RegionAt(a).size);
              && (res.Halted? ==> layouts == old(layouts))
              && (res.Halted? ==> NoRoom(old(Used()), size) || (size > 0 && Starved(Free(), size / PAGE)))
              && (res.Halted? <==> old(Halts(layouts[i].value.RegionAt(a).size)))
      ensures res.Ready? ==>
                && Valid() && Holding(used, table, i) && LayoutOk(layouts[i].value, obj)
                && Packed(layouts[i].value, obj)
                && Net() == net + |LayoutPages(layouts[i].value)|
                && var r' := layouts[i].value.RegionAt(a);
                   && layouts[i].value == WithRegion(old(layouts[i].value), a, r') && (r'.base == 0 <==> r'.size == 0)
                   && r' == old(layouts[i].value.RegionAt(a)).(base := r'.base)
                   && InWindow(r') && Used() == old(Used()) + RegionPages(r')
                   && Drew(old(Used()), old(Free()), old(Tables()), r', Free(), Tables())
                   && Copied(bytes, obj, r') && SameOutside(old(bytes), bytes, r'.base, r'.base + r'.size)
    {
      hide Table, InWindow, RegionPages, Arranged, AreBytes, FixedBitmap.Valid, FixedBitmap.Used, NoRoom, Copied;
      hide SameOutside;
      hide LayoutOk, LayoutPlaced, LayoutPages, Packed, V.Vmm.Valid, Backs, V.Slots, Starved, Halts, Holding, Drew;
      HoldingParts(used, table, i);
      ghost var l, before := layouts[i].value, layouts;
      WholePages(l, obj, a);
      res := PlaceRegion(i, a, obj);
      if !res.Ready? {
        return;
      }
      NextHeld(used, table, i, before, a, obj, layouts[i].value.RegionAt(a));
    }

    lemma NextHeld(used: set<nat>, table: seq<Option<Layout>>, i: nat, before: seq<Option<Layout>>, a: Access,
                   obj: Object, r': Region)
      requires PoolOk() && Table(Used(), layouts) && i < |table| == |before| == MAX_LAYOUTS && table[i].None?
      requires before[i].Some? && before == table[i := before[i]]
      requires var l := before[i].value;
               && LayoutOk(l, obj) && Packed(l, obj) && LayoutPlaced(l) && LayoutPages(l) !! used
               && l.RegionAt(a).base == 0 && r' == l.RegionAt(a).(base := r'.base)
               && layouts == before[i := Some(WithRegion(l, a, r'))] && InWindow(r')
               && RegionPages(r') !! used + LayoutPages(l) && Used() == used + LayoutPages(l) + RegionPages(r')
      ensures Holding(used, table, i) && LayoutOk(layouts[i].value, obj) && Packed(layouts[i].value, obj)
      ensures |LayoutPages(layouts[i].value)| == |LayoutPages(before[i].value)| + |RegionPages(r')|
    {
      hide Table, InWindow, RegionPages, Arranged, FixedBitmap.Valid, FixedBitmap.Used, LayoutOk, LayoutPlaced;
      hide LayoutPages, Packed, Holding;
      var l := before[i].value;
      SlotPlaced(Used(), layouts, i);
      OnlyBaseMoved(l, obj, a, r');
      PagesGrow(l, a, r', used);
      HoldsMore(used, LayoutPages(l), RegionPages(r'), LayoutPages(layouts[i].value));
      HoldingAgain(used, table, i, before);
    }

    method PlaceBoth(i: nat, obj: Object, ghost used: set<nat>, ghost table: seq<Option<Layout>>, ghost net: int)
      returns (res: Stage, ghost taken: set<nat>)
      requires Valid() && Holding(used, table, i) && LayoutOk(layouts[i].value, obj) && Packed(layouts[i].value, obj)
      requires layouts[i].value.rx.base == layouts[i].value.rw.base == 0
               && Net() == net + |LayoutPages(layouts[i].value)|
      modifies this, pool, pool.bitmap
      modifies vmm`mem, vmm.pmm`usedFrames, vmm.pmm`owned, vmm.pmm.mem`allocatedUnits, vmm.pmm.mem.bitmap
      ensures !res.Failed?
      ensures |layouts| == MAX_LAYOUTS && layouts[i].Some? && Packed(layouts[i].value, obj)
      ensures res.Halted? ==> Crowded(used, layouts[i].value) || Short(layouts[i].value, Free())
      ensures HaltsExactly(old(Used()), old(Free()), old(Tables()), layouts[i].value, taken, res.Halted?)
      ensures res.Ready? ==>
                && Valid() && Holding(used, table, i) && LayoutOk(layouts[i].value, obj)
                && Net() == net + |LayoutPages(layouts[i].value)| && SameElsewhere(old(bytes), bytes, layouts[i].value)
                && Copied(bytes, obj, layouts[i].value.rx) && Copied(bytes, obj, layouts[i].value.rw)
                && AllPlaced(layouts[i].value)
    {
      hide Table, AreBytes, FixedBitmap.Valid, FixedBitmap.Used, NoRoom, InWindow, LayoutOk, LayoutPlaced, AllPlaced;
      hide LayoutPages, Packed, Copied;
      hide V.Vmm.Valid, Backs, V.Slots, Starved, HaltsOn, HaltsExactly, Drew, RegionPages;
      ghost var l0, free, slots := layouts[i].value, Free(), Tables();
      taken := {};
      Unplaced(l0, RW);
      Unplaced(l0, RX);
      assert used + {} == used;
      res := PlaceNext(i, RX, obj, used, table, net);
      if !res.Ready? {
        HaltsFirst(used, free, slots, l0, taken);
        return;
      }
      ghost var free1, slots1 := Free(), Tables();
      taken := free - free1;
      ghost var b1, l1 := bytes, layouts[i].value;
      Unplaced(l1, RW);
      res := PlaceNext(i, RW, obj, used, table, net);
      BothHalt(used, free, slots, layouts[i].value, free1, slots1, res.Halted?);
      if res.Ready? {
        PackedPlaced(obj, layouts[i].value);
        assert layouts[i].value.rx == l1.rx;
        CodeStays(b1, bytes, obj, layouts[i].value);
      }
    }
  }

  /** No free run of frames is long enough for one of the regions. */
  ghost predicate Short(l: Layout, free: set<nat>)
  {
    (l.rx.size > 0 && Starved(free, l.rx.size / PAGE)) || (l.rw.size > 0 && Starved(free, l.rw.size / PAGE))
  }

  lemma PagesOfBoth(l: Layout, used: set<nat>)
    requires LayoutPlaced(l)
    ensures used - RegionPages(l.rw) - RegionPages(l.rx) == used - LayoutPages(l)
    ensures |LayoutPages(l)| == |RegionPages(l.rw)| + |RegionPages(l.rx)|
    ensures RegionPages(l.rw) <= LayoutPages(l) && RegionPages(l.rx) <= LayoutPages(l)
  {
  }

  /** One of the regions found no room: the code region, or the data region after the code region took its pages. */
  ghost predicate Crowded(used: set<nat>, l: Layout)
  {
    NoRoom(used, l.rx.size) || (InWindow(l.rx) && NoRoom(used + RegionPages(l.rx), l.rw.size))
  }

  lemma Unplaced(l: Layout, a: Access)
    requires LayoutPlaced(l) && l.RegionAt(a).base == 0
    ensures InWindow(l.rx) && InWindow(l.rw)
    ensures a == RW ==> LayoutPages(l) == RegionPages(l.rx)
    ensures a == RX ==> LayoutPages(l) == RegionPages(l.rw)
    ensures l.rx.base == l.rw.base == 0 ==> LayoutPages(l) == {}
  {
  }

  lemma NothingWritten(m: Bytes, l: Layout)
    ensures SameElsewhere(m, m, l)
  {
  }

  /** Wherever relocation stops, it has written inside the module only. */
  lemma StaysWithin(obj: Object, l: Layout, exports: map<string, nat>, m0: Bytes, image: Bytes, m: Bytes, k: nat)
    requires LayoutOk(l, obj) && LayoutPlaced(l) && AreBytes(image) && SameElsewhere(m0, image, l)
    requires Reached(obj, l, exports, |obj.headers|, image, m, k)
    ensures AreBytes(m) && (OffsetsFit(obj) ==> SameElsewhere(m0, m, l))
  {
    hide LayoutOk, LayoutPlaced, Script, ApplyAll, OffsetsFit, InRegion, InBytes;
    var vs := Script(obj, l, exports, |obj.headers|);
    PatchesAreBytes(image, vs[..k]);
    if OffsetsFit(obj) {
      ScriptInside(obj, l, exports, |obj.headers|);
      PatchesStayInside(image, vs[..k], l);
    }
  }

  lemma WholePages(l: Layout, obj: Object, a: Access)
    requires Packed(l, obj)
    ensures l.RegionAt(a).size % PAGE == 0 && l.RegionAt(a).size < W32
  {
  }

  lemma OnlyBaseMoved(l: Layout, obj: Object, a: Access, r': Region)
    requires LayoutOk(l, obj) && Packed(l, obj) && r' == l.RegionAt(a).(base := r'.base)
    ensures LayoutOk(WithRegion(l, a, r'), obj) && Packed(WithRegion(l, a, r'), obj)
  {
  }

  lemma PagesGrow(l: Layout, a: Access, r': Region, used: set<nat>)
    requires LayoutPlaced(l) && l.RegionAt(a).base == 0 && LayoutPlaced(WithRegion(l, a, r'))
    ensures InWindow(r') && LayoutPages(WithRegion(l, a, r')) == LayoutPages(l) + RegionPages(r')
    ensures |LayoutPages(WithRegion(l, a, r'))| == |LayoutPages(l)| + |RegionPages(r')|
  {
  }

  lemma HoldsMore(used: set<nat>, p: set<nat>, r: set<nat>, p': set<nat>)
    requires p' == p + r && p !! used && r !! used + p
    ensures used + p + r == used + p' && p' !! used
  {
  }

  /** Copying the data region does not disturb the code region. */
  lemma CodeStays(m: Bytes, m': Bytes, obj: Object, l: Layout)
    requires LayoutPlaced(l) && Copied(m, obj, l.rx) && SameOutside(m, m', l.rw.base, l.rw.base + l.rw.size)
    requires l.rx.base == 0 <==> l.rx.size == 0
    requires l.rw.base == 0 <==> l.rw.size == 0
    ensures Copied(m', obj, l.rx)
  {
    hide InWindow, RegionPages, InOrder, Aligned;
    if Held(l.rx) && Held(l.rw) {
      RegionsApart(l.rx, l.rw);
    }
    if Held(l.rx) {
      RegionStaysCopied(m, m', obj, l.rx, l.rw.base, l.rw.base + l.rw.size);
    }
  }

  lemma PackedArranged(r: Region, hs: seq<SectionHeader>, a: Access)
    requires WellPacked(r, hs, |hs|, a)
    ensures Arranged(r)
  {
  }

  lemma SlotPlaced(used: set<nat>, layouts: seq<Option<Layout>>, i: nat)
    requires Table(used, layouts) && i < |layouts| && layouts[i].Some?
    ensures LayoutPlaced(layouts[i].value)
  {
  }

  lemma SlotGrows(used: set<nat>, layouts: seq<Option<Layout>>, i: nat, a: Access, r': Region)
    requires Table(used, layouts) && i < |layouts| && layouts[i].Some?
    requires layouts[i].value.RegionAt(a).base == 0 && r' == layouts[i].value.RegionAt(a).(base := r'.base)
    requires InWindow(r') && RegionPages(r') !! used
    ensures Table(used + RegionPages(r'), layouts[i := Some(WithRegion(layouts[i].value, a, r'))])
  {
    hide Table, InWindow, InOrder, Aligned, Run;
    TableDrops(used, layouts, i);
    var l, l' := layouts[i].value, WithRegion(layouts[i].value, a, r');
    assert LayoutPlaced(l');
    assert LayoutPages(l') == LayoutPages(l) + RegionPages(r');
    TableReplaces(used, layouts, i, l');
    assert used - LayoutPages(l) + LayoutPages(l') == used + RegionPages(r');
  }
}

/**
 The physical frame allocator (kernel/src/mm/pmm.cpp): page rounding, the boot-time memory map, and the
 frame counters that are kept beside the bitmap.
 */
module Pmm {
  import opened Machine
  import opened Bitmap

  const MAX_FRAMES := 0x10_0000
  const LOW_USABLE_BASE := 0x0010_0000
  const AVAILABLE := 1

  // ---- page ranges ------------------------------------------------------------------------------

  datatype PageRange = PageRange(base: int, frames: int) {
    /** size(): a 32-bit product */
    function Size(): int { frames * PAGE % W32 }

    ghost function Frames(): set<nat>
      requires base >= 0 && frames >= 0
    {
      Run(base / PAGE, frames)
    }
  }

  const EmptyRange := PageRange(0, 0)

  /** freeable_page_range: 64-bit sums, rounded inwards. */
  function FreeablePageRange(base: int, size: int, minBase: int): PageRange
  {
    if size == 0 || base + size <= minBase || base >= W32 then EmptyRange
    else
      var start := (if base < minBase then minBase else base) + PAGE - 1;
      var end := if base + size > W32 then W32 else base + size;
      var first, last := start / PAGE, end / PAGE;
      if last <= first then EmptyRange else PageRange(first * PAGE, last - first)
  }

  /** covered_page_range: rounded outwards; `base + size` and its rounding are 32-bit sums. */
  function CoveredPageRange(base: int, size: int): PageRange
  {
    if size == 0 then EmptyRange
    else
      var start, end := AlignDown(base, PAGE), AlignUp((base + size) % W32, PAGE);
      if end <= start then EmptyRange else PageRange(start, (end - start) / PAGE)
  }

  function FrameOf(addr: int): (f: int)
    ensures addr >= 0 ==> f >= 0
  {
    addr / PAGE
  }

  predicate Within(f: nat, lo: int, hi: int) { lo <= f * PAGE && (f + 1) * PAGE <= hi }

  predicate Touches(f: nat, lo: int, hi: int) { f * PAGE < hi && lo < (f + 1) * PAGE }

  /** Frames that lie wholly inside [lo, hi). */
  ghost function PagesInside(lo: int, hi: int): set<nat>
  {
    set f: nat | f < MAX_FRAMES && Within(f, lo, hi)
  }

  /** Frames that share a byte with [lo, hi). */
  ghost function PagesTouching(lo: int, hi: int): set<nat>
  {
    set f: nat | f < MAX_FRAMES && Touches(f, lo, hi)
  }

  ghost function Max(a: int, b: int): int { if a < b then b else a }

  /** The inward rounding yields exactly the frames inside the interval and above the floor. */
  lemma FreeableExact(base: int, size: int, minBase: int)
    requires 0 <= base < W32 && 0 <= size < W32 && 0 <= minBase < W32
    ensures var r := FreeablePageRange(base, size, minBase);
            && r.base >= 0 && r.frames >= 0 && r.base % PAGE == 0 && r.base / PAGE + r.frames <= MAX_FRAMES
            && r.Frames() == (if size == 0 then {} else PagesInside(Max(base, minBase), base + size))
            && (r.frames > 0 ==> r.base >= minBase && r.base + r.frames * PAGE <= base + size)
  {
  }

  lemma RunBounds(i: nat, count: nat)
    ensures forall f :: f in Run(i, count) <==> i <= f < i + count
  {
  }

  /** Rounding an already rounded range changes nothing: init_region sees what init computed. */
  lemma FreeableIdempotent(base: int, size: int, minBase: int)
    requires 0 <= base < W32 && 0 <= size < W32 && 0 < minBase < W32 && minBase % PAGE == 0
    ensures var r := FreeablePageRange(base, size, minBase);
            r.frames > 0 ==> r.Size() == r.frames * PAGE && FreeablePageRange(r.base, r.Size(), 0) == r
  {
  }

  /** The outward rounding covers exactly the touched frames, unless the end lies in the last page or wraps. */
  lemma CoveredExact(base: int, size: int)
    requires 0 <= base < W32 && 0 < size < W32
    ensures var r := CoveredPageRange(base, size);
            && r.base >= 0 && r.frames >= 0 && r.base % PAGE == 0 && r.base / PAGE + r.frames <= MAX_FRAMES
            && (r.Frames() == PagesTouching(base, base + size) <==> base + size <= W32 - PAGE)
  {
    var r := CoveredPageRange(base, size);
    CoveredEnds(base, size);
    RunBounds(r.base / PAGE, r.frames);
    hide CoveredPageRange;
    if base + size <= W32 - PAGE {
      forall f: nat ensures f in r.Frames() <==> f in PagesTouching(base, base + size) {
        TouchedBetween(f, base, base + size, r.base / PAGE, r.base / PAGE + r.frames);
      }
    } else {
      var last: nat := MAX_FRAMES - 1;
      assert Touches(last, base, base + size) && last in PagesTouching(base, base + size);
    }
  }

  /** One byte in the last page: the rounded end wraps to zero, and no frame is covered. */
  lemma CoveredWrapExample()
    ensures CoveredPageRange(0xFFFF_F000, 1) == EmptyRange && 0xF_FFFF in PagesTouching(0xFFFF_F000, 0xFFFF_F001)
  {
    var last: nat := 0xF_FFFF;
    hide AlignUp, AlignDown;
    AlignUpPage(0xFFFF_F001);
    assert Touches(last, 0xFFFF_F000, 0xFFFF_F001);
  }

  /** First and last frame of the rounded range; past the last page it stops short. */
  lemma CoveredEnds(base: int, size: int)
    requires 0 <= base < W32 && 0 < size < W32
    ensures var r := CoveredPageRange(base, size);
            && r.base >= 0 && r.frames >= 0 && r.base % PAGE == 0 && r.base / PAGE + r.frames <= MAX_FRAMES
            && (base + size <= W32 - PAGE ==>
                r.base == base / PAGE * PAGE
                  && (r.base / PAGE + r.frames - 1) * PAGE < base + size <= (r.base / PAGE + r.frames) * PAGE)
            && (base + size > W32 - PAGE ==> r.base / PAGE + r.frames < MAX_FRAMES)
  {
    CoveredIs(base, size);
    hide AlignUp, CoveredPageRange;
    AlignUpPage((base + size) % W32);
    RangeEnds(base, size, AlignUp((base + size) % W32, PAGE));
  }

  lemma CoveredIs(base: int, size: int)
    requires 0 <= base < W32 && 0 < size < W32
    ensures var start, end := base / PAGE * PAGE, AlignUp((base + size) % W32, PAGE);
            CoveredPageRange(base, size) == if end <= start then EmptyRange else PageRange(start, (end - start) / PAGE)
  {
    hide AlignUp, AlignDown;
    AlignPage(base);
  }

  lemma RangeEnds(base: int, size: int, end: int)
    requires 0 <= base < W32 && 0 < size < W32 && end % PAGE == 0
    requires var e := (base + size) % W32; if e <= W32 - PAGE then e <= end < e + PAGE else end == 0
    ensures var start := base / PAGE * PAGE;
            && 0 <= start && start % PAGE == 0 && start / PAGE == base / PAGE < MAX_FRAMES
            && (start < end ==> start / PAGE + (end - start) / PAGE == end / PAGE <= MAX_FRAMES)
            && (base + size <= W32 - PAGE ==> start < end && (end / PAGE - 1) * PAGE < base + size <= end / PAGE * PAGE)
            && (base + size > W32 - PAGE ==> start < end ==> end / PAGE < MAX_FRAMES)
            && (base + size > W32 - PAGE && end <= start ==> 0 < MAX_FRAMES)
  {
    var q, k := base / 4096, end / 4096;
    assert end == 4096 * k && base / PAGE * PAGE == 4096 * q;
    if base + size >= W32 { assert (base + size) % W32 == base + size - W32; }
  }

  lemma TouchedBetween(f: nat, lo: int, hi: int, first: int, end: int)
    requires 0 <= lo < hi && first == lo / PAGE && (end - 1) * PAGE < hi <= end * PAGE
    ensures Touches(f, lo, hi) <==> first <= f < end
  {
  }

  // ---- the boot memory map ----------------------------------------------------------------------

  /** One entry of the Multiboot memory map (section 3.3 of the Multiboot Specification), 64-bit fields. */
  datatype MapEntry = MapEntry(addr: int, len: int, kind: int)

  datatype BootModule = BootModule(start: int, end: int)

  ghost predicate ValidEntry(e: MapEntry)
  {
    e.kind == AVAILABLE ==> 0 <= e.addr && 0 <= e.len < W32 && e.addr + e.len <= W32 && e.addr < W32
  }

  ghost predicate ValidMap(es: seq<MapEntry>)
  {
    && (forall i :: 0 <= i < |es| ==> ValidEntry(es[i]))
    && (forall i, j :: 0 <= i < j < |es| && es[i].kind == AVAILABLE && es[j].kind == AVAILABLE ==>
          es[i].addr + es[i].len <= es[j].addr || es[j].addr + es[j].len <= es[i].addr)
  }

  /** Frames above 1 MiB that lie wholly inside one AVAILABLE entry. */
  ghost function EntryFrames(e: MapEntry): set<nat>
  {
    if e.kind != AVAILABLE || e.len == 0 then {} else PagesInside(Max(e.addr, LOW_USABLE_BASE), e.addr + e.len)
  }

  ghost function MapFrames(es: seq<MapEntry>): set<nat>
  {
    if es == [] then {} else MapFrames(es[..|es| - 1]) + EntryFrames(es[|es| - 1])
  }

  lemma {:induction false} MapFramesMeaning(es: seq<MapEntry>, f: nat)
    ensures f in MapFrames(es) <==> exists i :: 0 <= i < |es| && f in EntryFrames(es[i])
  {
    if es != [] {
      var n := |es| - 1;
      MapFramesMeaning(es[..n], f);
      if f in MapFrames(es[..n]) {
        var i :| 0 <= i < |es[..n]| && f in EntryFrames(es[..n][i]);
        assert f in EntryFrames(es[i]);
      }
      if i :| 0 <= i < |es| && f in EntryFrames(es[i]) {
        if i < n { assert f in EntryFrames(es[..n][i]); }
      }
    }
  }

  /** Disjoint entries share no frame. */
  lemma EntriesDisjoint(es: seq<MapEntry>, n: nat)
    requires ValidMap(es) && n < |es|
    ensures MapFrames(es[..n]) !! EntryFrames(es[n])
  {
    forall f | f in MapFrames(es[..n]) ensures f !in EntryFrames(es[n]) {
      MapFramesMeaning(es[..n], f);
      var i :| 0 <= i < n && f in EntryFrames(es[..n][i]);
      assert f in EntryFrames(es[i]);
      OneEntry(es[i], es[n], f);
    }
  }

  lemma OneEntry(a: MapEntry, b: MapEntry, f: nat)
    requires f in EntryFrames(a)
    requires a.kind == b.kind == AVAILABLE ==> a.addr + a.len <= b.addr || b.addr + b.len <= a.addr
    ensures f !in EntryFrames(b)
  {
  }

  // ---- reservations -----------------------------------------------------------------------------

  /** What deinit_region takes out for a span whose size was itself rounded outwards first. */
  ghost function SpanFrames(start: int, end: int): set<nat>
    requires 0 <= start < W32
  {
    Covered(start, CoveredPageRange(start, (end - start) % W32).Size())
  }

  ghost function Covered(base: int, size: int): set<nat>
    requires 0 <= base < W32
  {
    var r := CoveredPageRange(base, size);
    CoveredBounds(base, size);
    r.Frames()
  }

  lemma CoveredBounds(base: int, size: int)
    requires 0 <= base < W32
    ensures var r := CoveredPageRange(base, size);
            r.base >= 0 && r.frames >= 0 && r.base % PAGE == 0 && r.base / PAGE + r.frames <= MAX_FRAMES
  {
    hide AlignUp, AlignDown;
    AlignPage(base);
    AlignPage((base + size) % W32);
  }

  ghost function ModuleFrames(ms: seq<BootModule>): set<nat>
    requires forall i :: 0 <= i < |ms| ==> 0 <= ms[i].start < W32
  {
    if ms == [] then {} else ModuleFrames(ms[..|ms| - 1]) + SpanFrames(ms[|ms| - 1].start, ms[|ms| - 1].end)
  }

  /** multiboot::max_module_end_aligned */
  ghost function MaxModuleEnd(ms: seq<BootModule>): int
  {
    if ms == [] then 0 else Max(MaxModuleEnd(ms[..|ms| - 1]), AlignUp(ms[|ms| - 1].end, PAGE))
  }

  ghost function LowEnd(kernelEnd: int, ms: seq<BootModule>): int
  {
    Max(AlignUp(kernelEnd, PAGE), MaxModuleEnd(ms))
  }

  /** Kernel image, boot modules and everything between 1 MiB and their common end. */
  ghost function Reserved(kernelStart: int, kernelEnd: int, ms: seq<BootModule>): set<nat>
    requires 0 <= kernelStart < W32 && forall i :: 0 <= i < |ms| ==> 0 <= ms[i].start < W32
  {
    SpanFrames(kernelStart, kernelEnd) + ModuleFrames(ms) + LowFrames(LowEnd(kernelEnd, ms))
  }

  ghost function LowFrames(low: int): set<nat>
  {
    if low > LOW_USABLE_BASE then Covered(LOW_USABLE_BASE, low - LOW_USABLE_BASE) else {}
  }

  /** Every module lies below the common end. */
  lemma {:induction false} ModuleBelowEnd(ms: seq<BootModule>, i: int)
    requires 0 <= i < |ms| && forall j :: 0 <= j < |ms| ==> 0 <= ms[j].end <= W32 - PAGE
    ensures ms[i].end <= MaxModuleEnd(ms)
  {
    var n := |ms| - 1;
    AlignUpPage(ms[n].end);
    if i < n { ModuleBelowEnd(ms[..n], i); assert ms[..n][i] == ms[i]; }
  }

  lemma {:induction false} MaxModuleEndAligned(ms: seq<BootModule>)
    requires forall j :: 0 <= j < |ms| ==> 0 <= ms[j].end <= W32 - PAGE
    ensures MaxModuleEnd(ms) % PAGE == 0 && 0 <= MaxModuleEnd(ms) <= W32 - PAGE
  {
    if ms != [] {
      var n := |ms| - 1;
      AlignUpPage(ms[n].end);
      PageMultiples(AlignUp(ms[n].end, PAGE), W32 - PAGE);
      MaxModuleEndAligned(ms[..n]);
    }
  }

  /**
   A frame that survives the reservations is page-aligned RAM: nonzero, wholly inside an AVAILABLE entry, at
   or above 1 MiB, and at or above the end of the kernel and of every boot module.
   */
  lemma ArenaIsSafe(es: seq<MapEntry>, kernelStart: int, kernelEnd: int, ms: seq<BootModule>, f: nat)
    requires ValidMap(es) && 0 <= kernelStart < W32 && 0 <= kernelEnd <= W32 - PAGE
    requires forall j :: 0 <= j < |ms| ==> 0 <= ms[j].start < W32 && 0 <= ms[j].end <= W32 - PAGE
    requires f in MapFrames(es) - Reserved(kernelStart, kernelEnd, ms)
    ensures f * PAGE >= LOW_USABLE_BASE && (f + 1) * PAGE <= W32
    ensures exists i ::
              && 0 <= i < |es| && es[i].kind == AVAILABLE
              && es[i].addr <= f * PAGE && (f + 1) * PAGE <= es[i].addr + es[i].len
    ensures f * PAGE >= kernelEnd && forall j :: 0 <= j < |ms| ==> f * PAGE >= ms[j].end
  {
    hide MapFrames, Reserved, LowEnd, MaxModuleEnd, PagesInside, SpanFrames, ModuleFrames;
    MapFramesMeaning(es, f);
    var i :| 0 <= i < |es| && f in EntryFrames(es[i]);
    InsideEntry(es[i], f);
    LowEndFacts(kernelEnd, ms);
    AboveLowEnd(kernelStart, kernelEnd, ms, f);
    forall j | 0 <= j < |ms| ensures f * PAGE >= ms[j].end { ModuleBelowEnd(ms, j); }
  }

  /** The reserved low area reaches the end of the kernel image exactly when that end is not in the last page. */
  lemma LowEndExact(kernelEnd: int)
    requires 0 <= kernelEnd < W32
    ensures LowEnd(kernelEnd, []) >= kernelEnd <==> kernelEnd <= W32 - PAGE
  {
    hide AlignUp;
    AlignUpPage(kernelEnd);
  }

  /** A kernel that ends inside the last page reserves nothing below its end. */
  lemma LowEndWrapExample()
    ensures LowEnd(0xFFFF_F001, []) == 0
  {
    hide AlignUp;
    AlignUpPage(0xFFFF_F001);
  }

  lemma InsideEntry(e: MapEntry, f: nat)
    requires f in EntryFrames(e)
    ensures e.kind == AVAILABLE && LOW_USABLE_BASE <= f * PAGE && e.addr <= f * PAGE && (f + 1) * PAGE <= e.addr + e.len
    ensures f < MAX_FRAMES
  {
  }

  lemma LowEndFacts(kernelEnd: int, ms: seq<BootModule>)
    requires 0 <= kernelEnd <= W32 - PAGE && forall j :: 0 <= j < |ms| ==> 0 <= ms[j].end <= W32 - PAGE
    ensures var low := LowEnd(kernelEnd, ms);
            low % PAGE == 0 && kernelEnd <= low <= W32 - PAGE && MaxModuleEnd(ms) <= low
  {
    hide MaxModuleEnd;
    AlignUpPage(kernelEnd);
    PageMultiples(AlignUp(kernelEnd, PAGE), W32 - PAGE);
    MaxModuleEndAligned(ms);
  }

  lemma AboveLowEnd(kernelStart: int, kernelEnd: int, ms: seq<BootModule>, f: nat)
    requires 0 <= kernelStart < W32 && forall j :: 0 <= j < |ms| ==> 0 <= ms[j].start < W32
    requires LowEnd(kernelEnd, ms) % PAGE == 0 && LowEnd(kernelEnd, ms) <= W32 - PAGE
    requires f < MAX_FRAMES && LOW_USABLE_BASE <= f * PAGE && f !in Reserved(kernelStart, kernelEnd, ms)
    ensures f * PAGE >= LowEnd(kernelEnd, ms)
  {
    hide LowEnd, SpanFrames, ModuleFrames;
    var low := LowEnd(kernelEnd, ms);
    if low > LOW_USABLE_BASE {
      CoveredExact(LOW_USABLE_BASE, low - LOW_USABLE_BASE);
      assert f !in PagesTouching(LOW_USABLE_BASE, low);
      assert !Touches(f, LOW_USABLE_BASE, low);
    }
  }

  // ---- the manager ------------------------------------------------------------------------------

  /** The used bits are all frames outside the arena plus the owned ones; `free` counts the rest. */
  ghost predicate Books(bits: set<nat>, arena: set<nat>, owned: set<nat>, free: int)
  {
    && owned <= arena <= Run(0, MAX_FRAMES)
    && bits == Run(0, MAX_FRAMES) - arena + owned
    && |arena - owned| == free
    && (forall f :: f in arena ==> f * PAGE >= LOW_USABLE_BASE)
  }

  /** `frames` minus `taken` are free, and `used` counts the frames taken out of them. */
  ghost predicate Taken(bits: set<nat>, used: int, frames: set<nat>, taken: set<nat>)
  {
    bits == Run(0, MAX_FRAMES) - frames + taken && used == |frames * taken|
  }

  class PhysicalMemory {
    const mem: FixedBitmap
    var availableFrames: int
    var usedFrames: int
    /** Frames that boot left to the allocator, and those of them currently handed out. */
    ghost var arena: set<nat>
    ghost var owned: set<nat>

    ghost predicate Backed()
      reads mem, mem.bitmap
    {
      mem.Valid() && mem.base == 0 && mem.maxUnits == MAX_FRAMES && mem.unitSize == PAGE
    }

    /** The bitmap is exactly the complement of the arena plus what is owned; the counters give the free frames. */
    ghost predicate Valid()
      reads this, mem, mem.bitmap
    {
      Backed() && Books(Bits(), arena, owned, availableFrames - usedFrames)
    }

    constructor ()
      ensures Backed() && Bits() == {} && fresh(mem) && fresh(mem.bitmap)
    {
      availableFrames, usedFrames := 0, 0;
      arena, owned := {}, {};
      assert Window(0, MAX_FRAMES, PAGE);
      mem := new FixedBitmap(0, MAX_FRAMES, PAGE);
    }

    /** Frames the bitmap marks as used. */
    ghost function Bits(): set<nat>
      requires Backed()
      reads mem, mem.bitmap
    {
      mem.Used()
    }

    /** init_region */
    method InitRegion(base: int, size: int)
      requires Backed() && 0 <= base < W32 && 0 <= size < W32
      modifies mem`allocatedUnits, mem.bitmap
      ensures Backed()
      ensures var r := FreeablePageRange(base, size, 0);
              r.base >= 0 && r.frames >= 0 && Bits() == old(Bits()) - r.Frames()
    {
      hide Run, From, Bits, Backed, FreeablePageRange, PagesInside;
      var range := FreeablePageRange(base, size, 0);
      FreeableExact(base, size, 0);
      RunEmpty(range.base / PAGE);
      if range.frames == 0 {
        return;
      }
      ClearBits(range.base, range.frames);
    }

    method ClearBits(base: int, frames: nat)
      requires Backed() && 0 <= base < W32 && base % PAGE == 0 && FrameOf(base) + frames <= MAX_FRAMES
      modifies mem`allocatedUnits, mem.bitmap
      ensures Backed() && Bits() == old(Bits()) - Run(FrameOf(base), frames)
    {
      hide Run, From;
      RunEmpty(FrameOf(base));
      var _ := mem.MarkUnitsFree(base, frames);
    }

    method SetBits(base: int, frames: nat)
      requires Backed() && 0 <= base < W32 && base % PAGE == 0 && FrameOf(base) + frames <= MAX_FRAMES
      modifies mem`allocatedUnits, mem.bitmap
      ensures Backed() && Bits() == old(Bits()) + Run(FrameOf(base), frames)
    {
      hide Run, From;
      RunEmpty(FrameOf(base));
      var _ := mem.MarkUnitsUsed(base, frames);
    }

    /** frame_used */
    method FrameUsed(addr: int) returns (used: bool)
      requires Backed() && 0 <= addr < W32
      ensures used <==> addr % PAGE == 0 && FrameOf(addr) in Bits()
    {
      hide Run, From;
      used := mem.IsAllocated(addr);
      OneUnit(FrameOf(addr), Bits());
      FrameBound(addr);
    }

    /** deinit_region: counts the frames that were free, marks the range used, and adds that count. */
    method DeinitRegion(base: int, size: int)
      requires Backed() && 0 <= base < W32
      modifies this`usedFrames, mem`allocatedUnits, mem.bitmap
      ensures Backed() && Bits() == old(Bits()) + Covered(base, size)
      ensures usedFrames - old(usedFrames) == |Covered(base, size) - old(Bits())|
    {
      hide Run, From, Bits, Backed, CoveredPageRange;
      var range := CoveredPageRange(base, size);
      CoveredBounds(base, size);
      RunEmpty(range.base / PAGE);
      if range.frames == 0 {
        return;
      }
      ghost var first: nat, before := range.base / PAGE, Bits();
      var usedBefore := CountUsed(range.base, range.frames);
      SetBits(range.base, range.frames);
      usedFrames := usedFrames + range.frames - usedBefore;
      RunSize(first, range.frames);
      CardSplit(Run(first, range.frames), before);
    }

    /** The counting loop of deinit_region. */
    method CountUsed(base: int, frames: nat) returns (n: nat)
      requires Backed() && base >= 0 && base % PAGE == 0 && base / PAGE + frames <= MAX_FRAMES
      ensures n == |Run(base / PAGE, frames) * Bits()|
    {
      hide Run, From, Bits, Backed, FrameOf;
      ghost var first: nat := base / PAGE;
      n := 0;
      var i := 0;
      RunEmpty(first);
      while i < frames
        invariant 0 <= i <= frames
        invariant n == |Run(first, i) * Bits()|
      {
        UnitAddress(base, i);
        var used := FrameUsed(base + i * PAGE);
        OneMore(first, i, Bits());
        if used {
          n := n + 1;
        }
        i := i + 1;
      }
    }

    /** init: builds the free set from the memory map, then takes kernel, modules and low memory out again. */
    method Init(es: seq<MapEntry>, kernelStart: int, kernelEnd: int, ms: seq<BootModule>)
      requires Backed() && ValidMap(es) && 0 <= kernelStart < W32 && 0 <= kernelEnd < W32
      requires forall j :: 0 <= j < |ms| ==> 0 <= ms[j].start < W32 && 0 <= ms[j].end < W32
      modifies this, mem`allocatedUnits, mem.bitmap
      ensures Valid() && owned == {} && arena == MapFrames(es) - Reserved(kernelStart, kernelEnd, ms)
      ensures availableFrames == |MapFrames(es)|
    {
      hide Bits, MapFrames, Backed, Covered, SpanFrames, ModuleFrames, LowEnd, LowFrames, Reserved, Run, From;
      hide ValidMap, Books, Taken;
      BuildMap(es);
      ghost var frames := MapFrames(es);
      MapInWindow(es);
      var low := FindLowEnd(kernelEnd, ms);
      ReserveImages(kernelStart, kernelEnd, ms, frames);
      ReserveLow(low, frames, SpanFrames(kernelStart, kernelEnd) + ModuleFrames(ms));
      ReservedParts(kernelStart, kernelEnd, ms);
      ReservedInWindow(kernelStart, kernelEnd, ms);
      ghost var taken := Reserved(kernelStart, kernelEnd, ms);
      arena, owned := frames - taken, {};
      ArenaSettled(es, frames, taken, Bits(), usedFrames, arena);
    }

    /** Takes the whole low bootstrap area out. */
    method ReserveLow(low: int, ghost frames: set<nat>, ghost taken: set<nat>)
      requires Backed() && frames <= Run(0, MAX_FRAMES)
      requires Taken(Bits(), usedFrames, frames, taken)
      modifies this`usedFrames, mem`allocatedUnits, mem.bitmap
      ensures Backed()
      ensures Taken(Bits(), usedFrames, frames, taken + LowFrames(low))
    {
      hide Bits, Backed, Covered, Run, From, Taken;
      assert taken + {} == taken;
      if low > LOW_USABLE_BASE {
        ghost var used := Bits();
        CoveredInWindow(LOW_USABLE_BASE, low - LOW_USABLE_BASE);
        DeinitRegion(LOW_USABLE_BASE, low - LOW_USABLE_BASE);
        Reserve(frames, taken, Covered(LOW_USABLE_BASE, low - LOW_USABLE_BASE), used, old(usedFrames));
      }
    }

    /** Everything used, then the memory-map loop. */
    method BuildMap(es: seq<MapEntry>)
      requires Backed() && ValidMap(es)
      modifies this`availableFrames, this`usedFrames, mem`allocatedUnits, mem.bitmap
      ensures Backed() && usedFrames == 0
      ensures Bits() == Run(0, MAX_FRAMES) - MapFrames(es) && availableFrames == |MapFrames(es)|
    {
      hide Bits, MapFrames, Backed, Run, From, ValidMap;
      availableFrames, usedFrames := 0, 0;
      MarkEverything();
      NoEntries(es);
      for i := 0 to |es|
        invariant Backed() && usedFrames == 0
        invariant Bits() == Run(0, MAX_FRAMES) - MapFrames(es[..i]) && availableFrames == |MapFrames(es[..i])|
      {
        AddEntry(es, i);
      }
      assert es[..|es|] == es;
    }

    method MarkEverything()
      requires Backed()
      modifies mem`allocatedUnits, mem.bitmap
      ensures Backed() && Bits() == Run(0, MAX_FRAMES)
    {
      UsedInWindow();
      var _ := mem.MarkUnitsUsed(0, MAX_FRAMES);
    }

    lemma UsedInWindow()
      requires Backed()
      ensures Bits() <= Run(0, MAX_FRAMES)
    {
    }

    /** One turn of the memory-map loop. */
    method AddEntry(es: seq<MapEntry>, i: nat)
      requires Backed() && ValidMap(es) && i < |es|
      requires Bits() == Run(0, MAX_FRAMES) - MapFrames(es[..i]) && availableFrames == |MapFrames(es[..i])|
      modifies this`availableFrames, mem`allocatedUnits, mem.bitmap
      ensures Backed()
      ensures Bits() == Run(0, MAX_FRAMES) - MapFrames(es[..i + 1]) && availableFrames == |MapFrames(es[..i + 1])|
    {
      hide Bits, MapFrames, PagesInside, FreeablePageRange, Run, From, Backed;
      var base, length := es[i].addr % W32, es[i].len % W32;
      NextEntry(es, i);
      if es[i].kind == AVAILABLE {
        var range := FreeablePageRange(base, length, LOW_USABLE_BASE);
        FreeableExact(base, length, LOW_USABLE_BASE);
        RunEmpty(range.base / PAGE);
        if range.frames != 0 {
          FreeableIdempotent(base, length, LOW_USABLE_BASE);
          RunSize(range.base / PAGE, range.frames);
          availableFrames := availableFrames + range.frames;
          InitRegion(range.base, range.Size());
        }
      }
    }

    /** End of the kernel image and of all boot modules, rounded up. */
    method FindLowEnd(kernelEnd: int, ms: seq<BootModule>) returns (low: int)
      ensures low == LowEnd(kernelEnd, ms)
    {
      hide AlignUp;
      low := AlignUp(kernelEnd, PAGE);
      var modulesEnd := 0;
      for i := 0 to |ms|
        invariant modulesEnd == MaxModuleEnd(ms[..i])
      {
        assert ms[..i + 1][..i] == ms[..i];
        var alignedEnd := AlignUp(ms[i].end, PAGE);
        if alignedEnd > modulesEnd {
          modulesEnd := alignedEnd;
        }
      }
      assert ms[..|ms|] == ms;
      if modulesEnd > low {
        low := modulesEnd;
      }
    }

    /** Takes the pages of one image out. */
    method ReserveSpan(start: int, end: int, ghost frames: set<nat>, ghost taken: set<nat>)
      requires Backed() && 0 <= start < W32
      requires Taken(Bits(), usedFrames, frames, taken)
      modifies this`usedFrames, mem`allocatedUnits, mem.bitmap
      ensures Backed()
      ensures Taken(Bits(), usedFrames, frames, taken + SpanFrames(start, end))
    {
      hide Bits, Covered, CoveredPageRange, Run, From, Backed, Taken;
      ghost var used := Bits();
      SpanInWindow(start, end);
      DeinitRegion(start, CoveredPageRange(start, (end - start) % W32).Size());
      Reserve(frames, taken, SpanFrames(start, end), used, old(usedFrames));
    }

    /** Takes the kernel image and the boot modules out. */
    method ReserveImages(kernelStart: int, kernelEnd: int, ms: seq<BootModule>, ghost frames: set<nat>)
      requires Backed() && 0 <= kernelStart < W32
      requires forall j :: 0 <= j < |ms| ==> 0 <= ms[j].start < W32
      requires Bits() == Run(0, MAX_FRAMES) - frames && usedFrames == 0
      modifies this`usedFrames, mem`allocatedUnits, mem.bitmap
      ensures Backed()
      ensures Taken(Bits(), usedFrames, frames, SpanFrames(kernelStart, kernelEnd) + ModuleFrames(ms))
    {
      hide Bits, SpanFrames, Run, From, Backed;
      ReserveSpan(kernelStart, kernelEnd, frames, {});
      ghost var kernel := SpanFrames(kernelStart, kernelEnd);
      assert {} + kernel == kernel && kernel + {} == kernel;
      for i := 0 to |ms|
        invariant Backed()
        invariant Taken(Bits(), usedFrames, frames, kernel + ModuleFrames(ms[..i]))
      {
        assert ms[..i + 1][..i] == ms[..i];
        ReserveSpan(ms[i].start, ms[i].end, frames, kernel + ModuleFrames(ms[..i]));
        assert kernel + ModuleFrames(ms[..i]) + SpanFrames(ms[i].start, ms[i].end)
            == kernel + ModuleFrames(ms[..i + 1]);
      }
      assert ms[..|ms|] == ms;
    }

    /** alloc_frames: the lowest free run; frames nobody owns; panics exactly when no run is free. */
    method AllocFrames(count: nat) returns (r: Outcome, ghost at: nat)
      requires Valid()
      modifies this`usedFrames, this`owned, mem`allocatedUnits, mem.bitmap
      ensures Valid() && arena == old(arena) && availableFrames == old(availableFrames)
      ensures r.Panic? <==> count > 0 && forall k: nat :: k + count <= MAX_FRAMES ==>
                !(Run(k, count) <= old(arena - owned))
      ensures r.Panic? || count == 0 ==> owned == old(owned) && usedFrames == old(usedFrames)
      ensures r.Done? && count > 0 ==>
                && Run(at, count) <= old(arena - owned) && owned == old(owned) + Run(at, count)
                && (forall k: nat :: k < at ==> !(Run(k, count) <= old(arena - owned)))
                && usedFrames == old(usedFrames) + count
                && r.addr == at * PAGE && r.addr % PAGE == 0 && r.addr >= LOW_USABLE_BASE
    {
      hide Run, From, Bits, Backed, FreeRun, FirstFit, Books;
      ghost var free, used := arena - owned, Bits();
      forall k: nat ensures FreeRun(used, MAX_FRAMES, count, k) <==> k + count <= MAX_FRAMES && Run(k, count) <= free {
        RunIsFree(used, arena, owned, availableFrames - usedFrames, count, k);
      }
      r, at := TakeBits(count);
      if r.Panic? || count == 0 {
        return;
      }
      LowestFree(used, count, at);
      Handed(used, arena, owned, availableFrames - usedFrames, at, count);
      usedFrames := usedFrames + count;
      owned := owned + Run(at, count);
    }

    method TakeBits(count: nat) returns (r: Outcome, ghost at: nat)
      requires Backed()
      modifies mem`allocatedUnits, mem.bitmap
      ensures Backed()
      ensures r.Panic? <==> count > 0 && forall k: nat :: !FreeRun(old(Bits()), MAX_FRAMES, count, k)
      ensures r.Panic? || count == 0 ==> Bits() == old(Bits())
      ensures r.Done? && count > 0 ==>
                && FirstFit(old(Bits()), MAX_FRAMES, count, at) && Bits() == old(Bits()) + Run(at, count)
                && r.addr == at * PAGE
    {
      hide Run, From, FreeRun, FirstFit;
      ghost var used := Bits();
      assert mem.Used() == used && mem.maxUnits == MAX_FRAMES;
      r, at := mem.AllocUnits(count);
    }

    /** The frames from addr on, when addr starts a frame and all of them are marked used. */
    ghost predicate Returnable(addr: int, count: nat, bits: set<nat>)
    {
      0 <= addr && addr % PAGE == 0 && FrameOf(addr) + count <= MAX_FRAMES && Run(FrameOf(addr), count) <= bits
    }

    method ReturnBits(addr: int, count: nat) returns (r: Outcome)
      requires Backed() && 0 <= addr < W32 && mem.NoWrap(addr, count)
      modifies mem`allocatedUnits, mem.bitmap
      ensures r.Done? <==> count == 0 || Returnable(addr, count, old(Bits()))
      ensures r.Done? ==> Backed() && Bits() == old(Bits()) - Run(FrameOf(addr), count)
    {
      hide Run, From, FixedBitmap.NoWrap, FixedBitmap.Owned, FixedBitmap.UnitOf;
      RunEmpty(FrameOf(addr));
      OwnedIs(addr, count, Bits());
      r := mem.FreeUnits(addr, count);
    }

    lemma OwnedIs(addr: int, count: nat, bits: set<nat>)
      requires Backed() && 0 <= addr < W32
      ensures mem.Owned(addr, count, bits) <==> Returnable(addr, count, bits)
      ensures mem.UnitOf(addr) == FrameOf(addr) >= 0
    {
    }

    /**
     free_frames: panics exactly when addr starts no frame or some frame is not in use. Frames that are owned go back
     to the free ones, and the books stay right.
     */
    method FreeFramesAt(addr: int, count: nat) returns (r: Outcome)
      requires Backed() && 0 <= addr < W32 && mem.NoWrap(addr, count)
      modifies this`usedFrames, this`owned, mem`allocatedUnits, mem.bitmap
      ensures r.Done? <==> count == 0 || Returnable(addr, count, old(Bits()))
      ensures r.Done? ==>
                && Backed() && Bits() == old(Bits()) - Run(FrameOf(addr), count)
                && owned == old(owned) - Run(FrameOf(addr), count) && usedFrames == old(usedFrames) - count
      ensures old(Valid()) && Returnable(addr, count, old(owned)) ==> r.Done? && Valid()
    {
      hide Run, From, Bits, Backed, FrameOf, Books;
      ghost var bits, free, known := Bits(), availableFrames - usedFrames, Valid() && Returnable(addr, count, owned);
      if known { Returned(bits, arena, owned, free, FrameOf(addr), count); }
      r := ReturnBits(addr, count);
      if r.Panic? {
        return;
      }
      usedFrames := usedFrames - count;
      owned := owned - Run(FrameOf(addr), count);
      assert known ==> Books(Bits(), arena, owned, free + count);
    }
  }

  lemma ReservedParts(kernelStart: int, kernelEnd: int, ms: seq<BootModule>)
    requires 0 <= kernelStart < W32 && forall i :: 0 <= i < |ms| ==> 0 <= ms[i].start < W32
    ensures Reserved(kernelStart, kernelEnd, ms) ==
            SpanFrames(kernelStart, kernelEnd) + ModuleFrames(ms) + LowFrames(LowEnd(kernelEnd, ms))
  {
  }

  lemma NoEntries(es: seq<MapEntry>)
    ensures MapFrames(es[..0]) == {}
  {
  }

  lemma MapInWindow(es: seq<MapEntry>)
    ensures MapFrames(es) <= Run(0, MAX_FRAMES)
  {
  }

  lemma CoveredInWindow(base: int, size: int)
    requires 0 <= base < W32
    ensures Covered(base, size) <= Run(0, MAX_FRAMES)
  {
    hide CoveredPageRange;
    CoveredBounds(base, size);
    var r := CoveredPageRange(base, size);
    RunBounds(r.base / PAGE, r.frames);
    RunBounds(0, MAX_FRAMES);
  }

  lemma SpanInWindow(start: int, end: int)
    requires 0 <= start < W32
    ensures SpanFrames(start, end) <= Run(0, MAX_FRAMES)
  {
    hide CoveredPageRange, Covered, Run;
    CoveredInWindow(start, CoveredPageRange(start, (end - start) % W32).Size());
  }

  lemma {:induction false} ModulesInWindow(ms: seq<BootModule>)
    requires forall i :: 0 <= i < |ms| ==> 0 <= ms[i].start < W32
    ensures ModuleFrames(ms) <= Run(0, MAX_FRAMES)
  {
    if ms != [] {
      ModulesInWindow(ms[..|ms| - 1]);
      SpanInWindow(ms[|ms| - 1].start, ms[|ms| - 1].end);
    }
  }

  lemma ReservedInWindow(kernelStart: int, kernelEnd: int, ms: seq<BootModule>)
    requires 0 <= kernelStart < W32 && forall i :: 0 <= i < |ms| ==> 0 <= ms[i].start < W32
    ensures Reserved(kernelStart, kernelEnd, ms) <= Run(0, MAX_FRAMES)
  {
    hide SpanFrames, Covered, Run, ModuleFrames;
    SpanInWindow(kernelStart, kernelEnd);
    ModulesInWindow(ms);
    CoveredInWindow(LOW_USABLE_BASE, LowEnd(kernelEnd, ms) - LOW_USABLE_BASE);
  }

  lemma NextEntry(es: seq<MapEntry>, i: nat)
    requires ValidMap(es) && i < |es|
    ensures MapFrames(es[..i + 1]) == MapFrames(es[..i]) + EntryFrames(es[i])
    ensures |MapFrames(es[..i + 1])| == |MapFrames(es[..i])| + |EntryFrames(es[i])|
    ensures es[i].kind == AVAILABLE ==> es[i].addr % W32 == es[i].addr && es[i].len % W32 == es[i].len
  {
    hide EntryFrames;
    assert es[..i + 1][..i] == es[..i];
    EntriesDisjoint(es, i);
    assert ValidEntry(es[i]);
  }

  /** Taking `c` out of the free frames adds to the count exactly the frames that were still free. */
  lemma Reserve(frames: set<nat>, taken: set<nat>, c: set<nat>, used: set<nat>, count: int)
    requires Taken(used, count, frames, taken) && c <= Run(0, MAX_FRAMES)
    ensures Taken(used + c, count + |c - used|, frames, taken + c)
  {
    assert c - used == frames * (taken + c) - frames * taken;
    CardMinus(frames * (taken + c), frames * taken);
  }

  /** The state after boot in terms of the arena. */
  lemma ArenaSettled(es: seq<MapEntry>, frames: set<nat>, taken: set<nat>, used: set<nat>, count: int, arena: set<nat>)
    requires frames == MapFrames(es) && arena == frames - taken && taken <= Run(0, MAX_FRAMES)
    requires Taken(used, count, frames, taken)
    ensures Books(used, arena, {}, |frames| - count)
  {
    hide Run, MapFrames, EntryFrames;
    MapInWindow(es);
    SettledSets(frames, taken, used, arena, Run(0, MAX_FRAMES));
    forall f | f in arena ensures f * PAGE >= LOW_USABLE_BASE { AboveFloor(es, f); }
  }

  lemma SettledSets(frames: set<nat>, taken: set<nat>, used: set<nat>, arena: set<nat>, all: set<nat>)
    requires frames <= all && taken <= all && arena == frames - taken && used == all - frames + taken
    ensures arena <= all && used == all - arena + {} && |arena - {}| == |frames| - |frames * taken|
  {
    assert arena - {} == arena;
    CardSplit(frames, taken);
  }

  lemma AboveFloor(es: seq<MapEntry>, f: nat)
    requires f in MapFrames(es)
    ensures f * PAGE >= LOW_USABLE_BASE
  {
    MapFramesMeaning(es, f);
    var i :| 0 <= i < |es| && f in EntryFrames(es[i]);
    InsideEntry(es[i], f);
  }

  lemma RunIsFree(bits: set<nat>, arena: set<nat>, owned: set<nat>, free: int, count: nat, k: nat)
    requires Books(bits, arena, owned, free)
    ensures FreeRun(bits, MAX_FRAMES, count, k) <==> k + count <= MAX_FRAMES && Run(k, count) <= arena - owned
  {
  }

  lemma LowestFree(used: set<nat>, count: nat, at: nat)
    requires FirstFit(used, MAX_FRAMES, count, at)
    ensures FreeRun(used, MAX_FRAMES, count, at) && at + count <= MAX_FRAMES
    ensures forall k: nat :: k < at ==> !FreeRun(used, MAX_FRAMES, count, k) && k + count <= MAX_FRAMES
  {
  }

  lemma Handed(bits: set<nat>, arena: set<nat>, owned: set<nat>, free: int, at: nat, count: nat)
    requires Books(bits, arena, owned, free) && count > 0 && Run(at, count) <= arena - owned
    ensures Books(bits + Run(at, count), arena, owned + Run(at, count), free - count)
    ensures at * PAGE >= LOW_USABLE_BASE
  {
    RunSize(at, count);
    RunHas(at, 0, count);
    hide Run;
    assert at in arena;
    assert arena - (owned + Run(at, count)) == (arena - owned) - Run(at, count);
    CardMinus(arena - owned, Run(at, count));
  }

  lemma Returned(bits: set<nat>, arena: set<nat>, owned: set<nat>, free: int, at: nat, count: nat)
    requires Books(bits, arena, owned, free) && Run(at, count) <= owned
    ensures Run(at, count) <= bits && Books(bits - Run(at, count), arena, owned - Run(at, count), free + count)
  {
    hide Run, Books;
    RunSize(at, count);
    GivenBack(bits, arena, owned, free, Run(at, count));
  }

  lemma GivenBack(bits: set<nat>, arena: set<nat>, owned: set<nat>, free: int, run: set<nat>)
    requires Books(bits, arena, owned, free) && run <= owned
    ensures Books(bits - run, arena, owned - run, free + |run|) && run <= bits
  {
  }

  lemma UnitAddress(base: int, i: nat)
    requires base % PAGE == 0 && base >= 0
    ensures (base + i * PAGE) % PAGE == 0 && FrameOf(base + i * PAGE) == base / PAGE + i
  {
  }

  lemma OneUnit(f: nat, used: set<nat>)
    ensures Run(f, 1) <= used <==> f in used
  {
  }

  lemma FrameBound(addr: int)
    requires 0 <= addr < W32
    ensures FrameOf(addr) + 1 <= MAX_FRAMES
  {
  }

  lemma OneMore(first: nat, i: nat, used: set<nat>)
    ensures |Run(first, i + 1) * used| == |Run(first, i) * used| + if first + i in used then 1 else 0
  {
    RunGrows(first, i);
    if first + i in used {
      assert Run(first, i + 1) * used == Run(first, i) * used + {first + i};
    } else {
      assert Run(first, i + 1) * used == Run(first, i) * used;
    }
  }

  lemma CardSplit(s: set<nat>, t: set<nat>)
    ensures |s - t| == |s| - |s * t|
  {
  }
}

/**
 FixedBitmapAllocator (klibcpp/include/klibcpp/bitmap.hpp): 32 units per word, against the plain set of
 units in use.
 */
module Bitmap {
  import opened Machine

  // ---- bits of a word ---------------------------------------------------------------------------

  /** 1u << k */
  function Mask(k: nat): bv32
  {
    if k == 0 then 1 else Mask(k - 1) << 1
  }

  function And(a: bv32, b: bv32): bv32 { a & b }

  function Or(a: bv32, b: bv32): bv32 { a | b }

  function Not(a: bv32): bv32 { !a }

  predicate TestBit(w: bv32, k: nat) { And(w, Mask(k)) != 0 }

  function SetBit(w: bv32, k: nat): bv32 { Or(w, Mask(k)) }

  function ClearBit(w: bv32, k: nat): bv32 { And(w, Not(Mask(k))) }

  lemma Shift(a: bv32, b: bv32)
    ensures (a << 1) & (b << 1) == (a & b) << 1 && (a << 1) & 1 == 0
  {
  }

  /** Doubling `n` times. */
  function Shifted(a: bv32, n: nat): bv32
    decreases n
  {
    if n == 0 then a else Shifted(a << 1, n - 1)
  }

  lemma {:induction false} TopBit(k: nat)
    requires k < 32
    ensures Shifted(Mask(k), 31 - k) == 0x8000_0000
    decreases 31 - k
  {
    if k < 31 { TopBit(k + 1); } else { TopMask(); }
  }

  lemma TopMask()
    ensures Mask(31) == 0x8000_0000
  {
    assert Mask(8) == 0x100 by { assert Mask(4) == 0x10; }
    assert Mask(16) == 0x1_0000 by { assert Mask(12) == 0x1000; }
    assert Mask(24) == 0x100_0000 by { assert Mask(20) == 0x10_0000; }
    assert Mask(28) == 0x1000_0000;
  }

  lemma {:induction false} ShiftedZero(n: nat)
    ensures Shifted(0, n) == 0
  {
    if n > 0 { assert (0 as bv32) << 1 == 0; ShiftedZero(n - 1); }
  }

  lemma MaskNonzero(k: nat)
    requires k < 32
    ensures Mask(k) != 0
  {
    TopBit(k);
    ShiftedZero(31 - k);
  }

  lemma {:induction false} MasksDisjoint(j: nat, k: nat)
    requires j < k < 32
    ensures Mask(j) & Mask(k) == 0
  {
    if j == 0 {
      Shift(Mask(k - 1), 0);
      assert Mask(k) & 1 == 0;
    } else {
      MasksDisjoint(j - 1, k - 1);
      Shift(Mask(j - 1), Mask(k - 1));
    }
  }

  /** Setting or clearing bit k changes what is read at k and nowhere else. */
  lemma {:induction false} BitUpdate(w: bv32, k: nat, j: nat)
    requires k < 32 && j < 32
    ensures TestBit(SetBit(w, k), j) == (j == k || TestBit(w, j))
    ensures TestBit(ClearBit(w, k), j) == (j != k && TestBit(w, j))
  {
    hide Mask, And, Or, Not;
    MaskNonzero(k);
    if j == k {
      OwnBit(w, Mask(k));
    } else {
      DifferentMasks(k, j);
      OrOutside(w, Mask(k), Mask(j));
      AndNotOutside(w, Mask(k), Mask(j));
    }
  }

  lemma DifferentMasks(k: nat, j: nat)
    requires k < 32 && j < 32 && j != k
    ensures And(Mask(j), Mask(k)) == 0
  {
    if j < k { MasksDisjoint(j, k); } else { MasksDisjoint(k, j); AndCommutes(Mask(k), Mask(j)); }
  }

  lemma AndCommutes(a: bv32, b: bv32)
    ensures a & b == b & a
  {
  }

  lemma OwnBit(w: bv32, a: bv32)
    ensures And(Or(w, a), a) == a && And(And(w, Not(a)), a) == 0
  {
  }

  lemma OrOutside(w: bv32, a: bv32, b: bv32)
    requires And(b, a) == 0
    ensures And(Or(w, a), b) == And(w, b)
  {
  }

  lemma AndNotOutside(w: bv32, a: bv32, b: bv32)
    requires And(b, a) == 0
    ensures And(And(w, Not(a)), b) == And(w, b)
  {
  }

  // ---- sets of units ----------------------------------------------------------------------------

  /** The units i, ..., i + count - 1. */
  ghost function Run(i: nat, count: nat): set<nat>
  {
    set j: nat | j < i + count && From(i, j)
  }

  predicate From(i: nat, j: nat) { i <= j }

  ghost predicate FreeRun(used: set<nat>, max: nat, count: nat, i: nat)
  {
    i + count <= max && Run(i, count) !! used
  }

  /** i is the lowest start of a free run. */
  ghost predicate FirstFit(used: set<nat>, max: nat, count: nat, i: nat)
  {
    FreeRun(used, max, count, i) && forall k: nat :: k < i ==> !FreeRun(used, max, count, k)
  }

  lemma {:induction false} RunSize(i: nat, count: nat)
    ensures |Run(i, count)| == count
    decreases count
  {
    if count == 0 {
      assert Run(i, 0) == {};
    } else {
      RunSize(i, count - 1);
      RunGrows(i, count - 1);
    }
  }

  ghost function Without(used: set<nat>, start: nat, count: nat): set<nat> { used - Run(start, count) }

  lemma WithoutNone(used: set<nat>, start: nat)
    ensures Without(used, start, 0) == used
  {
  }

  lemma WithoutNext(used: set<nat>, start: nat, i: nat)
    ensures Without(used, start, i + 1) == Without(used, start, i) - {start + i}
    ensures start + i in Without(used, start, i) <==> start + i in used
    ensures Run(start, i + 1) <= used <==> Run(start, i) <= used && start + i in used
  {
  }

  lemma NotWithin(used: set<nat>, start: nat, i: nat, count: nat)
    requires i < count && start + i !in used
    ensures !(Run(start, count) <= used)
  {
  }

  lemma WithoutSize(used: set<nat>, start: nat, count: nat)
    requires Run(start, count) <= used
    ensures Without(used, start, count) == used - Run(start, count) && |Without(used, start, count)| == |used| - count
  {
    RunSize(start, count);
    CardMinus(used, Run(start, count));
  }

  lemma Scaled(a: nat, b: nat, n: nat)
    requires a <= b
    ensures a * n <= b * n
  {
  }

  lemma OneMoreUnit(a: nat, n: nat)
    ensures (a + 1) * n == a * n + n
  {
  }

  lemma CardMinus(s: set<nat>, t: set<nat>)
    requires t <= s
    ensures |s - t| == |s| - |t|
  {
  }

  lemma RunEmpty(i: nat)
    ensures Run(i, 0) == {}
  {
  }

  lemma RunHas(i: nat, j: nat, count: nat)
    ensures i + j in Run(i, count) <==> j < count
  {
  }

  lemma RunGrows(i: nat, count: nat)
    ensures Run(i, count + 1) == Run(i, count) + {i + count} && i + count !in Run(i, count)
  {
  }

  datatype Fault = RequestTooLarge | OutOfMemory | BelowBase | Unaligned | InvalidRange | DoubleFree

  /** A call either returns or ends in kstd::panic. */
  datatype Outcome = Done(addr: int) | Panic(fault: Fault)

  /** All unit addresses are 32-bit addresses. */
  predicate Window(base: nat, maxUnits: nat, unitSize: nat)
  {
    base + maxUnits * unitSize <= W32
  }

  // ---- the allocator ----------------------------------------------------------------------------

  class FixedBitmap {
    const base: nat
    const maxUnits: nat
    const unitSize: nat
    const bitmap: array<bv32>
    var allocatedUnits: int

    ghost predicate Shape()
    {
      && 0 < maxUnits < W32 && unitSize > 0 && Window(base, maxUnits, unitSize)
      && bitmap.Length == (maxUnits + 31) / 32
    }

    predicate Bit(i: nat)
      requires i / 32 < bitmap.Length
      reads bitmap
    {
      TestBit(bitmap[i / 32], i % 32)
    }

    ghost function Used(): set<nat>
      requires Shape()
      reads bitmap
    {
      set i: nat | i < maxUnits && Bit(i)
    }

    /** The counter agrees with the set bits below maxUnits. */
    ghost predicate Valid()
      reads this, bitmap
    {
      Shape() && allocatedUnits == |Used()|
    }

    constructor (base: nat, maxUnits: nat, unitSize: nat)
      requires 0 < maxUnits < W32 && unitSize > 0 && Window(base, maxUnits, unitSize)
      ensures Valid() && Used() == {} && fresh(bitmap)
      ensures this.base == base && this.maxUnits == maxUnits && this.unitSize == unitSize
    {
      this.base, this.maxUnits, this.unitSize := base, maxUnits, unitSize;
      bitmap := new bv32[(maxUnits + 31) / 32](_ => 0);
      allocatedUnits := 0;
      new;
      NoBits();
    }

    lemma NoBits()
      requires Shape() && forall w :: 0 <= w < bitmap.Length ==> bitmap[w] == 0
      ensures Used() == {}
    {
    }

    /** Index of the unit that starts at addr. */
    function UnitOf(addr: int): int
      requires unitSize > 0
    {
      (addr - base) / unitSize
    }

    /** addr is the start of a unit and `count` units from there are in the window. */
    predicate InWindow(addr: int, count: nat)
      requires unitSize > 0
    {
      addr >= base && (addr - base) % unitSize == 0 && UnitOf(addr) + count <= maxUnits
    }

    /** The 32-bit sum `start + count` of the range checks does not wrap back into the window: see RangeCheckExact. */
    predicate NoWrap(addr: int, count: nat)
      requires unitSize > 0
    {
      && 0 <= addr < W32 && count < W32
      && (addr >= base && (addr - base) % unitSize == 0 ==>
            UnitOf(addr) + count < W32 || UnitOf(addr) + count - W32 > maxUnits)
    }

    method SetUnit(i: nat)
      requires Shape() && i < maxUnits
      modifies bitmap
      ensures Used() == old(Used()) + {i}
    {
      ghost var w := bitmap[i / 32];
      bitmap[i / 32] := SetBit(bitmap[i / 32], i % 32);
      forall j: nat | j < maxUnits ensures Bit(j) == (j == i || old(Bit(j))) {
        BitUpdate(w, i % 32, j % 32);
      }
    }

    method ClearUnit(i: nat)
      requires Shape() && i < maxUnits
      modifies bitmap
      ensures Used() == old(Used()) - {i}
    {
      ghost var w := bitmap[i / 32];
      bitmap[i / 32] := ClearBit(bitmap[i / 32], i % 32);
      forall j: nat | j < maxUnits ensures Bit(j) == (j != i && old(Bit(j))) {
        BitUpdate(w, i % 32, j % 32);
      }
    }

    lemma BitUsed(i: nat)
      requires Shape() && i < maxUnits
      ensures i / 32 < bitmap.Length && (Bit(i) <==> i in Used())
    {
    }

    /** One step of mark_units_free. */
    method ReleaseUnit(i: nat)
      requires Valid() && i < maxUnits
      modifies this`allocatedUnits, bitmap
      ensures Valid() && Used() == old(Used()) - {i}
    {
      if Bit(i) {
        ClearUnit(i);
        allocatedUnits := allocatedUnits - 1;
      }
    }

    /** One step of mark_units_used. */
    method TakeUnit(i: nat)
      requires Valid() && i < maxUnits
      modifies this`allocatedUnits, bitmap
      ensures Valid() && Used() == old(Used()) + {i}
    {
      if !Bit(i) {
        SetUnit(i);
        allocatedUnits := allocatedUnits + 1;
      }
    }

    /** clear() */
    method Clear()
      requires Shape()
      modifies this`allocatedUnits, bitmap
      ensures Valid() && Used() == {}
    {
      for i := 0 to bitmap.Length
        invariant forall w :: 0 <= w < i ==> bitmap[w] == 0
      {
        bitmap[i] := 0;
      }
      allocatedUnits := 0;
      NoBits();
    }

    /** set(): every word all ones, so also the bits past maxUnits; the counter is maxUnits. */
    method SetAll()
      requires Shape()
      modifies this`allocatedUnits, bitmap
      ensures Valid() && Used() == Run(0, maxUnits)
    {
      for i := 0 to bitmap.Length
        invariant forall w :: 0 <= w < i ==> bitmap[w] == 0xFFFF_FFFF
      {
        bitmap[i] := 0xFFFF_FFFF;
      }
      allocatedUnits := maxUnits;
      forall i: nat | i < maxUnits ensures Bit(i) { FullWord(i % 32); }
      assert Used() == Run(0, maxUnits);
      RunSize(0, maxUnits);
    }

    /** The search of alloc_units: skipping past a set bit loses no candidate. */
    method FindRun(count: nat) returns (found: bool, i: nat)
      requires Shape() && 0 < count <= maxUnits
      ensures found ==> FirstFit(Used(), maxUnits, count, i)
      ensures !found ==> forall k: nat :: !FreeRun(Used(), maxUnits, count, k)
    {
      var last := maxUnits - count;
      i := 0;
      while i <= last
        invariant forall k: nat :: k < i ==> !FreeRun(Used(), maxUnits, count, k)
      {
        found := true;
        var j := 0;
        while j < count
          invariant 0 <= j <= count && i <= last
          invariant forall x: nat :: i <= x < i + j ==> !Bit(x)
          invariant found
        {
          if Bit(i + j) {
            found := false;
            break;
          }
          j := j + 1;
        }
        if found {
          assert FreeRun(Used(), maxUnits, count, i);
          return;
        }
        forall k: nat | i <= k <= i + j ensures !FreeRun(Used(), maxUnits, count, k) {
          assert i + j in Used() && i + j in Run(k, count);
        }
        i := i + j + 1;
      }
      found := false;
    }

    method SetRun(i: nat, count: nat)
      requires Shape() && i + count <= maxUnits
      modifies bitmap
      ensures Used() == old(Used()) + Run(i, count)
    {
      var j := 0;
      while j < count
        invariant 0 <= j <= count
        invariant Used() == old(Used()) + Run(i, j)
      {
        SetUnit(i + j);
        RunGrows(i, j);
        j := j + 1;
      }
    }

    /** alloc_units: the lowest free run of that length; panics exactly when there is none. */
    method AllocUnits(count: nat) returns (r: Outcome, ghost at: nat)
      requires Valid()
      modifies this`allocatedUnits, bitmap
      ensures Valid()
      ensures count == 0 ==> r == Done(0) && Used() == old(Used())
      ensures r.Panic? <==> count > 0 && forall k: nat :: !FreeRun(old(Used()), maxUnits, count, k)
      ensures r.Panic? ==> Used() == old(Used()) && allocatedUnits == old(allocatedUnits)
      ensures r.Done? && count > 0 ==>
                && FirstFit(old(Used()), maxUnits, count, at) && r.addr == base + at * unitSize
                && Used() == old(Used()) + Run(at, count) && allocatedUnits == old(allocatedUnits) + count
    {
      hide Used, UnitOf, NoWrap, Window, InWindow, Run, From, Bit;
      at := 0;
      if count == 0 {
        return Done(0), 0;
      }
      if count > maxUnits {
        return Panic(RequestTooLarge), 0;
      }
      var found, i := FindRun(count);
      if !found {
        return Panic(OutOfMemory), 0;
      }
      at := i;
      SetRun(i, count);
      RunSize(i, count);
      allocatedUnits := allocatedUnits + count;
      r := Done(base + i * unitSize);
    }

    /** alloc_units followed by free_units of the result: the set, the counter and every later search are as before. */
    method AllocThenFree(count: nat) returns (r: Outcome, freed: Outcome)
      requires Valid() && count < W32
      modifies this`allocatedUnits, bitmap
      ensures Valid() && Used() == old(Used()) && allocatedUnits == old(allocatedUnits)
      ensures r.Done? ==> freed.Done?
    {
      hide Used, NoWrap, Window, Run, From, Bit, InWindow, UnitOf;
      ghost var used, at := Used(), 0;
      r, at := AllocUnits(count);
      freed := r;
      if r.Done? {
        HandedOut(used, count, at);
        freed := FreeUnits(if count == 0 then base else r.addr, count);
      }
    }

    lemma HandedOut(used: set<nat>, count: nat, at: nat)
      requires Shape() && count < W32 && (count > 0 ==> FirstFit(used, maxUnits, count, at))
      ensures NoWrap(base, 0)
      ensures count > 0 ==>
                && NoWrap(base + at * unitSize, count) && Owned(base + at * unitSize, count, used + Run(at, count))
                && UnitOf(base + at * unitSize) == at && used + Run(at, count) - Run(at, count) == used
    {
      if count > 0 {
        AllocFreeRoundTrip(used, maxUnits, count, at, unitSize);
        UnitBelow(at, count);
      }
    }

    lemma UnitBelow(at: nat, count: nat)
      requires Shape() && at + count <= maxUnits && count > 0
      ensures base + at * unitSize < W32 && at + count < W32
    {
      Scaled(at + 1, maxUnits, unitSize);
      Scaled(maxUnits, maxUnits, unitSize);
      OneMoreUnit(at, unitSize);
      AtLeast(unitSize, maxUnits);
    }

    /** The three checks that free_units and mark_units_* share; the sum is a 32-bit one. */
    method CheckRange(addr: int, count: nat) returns (r: Outcome)
      requires Shape() && NoWrap(addr, count)
      ensures r.Done? <==> InWindow(addr, count)
      ensures r.Done? ==> r.addr == UnitOf(addr) >= 0 && r.addr + count <= maxUnits
    {
      if addr < base {
        return Panic(BelowBase);
      }
      var offset := addr - base;
      if offset % unitSize != 0 {
        return Panic(Unaligned);
      }
      var start := offset / unitSize;
      RangeVerdict(offset, unitSize, count, maxUnits);
      if (start + count) % W32 > maxUnits {
        return Panic(InvalidRange);
      }
      r := Done(start);
    }

    /** free_units: panics exactly on a bad range or when some unit is not in use. */
    method FreeUnits(addr: int, count: nat) returns (r: Outcome)
      requires Valid() && NoWrap(addr, count)
      modifies this`allocatedUnits, bitmap
      ensures r.Done? <==> count == 0 || Owned(addr, count, old(Used()))
      ensures r.Done? ==> Valid()
      ensures r.Done? && count == 0 ==> Used() == old(Used())
      ensures r.Done? && count > 0 ==>
                UnitOf(addr) >= 0 && Used() == old(Used()) - Run(UnitOf(addr), count)
                  && allocatedUnits == old(allocatedUnits) - count
    {
      hide Without, Used, UnitOf, NoWrap, Window, InWindow, Run, From, Bit;
      if count == 0 {
        return Done(0);
      }
      r := CheckRange(addr, count);
      if r.Panic? {
        return;
      }
      var start := r.addr;
      ghost var used := Used();
      var i := 0;
      RunEmpty(start);
      WithoutNone(used, start);
      while i < count
        invariant 0 <= i <= count
        invariant Used() == Without(used, start, i) && Run(start, i) <= used && allocatedUnits == old(allocatedUnits)
      {
        WithoutNext(used, start, i);
        BitUsed(start + i);
        if !Bit(start + i) {
          NotWithin(used, start, i, count);
          return Panic(DoubleFree);
        }
        ClearUnit(start + i);
        i := i + 1;
      }
      WithoutSize(used, start, count);
      allocatedUnits := allocatedUnits - count;
    }

    /** addr names `count` units, all of them in `used`. */
    ghost predicate Owned(addr: int, count: nat, used: set<nat>)
      requires unitSize > 0
    {
      InWindow(addr, count) && UnitOf(addr) >= 0 && Run(UnitOf(addr), count) <= used
    }

    method ReleaseRun(start: nat, count: nat)
      requires Valid() && start + count <= maxUnits
      modifies this`allocatedUnits, bitmap
      ensures Valid() && Used() == Without(old(Used()), start, count)
    {
      hide Shape, Used, Without, Bit, Window;
      ghost var used := Used();
      var i := 0;
      WithoutNone(used, start);
      while i < count
        invariant 0 <= i <= count && Valid()
        invariant Used() == Without(used, start, i)
      {
        WithoutNext(used, start, i);
        ReleaseUnit(start + i);
        i := i + 1;
      }
    }

    /** mark_units_free: idempotent; the counter moves only for units that were in use. */
    method MarkUnitsFree(addr: int, count: nat) returns (r: Outcome)
      requires Valid() && NoWrap(addr, count)
      modifies this`allocatedUnits, bitmap
      ensures Valid()
      ensures r.Done? <==> count == 0 || InWindow(addr, count)
      ensures r.Done? && count > 0 ==> UnitOf(addr) >= 0
      ensures Used() == if r.Done? && count > 0 then old(Used()) - Run(UnitOf(addr), count) else old(Used())
    {
      hide Shape, Used, UnitOf, NoWrap, Window, InWindow, Run, From, Bit;
      if count == 0 {
        return Done(0);
      }
      r := CheckRange(addr, count);
      if r.Panic? {
        return;
      }
      ReleaseRun(r.addr, count);
    }

    method TakeRun(start: nat, count: nat)
      requires Valid() && start + count <= maxUnits
      modifies this`allocatedUnits, bitmap
      ensures Valid() && Used() == old(Used()) + Run(start, count)
    {
      hide Shape, Used, Run, From, Bit, Window;
      var i := 0;
      RunEmpty(start);
      while i < count
        invariant 0 <= i <= count && Valid()
        invariant Used() == old(Used()) + Run(start, i)
      {
        RunGrows(start, i);
        TakeUnit(start + i);
        i := i + 1;
      }
    }

    /** mark_units_used: idempotent; the counter moves only for units that were free. */
    method MarkUnitsUsed(addr: int, count: nat) returns (r: Outcome)
      requires Valid() && NoWrap(addr, count)
      modifies this`allocatedUnits, bitmap
      ensures Valid()
      ensures r.Done? <==> count == 0 || InWindow(addr, count)
      ensures r.Done? && count > 0 ==> UnitOf(addr) >= 0
      ensures Used() == if r.Done? && count > 0 then old(Used()) + Run(UnitOf(addr), count) else old(Used())
    {
      hide Shape, Used, UnitOf, NoWrap, Window, InWindow, Run, From, Bit;
      if count == 0 {
        return Done(0);
      }
      r := CheckRange(addr, count);
      if r.Panic? {
        return;
      }
      TakeRun(r.addr, count);
    }

    /** allocated(): inside the window, aligned, and in use. */
    method IsAllocated(addr: int) returns (yes: bool)
      requires Valid() && 0 <= addr < W32
      ensures yes <==> Owned(addr, 1, Used())
    {
      RunGrows(0, 0);
      if addr < base {
        return false;
      }
      var offset := addr - base;
      if offset / unitSize >= maxUnits || offset % unitSize != 0 {
        return false;
      }
      assert Run(offset / unitSize, 1) == {offset / unitSize};
      yes := Bit(offset / unitSize);
    }
  }

  lemma FullWord(k: nat)
    requires k < 32
    ensures TestBit(0xFFFF_FFFF, k)
  {
    hide Mask;
    MaskNonzero(k);
    var a := Mask(k);
    assert 0xFFFF_FFFF & a == a;
  }

  /** The 32-bit range check answers for the true sum exactly when the sum does not wrap back into the window. */
  lemma RangeCheckExact(start: nat, count: nat, max: nat)
    requires start < W32 && count < W32 && max < W32
    ensures ((start + count) % W32 > max <==> start + count > max) <==>
              (start + count < W32 || start + count - W32 > max)
  {
  }

  /** In a window of 1024 units, 0xFFFFFFF0 units from unit 32 on look like a range that ends at unit 16. */
  lemma RangeWrapExample()
    ensures var start, count, max := 32, 0xFFFF_FFF0, 1024;
            (start + count) % W32 == 16 <= max < start + count
  {
  }

  lemma RangeVerdict(offset: nat, n: nat, count: nat, max: nat)
    requires offset < W32 && 0 < n && count < W32 && max < W32
    requires offset / n + count < W32 || offset / n + count - W32 > max
    ensures offset / n >= 0 && ((offset / n + count) % W32 > max <==> offset / n + count > max)
  {
    QuotientBelow(offset, n);
    RangeCheckExact(offset / n, count, max);
  }

  lemma QuotientBelow(x: nat, n: nat)
    requires n > 0
    ensures 0 <= x / n <= x
  {
    assert x == x / n * n + x % n;
    if x / n > 0 { AtLeastTimes(x / n, n); }
  }

  lemma AtLeastTimes(k: nat, n: nat)
    requires n >= 1
    ensures k * n >= k
  {
  }

  /** An address handed out names its run again, so freeing it succeeds and restores the set. */
  lemma AllocFreeRoundTrip(used: set<nat>, max: nat, count: nat, i: nat, unitSize: nat)
    requires FirstFit(used, max, count, i) && unitSize > 0
    ensures (i * unitSize) % unitSize == 0 && (i * unitSize) / unitSize == i
    ensures Run(i, count) <= used + Run(i, count) && used + Run(i, count) - Run(i, count) == used
  {
    Multiple(i, unitSize);
  }
}

/**
 The virtual memory manager (kernel/include/mm/vmm.hpp) on top of the frame allocator: who owns which frame
 over every run of map and unmap.
 */
module Vmm {
  import opened Machine
  import opened Bitmap
  import opened Paging
  import P = Pmm

  /** Pages outside the identity window (directory slot 0) and the recursive window (slot 1023). */
  predicate DataPage(p: nat) { ENTRIES <= p < RECURSIVE * ENTRIES }

  /** f is mapped by no data page and is no table. */
  ghost predicate Loose(m: Memory, pd: nat, f: nat)
    requires TablesOk(m, pd)
  {
    !IsTable(m, pd, f) && forall p: nat :: DataPage(p) ==> PageWalk(m, pd, p) != Some(f)
  }

  ghost predicate TablesOwned(m: Memory, pd: nat, owned: set<nat>)
    requires TablesOk(m, pd)
  {
    forall f: nat :: f < FRAMES && IsTable(m, pd, f) ==> f in owned
  }

  /** Tables and data frames are owned, apart from each other, and no data frame is mapped twice. */
  ghost predicate Accounts(m: Memory, pd: nat, owned: set<nat>)
  {
    && TablesOk(m, pd) && TablesOwned(m, pd, owned)
    && (forall p: nat :: DataPage(p) && PageWalk(m, pd, p).Some? ==>
          PageWalk(m, pd, p).value in owned && !IsTable(m, pd, PageWalk(m, pd, p).value))
    && (forall p: nat, q: nat :: DataPage(p) && DataPage(q) && p != q && PageWalk(m, pd, p).Some? ==>
          PageWalk(m, pd, p) != PageWalk(m, pd, q))
  }

  /** Mapping an unmapped data page to an owned loose frame keeps the accounts. */
  lemma MapKeepsAccounts(m: Memory, pd: nat, p: nat, frame: nat, flags: bv12, spare: nat, owned: set<nat>)
    requires Accounts(m, pd, owned) && DataPage(p) && PageWalk(m, pd, p) == None
    requires frame < FRAMES && frame in owned && Loose(m, pd, frame)
    requires spare < FRAMES && spare != pd && (Present(m[pd][p / ENTRIES]) || spare !in owned)
    ensures var m' := Mapped(m, pd, p, frame, flags, spare);
            var owned' := if Present(m[pd][p / ENTRIES]) then owned else owned + {spare};
            && TablesOk(m', pd) && Accounts(m', pd, owned')
            && (forall f: nat :: f < FRAMES && f in owned && f != frame && Loose(m, pd, f) ==> Loose(m', pd, f))
  {
    hide HasFlag, Mapped, PageWalk, IsTable;
    InDirectory(p);
    assert Present(m[pd][p / ENTRIES]) || !IsTable(m, pd, spare);
    MapTranslates(m, pd, p, frame, flags, spare);
    hide WellFormed;
    var m' := Mapped(m, pd, p, frame, flags, spare);
    var owned' := if Present(m[pd][p / ENTRIES]) then owned else owned + {spare};
    forall q: nat | DataPage(q) && PageWalk(m', pd, q).Some?
      ensures PageWalk(m', pd, q).value in owned && PageWalk(m', pd, q).value < FRAMES
      ensures !IsTable(m', pd, PageWalk(m', pd, q).value)
    {
      if q != p { FrameInRange(m, pd, q); }
    }
    forall f: nat | f < FRAMES && f in owned && f != frame && Loose(m, pd, f) ensures Loose(m', pd, f) {
      forall q: nat | DataPage(q) ensures PageWalk(m', pd, q) != Some(f) {
        assert q != p ==> PageWalk(m', pd, q) == PageWalk(m, pd, q);
      }
    }
    forall q: nat, r: nat | DataPage(q) && DataPage(r) && q != r && PageWalk(m', pd, q).Some?
      ensures PageWalk(m', pd, q) != PageWalk(m', pd, r)
    {
      assert q != p ==> PageWalk(m', pd, q) == PageWalk(m, pd, q) && PageWalk(m, pd, q) != Some(frame);
      assert r != p ==> PageWalk(m', pd, r) == PageWalk(m, pd, r) && PageWalk(m, pd, r) != Some(frame);
    }
  }

  lemma InDirectory(p: nat)
    requires p < RECURSIVE * ENTRIES
    ensures p / ENTRIES < RECURSIVE
  {
  }

  /** Dropping a page and its frame keeps the accounts. */
  lemma UnmapKeepsAccounts(m: Memory, pd: nat, p: nat, owned: set<nat>)
    requires Accounts(m, pd, owned) && DataPage(p) && Present(m[pd][p / ENTRIES]) && PageWalk(m, pd, p).Some?
    ensures var m', f := Unmapped(m, pd, p), PageWalk(m, pd, p).value;
            Accounts(m', pd, owned - {f}) && f in owned && f < FRAMES
  {
    hide HasFlag, WellFormed, Unmapped, IsTable, PageWalk;
    UnmapTranslates(m, pd, p);
    FrameInRange(m, pd, p);
    var m', f := Unmapped(m, pd, p), PageWalk(m, pd, p).value;
    forall q: nat | DataPage(q) && PageWalk(m', pd, q).Some?
      ensures PageWalk(m', pd, q).value in owned - {f} && !IsTable(m', pd, PageWalk(m', pd, q).value)
    {
      assert q != p && PageWalk(m', pd, q) == PageWalk(m, pd, q) && PageWalk(m, pd, p) != PageWalk(m, pd, q);
      FrameInRange(m, pd, q);
    }
    forall t: nat | t < FRAMES && IsTable(m', pd, t) ensures t in owned - {f} {
      assert IsTable(m, pd, t);
    }
  }

  lemma FrameInRange(m: Memory, pd: nat, p: nat)
    requires WellFormed(m) && pd < FRAMES && p < FRAMES
    ensures PageWalk(m, pd, p).Some? ==> PageWalk(m, pd, p).value < FRAMES && Present(m[pd][p / ENTRIES])
  {
  }

  /** Directory slots in use below the recursive one. */
  ghost function Slots(m: Memory, pd: nat): set<int>
    requires RecursiveSlot(m, pd)
  {
    set i | 0 <= i < RECURSIVE && Present(m[pd][i])
  }

  lemma MapSlots(m: Memory, pd: nat, p: nat, frame: nat, flags: bv12, spare: nat)
    requires TablesOk(m, pd) && p < RECURSIVE * ENTRIES && frame < FRAMES && spare < FRAMES && spare != pd
    requires Present(m[pd][p / ENTRIES]) || !IsTable(m, pd, spare)
    ensures var m' := Mapped(m, pd, p, frame, flags, spare);
            RecursiveSlot(m', pd) && Slots(m', pd) == Slots(m, pd) + {p / ENTRIES}
  {
    MapTranslates(m, pd, p, frame, flags, spare);
    EnsuredWellFormed(m, pd, p / ENTRIES, flags, spare);
    EnsureKeeps(m, pd, p / ENTRIES, flags, spare);
    var m1 := EnsureTable(m, pd, p / ENTRIES, flags, spare);
    PokeKeeps(m1, pd, p, Entry(frame, flags));
    hide HasFlag, WithFlags, WellFormed;
    assert forall k :: 0 <= k < ENTRIES && k != p / ENTRIES ==> m1[pd][k] == m[pd][k];
  }

  /** Unmapping leaves the directory alone. */
  lemma UnmapSlots(m: Memory, pd: nat, p: nat)
    requires TablesOk(m, pd) && p < RECURSIVE * ENTRIES && Present(m[pd][p / ENTRIES])
    ensures RecursiveSlot(Unmapped(m, pd, p), pd) && Slots(Unmapped(m, pd, p), pd) == Slots(m, pd)
  {
    FlagFacts(EMPTY, 0);
    hide HasFlag;
    PokeKeeps(m, pd, p, EMPTY);
  }

  /** Directory slots that mapping the pages p, ..., p + n - 1 has to fill with new page tables. */
  ghost function NewSlots(m: Memory, pd: nat, p: nat, n: nat): set<int>
    requires RecursiveSlot(m, pd)
  {
    PageSlots(p, n) - Slots(m, pd)
  }

  ghost function PageSlots(p: nat, n: nat): set<int> { set q: nat | p <= q < p + n :: q / ENTRIES }

  /** The free frames suffice for n pages from p on: a run for the pages, and one frame for each missing table. */
  ghost predicate RoomFor(free: set<nat>, slots: set<int>, p: nat, n: nat)
  {
    && (exists k: nat :: k + n <= P.MAX_FRAMES && Run(k, n) <= free)
    && n + |PageSlots(p, n) - slots| <= |free|
  }

  /** This is the lowest free frame. */
  ghost predicate LowestFree(f: nat, free: set<nat>) { f in free && forall g :: g in free ==> f <= g }

  /** These are the lowest of the free frames. */
  ghost predicate Lowest(t: set<nat>, free: set<nat>)
  {
    t <= free && forall x, y :: x in t && y in free && y !in t ==> x < y
  }

  lemma LowestStep(t: set<nat>, free: set<nat>, f: nat)
    requires Lowest(t, free) && f in free && f !in t && forall g :: g in free && g !in t ==> f <= g
    ensures Lowest(t + {f}, free)
  {
  }

  lemma LowestOnce(t: set<nat>, t': set<nat>, free: set<nat>)
    requires Lowest(t, free) && Lowest(t', free) && |t| == |t'|
    ensures t == t'
  {
    if x :| x in t && x !in t' {
      assert t' <= t by { assert forall y :: y in t' && y !in t ==> x < y && y < x; }
      FewerElements(t', t, x);
    } else {
      assert t <= t';
      if y :| y in t' && y !in t { FewerElements(t, t', y); }
    }
  }

  lemma FewerElements(a: set<nat>, b: set<nat>, x: nat)
    requires a <= b && x in b && x !in a
    ensures |a| < |b|
  {
    assert b == a + {x} + (b - a - {x});
  }

  /** The frames taken for n pages from p on: the lowest free run, and then the lowest frames for the tables. */
  ghost predicate TookAt(free: set<nat>, slots: set<int>, p: nat, n: nat, taken: set<nat>, f: nat)
  {
    && Run(f, n) <= free && (forall k: nat :: k < f ==> !(Run(k, n) <= free))
    && Run(f, n) <= taken && Lowest(taken - Run(f, n), free - Run(f, n))
    && |taken - Run(f, n)| == |PageSlots(p, n) - slots|
  }

  ghost predicate Took(free: set<nat>, slots: set<int>, p: nat, n: nat, taken: set<nat>)
  {
    exists f: nat :: TookAt(free, slots, p, n, taken, f)
  }

  /** Which frames these are is determined. */
  lemma TookOnce(free: set<nat>, slots: set<int>, p: nat, n: nat, taken: set<nat>, taken': set<nat>)
    requires Took(free, slots, p, n, taken) && Took(free, slots, p, n, taken')
    ensures taken == taken'
  {
    hide Run, From;
    var f: nat :| TookAt(free, slots, p, n, taken, f);
    var f': nat :| TookAt(free, slots, p, n, taken', f');
    assert f == f';
    LowestOnce(taken - Run(f, n), taken' - Run(f, n), free - Run(f, n));
    assert taken == Run(f, n) + (taken - Run(f, n)) && taken' == Run(f, n) + (taken' - Run(f, n));
  }

  lemma PageSlotsStep(p: nat, n: nat)
    requires n > 0
    ensures PageSlots(p, n) == PageSlots(p + 1, n - 1) + {p / ENTRIES}
  {
    forall q: nat | p <= q < p + n ensures q / ENTRIES in PageSlots(p + 1, n - 1) + {p / ENTRIES} {
      if q > p { assert p + 1 <= q < p + 1 + (n - 1); }
    }
    assert p / ENTRIES in PageSlots(p, n);
  }

  lemma PageSlotsLast(p: nat, n: nat)
    ensures PageSlots(p, n + 1) == PageSlots(p, n) + {(p + n) / ENTRIES}
  {
    forall q: nat | p <= q < p + n + 1 ensures q / ENTRIES in PageSlots(p, n) + {(p + n) / ENTRIES} {
      if q < p + n { assert q / ENTRIES in PageSlots(p, n); }
    }
    assert (p + n) / ENTRIES in PageSlots(p, n + 1);
  }

  /** After n pages from p on: the slots of these pages are filled, with the lowest frames. */
  ghost predicate Grew(arena: set<nat>, slots0: set<int>, owned0: set<nat>, slots: set<int>, owned: set<nat>, p: nat,
                       n: nat)
  {
    slots == slots0 + PageSlots(p, n) && owned0 <= owned && Lowest(owned - owned0, arena - owned0)
  }

  lemma GrewNone(arena: set<nat>, slots: set<int>, owned: set<nat>, p: nat)
    ensures Grew(arena, slots, owned, slots, owned, p, 0)
  {
    assert PageSlots(p, 0) == {} && owned - owned == {};
  }

  lemma GrewStep(arena: set<nat>, slots0: set<int>, owned0: set<nat>, slots: set<int>, owned: set<nat>, p: nat, n: nat,
                 owned': set<nat>, f: nat)
    requires Grew(arena, slots0, owned0, slots, owned, p, n)
    requires owned' == owned || (owned' == owned + {f} && LowestFree(f, arena - owned))
    ensures Grew(arena, slots0, owned0, slots + {(p + n) / ENTRIES}, owned', p, n + 1)
  {
    hide PageSlots;
    PageSlotsLast(p, n);
    if owned' != owned {
      assert forall g :: g in arena - owned0 && g !in owned - owned0 ==> g in arena - owned;
      LowestStep(owned - owned0, arena - owned0, f);
      assert owned' - owned0 == owned - owned0 + {f};
    }
  }

  lemma OneSlotMore(all: set<int>, rest: set<int>, s: set<int>, i: int)
    requires all == rest + {i}
    ensures |all - s| == |rest - (s + {i})| + |s + {i}| - |s|
  {
    if i in s {
      assert s + {i} == s && all - s == rest - s;
    } else {
      assert all - s == (rest - (s + {i})) + {i};
    }
  }

  lemma NewSlotsStep(m: Memory, m': Memory, pd: nat, p: nat, n: nat)
    requires RecursiveSlot(m, pd) && RecursiveSlot(m', pd) && n > 0 && Slots(m', pd) == Slots(m, pd) + {p / ENTRIES}
    ensures |NewSlots(m, pd, p, n)| == |NewSlots(m', pd, p + 1, n - 1)| + |Slots(m', pd)| - |Slots(m, pd)|
    ensures p / ENTRIES !in Slots(m, pd) ==> p / ENTRIES in NewSlots(m, pd, p, n)
  {
    hide Slots, RecursiveSlot, PageSlots;
    PageSlotsStep(p, n);
    OneSlotMore(PageSlots(p, n), PageSlots(p + 1, n - 1), Slots(m, pd), p / ENTRIES);
  }

  lemma NewSlotsNone(m: Memory, pd: nat, p: nat)
    requires RecursiveSlot(m, pd)
    ensures NewSlots(m, pd, p, 0) == {}
  {
  }

  /** What a run that maps fresh memory guarantees before map_pages is called. */
  ghost predicate FreshFor(m: Memory, pd: nat, owned: set<nat>, p: nat, f: nat, pages: nat)
    requires TablesOk(m, pd)
  {
    && (forall q: nat :: p <= q < p + pages ==> DataPage(q) && PageWalk(m, pd, q) == None)
    && (forall g: nat :: f <= g < f + pages ==> Spare(m, pd, owned, g))
  }

  /** An owned frame that nothing refers to yet. */
  ghost predicate Spare(m: Memory, pd: nat, owned: set<nat>, g: nat)
    requires TablesOk(m, pd)
  {
    g < FRAMES && g in owned && Loose(m, pd, g)
  }

  /** Pages p, ..., p + n - 1 translate to frames f, ...; every other page below the window is as before. */
  ghost predicate Translations(m: Memory, m': Memory, pd: nat, p: nat, f: nat, n: nat, flags: bv12)
    requires p + n <= RECURSIVE * ENTRIES && TablesOk(m, pd) && TablesOk(m', pd)
  {
    forall q: nat :: q < RECURSIVE * ENTRIES ==>
      PageWalk(m', pd, q) == if !(p <= q < p + n) then PageWalk(m, pd, q)
                             else if Present(Entry(f + q - p, flags)) then Some(f + q - p) else None
  }

  /** Two of the pages p, ..., p + n - 1 are in slot i. */
  ghost predicate Twice(p: nat, n: nat, i: int)
  {
    exists q: nat :: p <= q && q + 1 < p + n && InSlot(q, i) && InSlot(q + 1, i)
  }

  predicate InSlot(q: nat, i: int) { q / ENTRIES == i }

  /** The PTEs of the pages p, ..., p + n - 1 are exactly f, f + 1, ... with these flags; all others are kept. */
  ghost predicate PtesSet(m: Memory, m': Memory, pd: nat, p: nat, f: nat, n: nat, flags: bv12)
    requires p + n <= RECURSIVE * ENTRIES && TablesOk(m, pd) && TablesOk(m', pd)
  {
    && (forall q: nat :: p <= q < p + n ==>
          Present(m'[pd][q / ENTRIES]) && Pte(m', pd, q) == Entry(f + q - p, flags))
    && (forall q: nat :: q < RECURSIVE * ENTRIES && !(p <= q < p + n) ==> PteKept(m, m', pd, q))
  }

  /**
   The PDEs of these pages: a table that was there gets the flags added; a new one is present, writable, and for users
   if asked, and gets the flags added only with a second page. All other PDEs are kept.
   */
  ghost predicate PdesSet(m: Memory, m': Memory, pd: nat, p: nat, n: nat, flags: bv12)
    requires TablesOk(m, pd) && TablesOk(m', pd)
  {
    forall i: nat :: i < ENTRIES ==> PdeSet(m[pd][i], m'[pd][i], i in PageSlots(p, n), Twice(p, n, i), flags)
  }

  /** Both. */
  ghost predicate EntriesSet(m: Memory, m': Memory, pd: nat, p: nat, f: nat, n: nat, flags: bv12)
    requires p + n <= RECURSIVE * ENTRIES && TablesOk(m, pd) && TablesOk(m', pd)
  {
    PtesSet(m, m', pd, p, f, n, flags) && PdesSet(m, m', pd, p, n, flags)
  }

  ghost predicate PdeSet(e: Entry, e': Entry, touched: bool, twice: bool, flags: bv12)
  {
    if !touched then e' == e
    else if IsPresent(e.flags) then e' == Entry(e.frame, Together(e.flags, flags))
    else e'.flags == if twice then Together(NewTable(flags), flags) else NewTable(flags)
  }

  lemma PdeSetStep(e: Entry, e1: Entry, touched: bool, twice: bool, flags: bv12, spare: nat)
    requires PdeSet(e, e1, touched, twice, flags) && (twice ==> touched)
    ensures PdeSet(e, PdeAfter(e1, flags, spare), true, touched, flags)
  {
    hide IsPresent, Together, NewTable;
    TogetherTwice(e.flags, flags);
    TogetherTwice(NewTable(flags), flags);
    NewIsPresent(flags);
  }

  lemma TogetherTwice(a: bv12, b: bv12)
    ensures Together(Together(a, b), b) == Together(a, b) && (IsPresent(a) ==> IsPresent(Together(a, b)))
  {
  }

  lemma NewIsPresent(b: bv12)
    ensures IsPresent(NewTable(b))
  {
  }

  lemma PtesStep(m0: Memory, m: Memory, m': Memory, pd: nat, p: nat, f: nat, n: nat, flags: bv12)
    requires p + n < RECURSIVE * ENTRIES && TablesOk(m0, pd) && TablesOk(m, pd) && TablesOk(m', pd)
    requires PtesSet(m0, m, pd, p, f, n, flags)
    requires Present(m'[pd][(p + n) / ENTRIES]) && Pte(m', pd, p + n) == Entry(f + n, flags)
    requires forall q: nat :: q < RECURSIVE * ENTRIES && q != p + n ==> PteKept(m, m', pd, q)
    ensures PtesSet(m0, m', pd, p, f, n + 1, flags)
  {
    hide Present, WellFormed, Pte;
    DirectorySize(m', pd);
    forall q: nat | q < RECURSIVE * ENTRIES && !(p <= q < p + n + 1) ensures PteKept(m0, m', pd, q) {
      assert PteKept(m0, m, pd, q) && PteKept(m, m', pd, q);
    }
    forall q: nat | p <= q < p + n + 1
      ensures Present(m'[pd][q / ENTRIES]) && Pte(m', pd, q) == Entry(f + q - p, flags)
    {
      if q < p + n { assert PteKept(m, m', pd, q); }
    }
  }

  lemma PdesStep(m0: Memory, m: Memory, m': Memory, pd: nat, p: nat, n: nat, flags: bv12, spare: nat)
    requires p + n < RECURSIVE * ENTRIES && TablesOk(m0, pd) && TablesOk(m, pd) && TablesOk(m', pd)
    requires PdesSet(m0, m, pd, p, n, flags)
    requires var j := (p + n) / ENTRIES; m'[pd] == m[pd][j := PdeAfter(m[pd][j], flags, spare)]
    ensures PdesSet(m0, m', pd, p, n + 1, flags)
  {
    hide WellFormed, PdeSet, PdeAfter, PageSlots, Twice;
    DirectorySize(m0, pd);
    DirectorySize(m, pd);
    DirectorySize(m', pd);
    var j := (p + n) / ENTRIES;
    forall i: nat | i < ENTRIES
      ensures PdeSet(m0[pd][i], m'[pd][i], i in PageSlots(p, n + 1), Twice(p, n + 1, i), flags)
    {
      assert PdeSet(m0[pd][i], m[pd][i], i in PageSlots(p, n), Twice(p, n, i), flags);
      PageSlotsLast(p, n);
      TwiceStep(p, n, i);
      if i == j { PdeSetStep(m0[pd][i], m[pd][i], i in PageSlots(p, n), Twice(p, n, i), flags, spare); }
    }
  }

  /**
   The directory is as before, and of the PTEs exactly the present ones of the pages p, ..., p + n - 1 are emptied.
   */
  ghost predicate PtesCleared(m: Memory, m': Memory, pd: nat, p: nat, n: nat)
    requires p + n <= RECURSIVE * ENTRIES && TablesOk(m, pd) && TablesOk(m', pd)
  {
    m'[pd] == m[pd] && forall q: nat :: q < RECURSIVE * ENTRIES ==> PteCleared(m, m', pd, q, p, n)
  }

  ghost predicate PteCleared(m: Memory, m': Memory, pd: nat, q: nat, p: nat, n: nat)
    requires WellFormed(m) && WellFormed(m') && pd < FRAMES && q < FRAMES
  {
    Present(m[pd][q / ENTRIES]) ==>
      Pte(m', pd, q) == if p <= q < p + n && Present(Pte(m, pd, q)) then EMPTY else Pte(m, pd, q)
  }

  lemma ClearedStep(m0: Memory, m: Memory, m': Memory, pd: nat, p: nat, n: nat)
    requires p + n < RECURSIVE * ENTRIES && TablesOk(m0, pd) && TablesOk(m, pd) && TablesOk(m', pd)
    requires PtesCleared(m0, m, pd, p, n) && PtesCleared(m, m', pd, p + n, 1)
    ensures PtesCleared(m0, m', pd, p, n + 1)
  {
    hide HasFlag, WellFormed, Pte;
    var n' := n + 1;
    forall q: nat | q < RECURSIVE * ENTRIES ensures PteCleared(m0, m', pd, q, p, n') {
      assert PteCleared(m0, m, pd, q, p, n) && PteCleared(m, m', pd, q, p + n, 1);
    }
  }

  lemma NothingCleared(m: Memory, pd: nat, p: nat)
    requires TablesOk(m, pd) && p <= RECURSIVE * ENTRIES
    ensures PtesCleared(m, m, pd, p, 0)
    ensures p < RECURSIVE * ENTRIES && PageWalk(m, pd, p).None? ==> PtesCleared(m, m, pd, p, 1)
  {
    hide HasFlag;
  }

  lemma OneCleared(m: Memory, pd: nat, p: nat)
    requires TablesOk(m, pd) && p < RECURSIVE * ENTRIES && PageWalk(m, pd, p).Some?
    ensures Present(m[pd][p / ENTRIES]) && TablesOk(Unmapped(m, pd, p), pd)
            && PtesCleared(m, Unmapped(m, pd, p), pd, p, 1)
  {
    hide HasFlag;
    UnmapEntries(m, pd, p);
  }

  lemma TwiceStep(p: nat, n: nat, i: int)
    ensures Twice(p, n, i) ==> i in PageSlots(p, n)
    ensures Twice(p, n + 1, i) <==> (if i == (p + n) / ENTRIES then i in PageSlots(p, n) else Twice(p, n, i))
  {
    if Twice(p, n, i) {
      var q: nat :| p <= q && q + 1 < p + n && InSlot(q, i) && InSlot(q + 1, i);
      assert q / ENTRIES in PageSlots(p, n);
      assert p <= q && q + 1 < p + (n + 1) && InSlot(q, i) && InSlot(q + 1, i);
      assert Twice(p, n + 1, i);
    }
    if i == (p + n) / ENTRIES && i in PageSlots(p, n) {
      var q: nat :| p <= q < p + n && q / ENTRIES == i;
      SameSlot(q, p + n - 1, p + n);
      assert InSlot(p + n - 1, i) && InSlot(p + n - 1 + 1, i);
      assert Twice(p, n + 1, i);
    }
    if Twice(p, n + 1, i) {
      var q: nat :| p <= q && q + 1 < p + n + 1 && InSlot(q, i) && InSlot(q + 1, i);
      assert q / ENTRIES in PageSlots(p, n);
      if i != (p + n) / ENTRIES { assert q + 1 < p + n && Twice(p, n, i); }
    }
  }

  lemma DirectorySize(m: Memory, pd: nat)
    requires RecursiveSlot(m, pd)
    ensures pd in m && |m[pd]| == ENTRIES
  {
  }

  lemma SameSlot(a: nat, b: nat, c: nat)
    requires a <= b <= c && a / ENTRIES == c / ENTRIES
    ensures b / ENTRIES == a / ENTRIES
  {
  }

  /** The mapped pages from lo to hi are present and writable, with no other flag. */
  ghost predicate ReadWrite(m: Memory, pd: nat, lo: int, hi: int)
    requires TablesOk(m, pd)
  {
    forall q: nat :: lo <= q < hi && q < RECURSIVE * ENTRIES && PageWalk(m, pd, q).Some? ==>
        Pte(m, pd, q).flags == 1 | 2
  }

  lemma MappingReadWrite(m: Memory, m': Memory, pd: nat, p: nat, f: nat, n: nat, lo: int, hi: int)
    requires p + n <= RECURSIVE * ENTRIES && TablesOk(m, pd) && TablesOk(m', pd) && ReadWrite(m, pd, lo, hi)
    requires EntriesSet(m, m', pd, p, f, n, PRESENT | WRITABLE)
    ensures ReadWrite(m', pd, lo, hi)
  {
    hide WellFormed, HasFlag;
    FlagFacts(EMPTY, 0);
    forall q: nat | lo <= q < hi && q < RECURSIVE * ENTRIES && PageWalk(m', pd, q).Some?
      ensures Pte(m', pd, q).flags == 1 | 2
    {
      if !(p <= q < p + n) { assert PteKept(m, m', pd, q); }
    }
  }

  lemma UnmappingReadWrite(m: Memory, m': Memory, pd: nat, p: nat, n: nat, lo: int, hi: int)
    requires p + n <= RECURSIVE * ENTRIES && TablesOk(m, pd) && TablesOk(m', pd) && ReadWrite(m, pd, lo, hi)
    requires PtesCleared(m, m', pd, p, n)
    ensures ReadWrite(m', pd, lo, hi)
  {
    hide WellFormed, HasFlag;
    FlagFacts(EMPTY, 0);
    forall q: nat | lo <= q < hi && q < RECURSIVE * ENTRIES && PageWalk(m', pd, q).Some?
      ensures Pte(m', pd, q).flags == 1 | 2
    {
      assert PteCleared(m, m', pd, q, p, n);
    }
  }

  lemma NothingSet(m: Memory, pd: nat, p: nat, f: nat, flags: bv12)
    requires TablesOk(m, pd) && p <= RECURSIVE * ENTRIES
    ensures EntriesSet(m, m, pd, p, f, 0, flags)
  {
    hide WellFormed;
    assert PageSlots(p, 0) == {};
  }

  /** How many of the pages p, ..., p + n - 1 are mapped. */
  ghost function PresentPages(m: Memory, pd: nat, p: nat, n: nat): nat
    requires TablesOk(m, pd)
    decreases n
  {
    if n == 0 then 0
    else PresentPages(m, pd, p, n - 1)
         + if p + n - 1 < FRAMES && PageWalk(m, pd, p + n - 1).Some? then 1 else 0
  }

  lemma {:induction false} CountPresent(m: Memory, pd: nat, p: nat, n: nat)
    requires TablesOk(m, pd) && p + n <= FRAMES && forall q: nat :: p <= q < p + n ==> PageWalk(m, pd, q).Some?
    ensures PresentPages(m, pd, p, n) == n
    decreases n
  {
    if n > 0 { CountPresent(m, pd, p, n - 1); }
  }

  function FramesOf(w: Option<nat>): set<nat> { if w.Some? then {w.value} else {} }

  /**
   unmap_pages gets through the pages p, ..., p + n - 1: every frame they are mapped to is in use, and none of them
   serves two of the pages.
   */
  ghost predicate Releasable(m: Memory, pd: nat, p: nat, n: nat, bits: set<nat>)
    requires TablesOk(m, pd) && p + n <= RECURSIVE * ENTRIES
  {
    forall q: nat :: p <= q < p + n && PageWalk(m, pd, q).Some? ==>
      PageWalk(m, pd, q).value in bits && forall q': nat :: p <= q' < q ==> PageWalk(m, pd, q') != PageWalk(m, pd, q)
  }

  /** Of the frames in use, those that none of the pages p, ..., p + n - 1 is mapped to. */
  ghost function StillUsed(m: Memory, pd: nat, p: nat, n: nat, bits: set<nat>): set<nat>
    requires TablesOk(m, pd) && p + n <= RECURSIVE * ENTRIES
  {
    set f | f in bits && forall q: nat :: p <= q < p + n ==> PageWalk(m, pd, q) != Some(f)
  }

  lemma ReleaseStep(m: Memory, pd: nat, p: nat, n: nat, bits: set<nat>)
    requires TablesOk(m, pd) && p + n < RECURSIVE * ENTRIES
    ensures var w := PageWalk(m, pd, p + n);
            && (Releasable(m, pd, p, n + 1, bits) <==>
                  Releasable(m, pd, p, n, bits) && (w.Some? ==> w.value in StillUsed(m, pd, p, n, bits)))
            && StillUsed(m, pd, p, n + 1, bits) ==
                 StillUsed(m, pd, p, n, bits) - FramesOf(w)
  {
    hide PageWalk, WellFormed, RecursiveSlot;
  }

  lemma {:induction false} ReleasableFront(m: Memory, pd: nat, p: nat, n: nat, k: nat, bits: set<nat>)
    requires TablesOk(m, pd) && p + n <= RECURSIVE * ENTRIES && k <= n && Releasable(m, pd, p, n, bits)
    ensures Releasable(m, pd, p, k, bits)
  {
  }

  lemma NothingReleased(m: Memory, pd: nat, p: nat, bits: set<nat>)
    requires TablesOk(m, pd) && p <= RECURSIVE * ENTRIES
    ensures Releasable(m, pd, p, 0, bits) && StillUsed(m, pd, p, 0, bits) == bits
  {
  }

  // ---- the manager ---------------------------------------------------------------------------------

  class Vmm {
    const pmm: P.PhysicalMemory
    var pd: nat
    var mem: Memory

    constructor (pmm: P.PhysicalMemory, mem: Memory)
      ensures this.pmm == pmm && this.mem == mem
    {
      this.pmm, this.mem, pd := pmm, mem, 0;
    }

    ghost predicate Valid()
      reads this, pmm, pmm.mem, pmm.mem.bitmap
    {
      pmm.Valid() && Accounts(mem, pd, pmm.owned)
    }

    /** Frames for the pages p, ..., p + pages - 1 in one free run, and one more for each page table they need. */
    ghost predicate Room(p: nat, pages: nat)
      requires RecursiveSlot(mem, pd)
      reads this, pmm
    {
      RoomFor(pmm.arena - pmm.owned, Slots(mem, pd), p, pages)
    }

    /** Frame and entry index that a kernel pointer to an entry reaches through the processor's walk. */
    function Deref(m: Memory, ptr: int): (int, int)
      requires WellFormed(m) && pd < FRAMES && 0 <= ptr < W32
      reads this
    {
      match Walk(m, pd, ptr)
      case None => (0, 0)
      case Some(pa) => (pa / PAGE, pa % PAGE / 4)
    }

    lemma Pointers(va: int)
      requires RecursiveSlot(mem, pd) && 0 <= va < W32
      ensures 0 <= PdePtr(va) < W32 && 0 <= PtePtr(va) < W32
      ensures Deref(mem, PdePtr(va)) == (pd, va / PAGE / ENTRIES)
      ensures Present(mem[pd][va / PAGE / ENTRIES]) ==>
                Deref(mem, PtePtr(va)) == (mem[pd][va / PAGE / ENTRIES].frame, va / PAGE % ENTRIES)
    {
      assert va / 0x40_0000 == va / 4096 / 1024;
      PdePtrDenotes(mem, pd, va);
      SplitAddress(pd, va / 0x40_0000);
      if Present(mem[pd][va / 0x40_0000]) {
        PtePtrDenotes(mem, pd, va);
        SplitAddress(mem[pd][va / 0x40_0000].frame, va / 0x1000 % 1024);
      } else {
        PtrDigits(va / 0x40_0000, va / 0x1000 % 1024);
      }
    }

    /** init: an identity window of 4 MiB in slot 0, the directory itself in slot 1023, nothing else. */
    method Init() returns (ok: bool)
      requires pmm.Valid() && WellFormed(mem)
      modifies this, pmm`usedFrames, pmm`owned, pmm.mem`allocatedUnits, pmm.mem.bitmap
      ensures ok <==> pmm.availableFrames - old(pmm.usedFrames) >= 2
      ensures ok ==> Valid() && pmm.usedFrames == old(pmm.usedFrames) + 2
      ensures ok ==> forall q: nat :: q < RECURSIVE * ENTRIES ==>
                PageWalk(mem, pd, q) == if q < ENTRIES then Some(q) else None
      ensures ok ==> BootEntries(mem, pd)
    {
      hide P.PhysicalMemory.Valid, PageWalk, Accounts, WithFlags, HasFlag;
      var dir, pt;
      AnyFree();
      ok, dir := AllocFrame();
      if !ok {
        return;
      }
      AnyFree();
      ok, pt := AllocFrame();
      if !ok {
        return;
      }
      mem := mem[dir := seq(ENTRIES, _ => EMPTY)];
      mem := mem[pt := seq(ENTRIES, _ => EMPTY)];
      FillIdentity(pt);
      HangBoot(dir, pt);
      pd := dir;
      BootTables(mem, dir, pt, pmm.owned);
    }

    /** The two directory entries written by init. */
    method HangBoot(dir: nat, pt: nat)
      requires WellFormed(mem) && dir < FRAMES && pt < FRAMES && dir != pt
      requires forall k :: 0 <= k < ENTRIES ==> mem[dir][k] == EMPTY
      modifies this`mem
      ensures WellFormed(mem) && mem[pt] == old(mem)[pt]
      ensures forall k :: 0 <= k < ENTRIES ==>
                mem[dir][k] == if k == 0 then Entry(pt, PRESENT | WRITABLE)
                               else if k == RECURSIVE then Entry(dir, PRESENT | WRITABLE) else EMPTY
    {
      PageAddress(pt);
      PageAddress(dir);
      FreshEntry(pt * PAGE, PRESENT | WRITABLE);
      FreshEntry(dir * PAGE, PRESENT | WRITABLE);
      mem := mem[dir := mem[dir][0 := WithFlags(WithAddress(mem[dir][0], pt * PAGE), PRESENT | WRITABLE)]];
      var self := WithFlags(WithAddress(mem[dir][RECURSIVE], dir * PAGE), PRESENT | WRITABLE);
      mem := mem[dir := mem[dir][RECURSIVE := self]];
    }

    /** The loop that identity-maps the low window. */
    method FillIdentity(pt: nat)
      requires WellFormed(mem) && pt < FRAMES && forall k :: 0 <= k < ENTRIES ==> mem[pt][k] == EMPTY
      modifies this`mem
      ensures WellFormed(mem) && forall f :: f in old(mem) && f != pt ==> f in mem && mem[f] == old(mem)[f]
      ensures forall k :: 0 <= k < ENTRIES ==> mem[pt][k] == Entry(k, PRESENT | WRITABLE)
    {
      var i := 0;
      while i < ENTRIES
        invariant 0 <= i <= ENTRIES && WellFormed(mem)
        invariant forall f :: f in old(mem) && f != pt ==> f in mem && mem[f] == old(mem)[f]
        invariant forall k :: 0 <= k < ENTRIES ==>
                    mem[pt][k] == if k < i then Entry(k, PRESENT | WRITABLE) else EMPTY
      {
        PageAddress(i);
        FreshEntry(i * PAGE, PRESENT | WRITABLE);
        mem := mem[pt := mem[pt][i := WithFlags(WithAddress(mem[pt][i], i * PAGE), PRESENT | WRITABLE)]];
        i := i + 1;
      }
    }

    /** virt_to_phys: exactly the processor's walk, 0xFFFFFFFF for "not mapped". */
    method VirtToPhys(va: int) returns (phys: int)
      requires RecursiveSlot(mem, pd) && 0 <= va < W32
      ensures phys == match Walk(mem, pd, va) case None => 0xFFFF_FFFF case Some(pa) => pa
    {
      Pointers(va);
      assert va / 0x40_0000 == va / 4096 / 1024;
      var slot := Deref(mem, PdePtr(va));
      var pde := mem[slot.0][slot.1];
      if !Present(pde) {
        return 0xFFFF_FFFF;
      }
      slot := Deref(mem, PtePtr(va));
      var pte := mem[slot.0][slot.1];
      if !Present(pte) {
        return 0xFFFF_FFFF;
      }
      phys := pte.frame * PAGE + va % PAGE;
    }

    /** One frame from the allocator, or a panic exactly when none is free. */
    method AllocFrame() returns (ok: bool, f: nat)
      requires pmm.Valid()
      modifies pmm`usedFrames, pmm`owned, pmm.mem`allocatedUnits, pmm.mem.bitmap
      ensures pmm.Valid()
      ensures ok <==> !(pmm.arena <= old(pmm.owned))
      ensures !ok ==> pmm.owned == old(pmm.owned) && pmm.usedFrames == old(pmm.usedFrames)
      ensures ok ==> f < FRAMES && f !in old(pmm.owned) && pmm.owned == old(pmm.owned) + {f}
                     && pmm.usedFrames == old(pmm.usedFrames) + 1 && LowestFree(f, pmm.arena - old(pmm.owned))
    {
      hide Run, From;
      hide P.PhysicalMemory.Valid;
      ghost var at, arena, owned := 0, pmm.arena, pmm.owned;
      ArenaInRange();
      var r;
      r, at := pmm.AllocFrames(1);
      ok, f := r.Done?, 0;
      forall g: nat | g in arena && g !in owned ensures ok { SingleRun(g, arena - owned); }
      if ok { SingleRun(at, arena - owned); }
      if ok {
        f := r.addr / PAGE;
        SplitAddress(at, 0);
        RunGrows(at, 0);
        RunEmpty(at);
        InArena(at);
        forall g: nat | g in arena - owned ensures at <= g { SingleRun(g, arena - owned); }
      }
    }

    lemma AnyFree()
      requires pmm.Valid()
      ensures pmm.arena <= pmm.owned <==> pmm.availableFrames == pmm.usedFrames
      ensures pmm.usedFrames <= pmm.availableFrames
    {
      assert pmm.arena <= pmm.owned <==> pmm.arena - pmm.owned == {};
    }

    lemma ArenaInRange()
      requires pmm.Valid()
      ensures forall g :: g in pmm.arena ==> g < P.MAX_FRAMES
    {
      P.RunBounds(0, P.MAX_FRAMES);
    }

    lemma InArena(f: nat)
      requires pmm.Valid() && f in pmm.owned
      ensures f < FRAMES
    {
      P.RunBounds(0, P.MAX_FRAMES);
    }

    /** ensure_page_table */
    method EnsurePageTable(va: int, flags: bv12) returns (ok: bool, ghost spare: nat)
      requires pmm.Valid() && TablesOk(mem, pd) && TablesOwned(mem, pd, pmm.owned) && 0 <= va < W32
               && va / PAGE / ENTRIES < RECURSIVE
      modifies this`mem, pmm`usedFrames, pmm`owned, pmm.mem`allocatedUnits, pmm.mem.bitmap
      ensures pmm.Valid()
      ensures ok <==> Present(old(mem)[pd][va / PAGE / ENTRIES]) || !(pmm.arena <= old(pmm.owned))
      ensures !ok ==> mem == old(mem) && pmm.owned == old(pmm.owned) && pmm.usedFrames == old(pmm.usedFrames)
      ensures ok ==> var i := va / PAGE / ENTRIES; var known := Present(old(mem)[pd][i]);
                     && spare < FRAMES && spare != pd && mem == EnsureTable(old(mem), pd, i, flags, spare)
                     && pmm.owned == (if known then old(pmm.owned) else old(pmm.owned) + {spare})
                     && (known || (spare !in old(pmm.owned) && LowestFree(spare, pmm.arena - old(pmm.owned))))
                     && pmm.usedFrames == old(pmm.usedFrames) + (if known then 0 else 1)
    {
      hide WithFlags, HasFlag, TablesOwned, TablesOk, Walk, PdePtr, P.PhysicalMemory.Valid;
      SlotsInPlace();
      ok, spare := true, if pd == 0 then 1 else 0;
      Pointers(va);
      var slot := Deref(mem, PdePtr(va));
      var pde := mem[slot.0][slot.1];
      if Present(pde) {
        mem := mem[slot.0 := mem[slot.0][slot.1 := WithFlags(pde, flags)]];
        return;
      }
      var pt;
      DirectoryOwned(mem, pmm.owned);
      ok, pt := AllocFrame();
      if !ok {
        return;
      }
      spare := pt;
      HangTable(va, pt, flags);
    }

    /** The part of ensure_page_table that fills an empty slot with the zeroed frame pt. */
    method HangTable(va: int, pt: nat, flags: bv12)
      requires RecursiveSlot(mem, pd) && 0 <= va < W32 && va / PAGE / ENTRIES < RECURSIVE && pt < FRAMES && pt != pd
      requires !Present(mem[pd][va / PAGE / ENTRIES])
      modifies this`mem
      ensures mem == EnsureTable(old(mem), pd, va / PAGE / ENTRIES, flags, pt)
    {
      hide WithFlags, HasFlag, Walk, PdePtr;
      ghost var i := va / PAGE / ENTRIES;
      Pointers(va);
      var slot := Deref(mem, PdePtr(va));
      StillRecursive(mem, i, flags, pt);
      mem := mem[slot.0 := mem[slot.0][slot.1 := WithFlags(Entry(pt, 0), PRESENT | WRITABLE | (flags & USER))]];
      TableBase(va);
      var table := Deref(mem, PT_BASE + PdeIndex(va) * 0x1000).0;
      mem := mem[table := seq(ENTRIES, _ => EMPTY)];
      assert mem[table] == ZeroTable();
    }

    lemma SlotsInPlace()
      requires TablesOk(mem, pd)
      ensures RecursiveSlot(mem, pd)
    {
    }

    /** pt_virtual_base(va) reaches the first entry of the table that serves va. */
    lemma TableBase(va: int)
      requires RecursiveSlot(mem, pd) && 0 <= va < W32 && Present(mem[pd][va / PAGE / ENTRIES])
      ensures 0 <= PT_BASE + PdeIndex(va) * 0x1000 < W32
      ensures Deref(mem, PT_BASE + PdeIndex(va) * 0x1000) == (mem[pd][va / PAGE / ENTRIES].frame, 0)
    {
      assert va / 0x40_0000 == va / 4096 / 1024 && PdeIndex(va) == va / 0x40_0000;
      PtrDigits(PdeIndex(va), 0);
      SplitAddress(mem[pd][va / PAGE / ENTRIES].frame, 0);
    }

    lemma StillRecursive(m: Memory, i: int, flags: bv12, spare: nat)
      requires RecursiveSlot(m, pd) && 0 <= i < RECURSIVE && spare < FRAMES
      ensures var m1 := m[pd := m[pd][i := WithFlags(Entry(spare, 0), PRESENT | WRITABLE | (flags & USER))]];
              RecursiveSlot(m1, pd) && Present(m1[pd][i]) && m1[pd][i].frame == spare
    {
    }

    /** map_page_locked */
    method MapPageLocked(va: int, pa: int, flags: bv12) returns (ok: bool, ghost spare: nat)
      requires pmm.Valid() && TablesOk(mem, pd) && TablesOwned(mem, pd, pmm.owned)
      requires 0 <= va < W32 && va / PAGE < RECURSIVE * ENTRIES && 0 <= pa < W32
      modifies this`mem, pmm`usedFrames, pmm`owned, pmm.mem`allocatedUnits, pmm.mem.bitmap
      ensures pmm.Valid()
      ensures ok <==> Present(old(mem)[pd][va / PAGE / ENTRIES]) || !(pmm.arena <= old(pmm.owned))
      ensures !ok ==> mem == old(mem) && pmm.owned == old(pmm.owned) && pmm.usedFrames == old(pmm.usedFrames)
      ensures ok ==> var p := va / PAGE; var known := Present(old(mem)[pd][p / ENTRIES]);
                     && spare < FRAMES && spare != pd
                     && (known || (spare !in old(pmm.owned) && LowestFree(spare, pmm.arena - old(pmm.owned))))
                     && mem == Mapped(old(mem), pd, p, pa / PAGE, flags, spare)
                     && pmm.owned == (if known then old(pmm.owned) else old(pmm.owned) + {spare})
                     && pmm.usedFrames == old(pmm.usedFrames) + (if known then 0 else 1)
    {
      hide WithFlags, HasFlag, TablesOwned, TablesOk, Walk, PtePtr, P.PhysicalMemory.Valid;
      var aligned := va / PAGE * PAGE;
      SamePageNumber(va);
      SlotsInPlace();
      InDirectory(va / PAGE);
      ghost var p := va / PAGE;
      ok, spare := EnsurePageTable(aligned, flags);
      if !ok {
        return;
      }
      EnsuredWellFormed(old(mem), pd, p / ENTRIES, flags, spare);
      EnsuredRecursive(old(mem), p / ENTRIES, flags, spare);
      Pointers(aligned);
      var slot := Deref(mem, PtePtr(aligned));
      mem := mem[slot.0 := mem[slot.0][slot.1 := WithFlags(WithAddress(EMPTY, pa), flags)]];
      FreshEntry(pa, flags);
    }

    lemma EnsuredRecursive(m: Memory, i: int, flags: bv12, spare: nat)
      requires RecursiveSlot(m, pd) && 0 <= i < RECURSIVE && spare < FRAMES && spare != pd
      ensures RecursiveSlot(EnsureTable(m, pd, i, flags, spare), pd)
    {
    }

    /** The accounts are in order, and the pages and frames to be mapped are fresh. */
    ghost predicate Tracked(m: Memory, owned: set<nat>, p: nat, f: nat, pages: nat)
      reads this
    {
      Accounts(m, pd, owned) && FreshFor(m, pd, owned, p, f, pages)
    }

    /** map_pages: n pages onto n consecutive frames; all other translations stay. */
    method MapPages(va: int, pa: int, pages: nat, flags: bv12) returns (ok: bool)
      requires pmm.Valid() && TablesOk(mem, pd) && TablesOwned(mem, pd, pmm.owned)
      requires 0 <= va < W32 && va / PAGE + pages <= RECURSIVE * ENTRIES && 0 <= pa < W32 && pa / PAGE + pages <= FRAMES
      modifies this`mem, pmm`usedFrames, pmm`owned, pmm.mem`allocatedUnits, pmm.mem.bitmap
      ensures pmm.Valid()
      ensures ok <==>
                |NewSlots(old(mem), pd, va / PAGE, pages)| <= pmm.availableFrames - old(pmm.usedFrames)
      ensures !ok ==> pmm.arena <= pmm.owned
      ensures ok ==>
                && TablesOk(mem, pd) && TablesOwned(mem, pd, pmm.owned)
                && Translations(old(mem), mem, pd, va / PAGE, pa / PAGE, pages, flags)
                && pmm.usedFrames == old(pmm.usedFrames) + |Slots(mem, pd)| - |Slots(old(mem), pd)|
                && Grew(pmm.arena, Slots(old(mem), pd), old(pmm.owned), Slots(mem, pd), pmm.owned, va / PAGE, pages)
                && EntriesSet(old(mem), mem, pd, va / PAGE, pa / PAGE, pages, flags)
                && (Tracked(old(mem), old(pmm.owned), va / PAGE, pa / PAGE, pages) ==> Accounts(mem, pd, pmm.owned))
    {
      hide WithFlags, HasFlag, WellFormed, TablesOwned, P.PhysicalMemory.Valid, Mapped, Accounts, FreshFor, Slots;
      hide PageWalk, Translations, NewSlots, Grew, LowestFree, EntriesSet;
      ok := true;
      var p0, f0 := va / PAGE, pa / PAGE;
      NothingYet(p0, f0, flags);
      ghost var owned0, slots0 := pmm.owned, Slots(mem, pd);
      GrewNone(pmm.arena, slots0, owned0, p0);
      NothingSet(mem, pd, p0, f0, flags);
      ghost var m0, tracked := mem, Tracked(mem, pmm.owned, p0, f0, pages);
      var i := 0;
      while i < pages
        invariant 0 <= i <= pages && pmm.Valid()
        invariant TablesOk(mem, pd) && TablesOwned(mem, pd, pmm.owned)
        invariant Translations(m0, mem, pd, p0, f0, i, flags)
        invariant pmm.usedFrames == old(pmm.usedFrames) + |Slots(mem, pd)| - |Slots(m0, pd)|
        invariant Grew(pmm.arena, slots0, owned0, Slots(mem, pd), pmm.owned, p0, i)
        invariant EntriesSet(m0, mem, pd, p0, f0, i, flags)
        invariant |NewSlots(m0, pd, p0, pages)| ==
                    |NewSlots(mem, pd, p0 + i, pages - i)| + |Slots(mem, pd)| - |Slots(m0, pd)|
        invariant tracked ==> Tracked(mem, pmm.owned, p0 + i, f0 + i, pages - i)
      {
        PageAddress(p0 + i);
        PageAddress(f0 + i);
        ghost var m1, owned1 := mem, pmm.owned;
        ghost var spare;
        ok, spare := MapPageLocked((p0 + i) * PAGE, (f0 + i) * PAGE, flags);
        if !ok {
          OutOfTables(m1, p0 + i, pages - i);
          return;
        }
        OnePage(m0, m1, p0, f0, i, flags, spare, owned1, pages, tracked);
        NewSlotsStep(m1, mem, pd, p0 + i, pages - i);
        GrewStep(pmm.arena, slots0, owned0, Slots(m1, pd), owned1, p0, i, pmm.owned, spare);
        i := i + 1;
      }
      NewSlotsNone(mem, pd, p0 + pages);
      FreeCount();
    }

    lemma NothingYet(p: nat, f: nat, flags: bv12)
      requires TablesOk(mem, pd) && p <= RECURSIVE * ENTRIES
      ensures Translations(mem, mem, pd, p, f, 0, flags)
    {
    }

    /** One turn of the map_pages loop. */
    lemma OnePage(m0: Memory, m1: Memory, p0: nat, f0: nat, i: nat, flags: bv12, spare: nat, owned: set<nat>,
                  pages: nat, tracked: bool)
      requires TablesOk(m0, pd) && TablesOk(m1, pd) && TablesOwned(m1, pd, owned)
      requires i < pages && p0 + pages <= RECURSIVE * ENTRIES && f0 + pages <= FRAMES
      requires Translations(m0, m1, pd, p0, f0, i, flags)
      requires spare < FRAMES && spare != pd && (Present(m1[pd][(p0 + i) / ENTRIES]) || spare !in owned)
      requires tracked ==> Tracked(m1, owned, p0 + i, f0 + i, pages - i)
      ensures var m2 := Mapped(m1, pd, p0 + i, f0 + i, flags, spare);
              var owned2 := if Present(m1[pd][(p0 + i) / ENTRIES]) then owned else owned + {spare};
              && TablesOk(m2, pd) && TablesOwned(m2, pd, owned2)
              && Translations(m0, m2, pd, p0, f0, i + 1, flags)
              && |Slots(m2, pd)| == |Slots(m1, pd)| + (if Present(m1[pd][(p0 + i) / ENTRIES]) then 0 else 1)
              && Slots(m2, pd) == Slots(m1, pd) + {(p0 + i) / ENTRIES}
              && (EntriesSet(m0, m1, pd, p0, f0, i, flags) ==> EntriesSet(m0, m2, pd, p0, f0, i + 1, flags))
              && (tracked ==> Tracked(m2, owned2, p0 + i + 1, f0 + i + 1, pages - i - 1))
    {
      hide HasFlag, WellFormed, Mapped, PageWalk, IsTable, Accounts, Loose, Slots, EntriesSet;
      var p, f := p0 + i, f0 + i;
      InDirectory(p);
      NotATable(m1, p, spare, owned);
      MapTranslates(m1, pd, p, f, flags, spare);
      hide RecursiveSlot, TablesOwned, FreshFor;
      MapSlots(m1, pd, p, f, flags, spare);
      SlotOf(m1, p);
      EntriesStep(m0, m1, p0, f0, i, flags, spare);
      if tracked {
        StillFresh(m1, p, f, flags, spare, owned, pages - i);
      }
    }

    lemma EntriesStep(m0: Memory, m1: Memory, p0: nat, f0: nat, i: nat, flags: bv12, spare: nat)
      requires TablesOk(m0, pd) && TablesOk(m1, pd) && p0 + i < RECURSIVE * ENTRIES && f0 + i < FRAMES
      requires spare < FRAMES && spare != pd && (Present(m1[pd][(p0 + i) / ENTRIES]) || !IsTable(m1, pd, spare))
      ensures var m2 := Mapped(m1, pd, p0 + i, f0 + i, flags, spare);
              && TablesOk(m2, pd)
              && (EntriesSet(m0, m1, pd, p0, f0, i, flags) ==> EntriesSet(m0, m2, pd, p0, f0, i + 1, flags))
    {
      hide HasFlag, WellFormed, Mapped, IsTable, PtesSet, PdesSet, PteKept, Pte, PdeAfter;
      InDirectory(p0 + i);
      MapEntries(m1, pd, p0 + i, f0 + i, flags, spare);
      var m2 := Mapped(m1, pd, p0 + i, f0 + i, flags, spare);
      if EntriesSet(m0, m1, pd, p0, f0, i, flags) {
        PtesStep(m0, m1, m2, pd, p0, f0, i, flags);
        PdesStep(m0, m1, m2, pd, p0, i, flags, spare);
      }
    }

    lemma NotATable(m: Memory, p: nat, spare: nat, owned: set<nat>)
      requires TablesOk(m, pd) && TablesOwned(m, pd, owned) && p < RECURSIVE * ENTRIES && spare < FRAMES
      requires Present(m[pd][p / ENTRIES]) || spare !in owned
      ensures Present(m[pd][p / ENTRIES]) || !IsTable(m, pd, spare)
    {
    }

    lemma RoomWhen(p: nat, pages: nat)
      requires pmm.Valid() && RecursiveSlot(mem, pd)
      ensures Room(p, pages) <==>
                && (exists k: nat :: k + pages <= P.MAX_FRAMES && Run(k, pages) <= pmm.arena - pmm.owned)
                && pages + |NewSlots(mem, pd, p, pages)| <= pmm.availableFrames - pmm.usedFrames
    {
      hide Run, From, PageSlots, Slots;
      FreeCount();
    }

    lemma FreeCount()
      requires pmm.Valid()
      ensures pmm.availableFrames - pmm.usedFrames == |pmm.arena - pmm.owned|
    {
    }

    lemma OutOfTables(m: Memory, p: nat, n: nat)
      requires pmm.Valid() && pmm.arena <= pmm.owned
      requires TablesOk(m, pd) && p < RECURSIVE * ENTRIES && n > 0 && !Present(m[pd][p / ENTRIES])
      ensures |NewSlots(m, pd, p, n)| > pmm.availableFrames - pmm.usedFrames
    {
      assert pmm.arena - pmm.owned == {};
      SlotOf(m, p);
      assert p / ENTRIES in NewSlots(m, pd, p, n);
    }

    lemma SlotOf(m: Memory, p: nat)
      requires TablesOk(m, pd) && p < RECURSIVE * ENTRIES
      ensures p / ENTRIES in Slots(m, pd) <==> Present(m[pd][p / ENTRIES])
    {
    }

    lemma StillFresh(m: Memory, p: nat, f: nat, flags: bv12, spare: nat, owned: set<nat>, pages: nat)
      requires TablesOk(m, pd) && pages > 0 && Accounts(m, pd, owned) && FreshFor(m, pd, owned, p, f, pages)
      requires p + pages <= RECURSIVE * ENTRIES && spare < FRAMES && spare != pd
      requires Present(m[pd][p / ENTRIES]) || spare !in owned
      requires f < FRAMES
      ensures var m2 := Mapped(m, pd, p, f, flags, spare);
              var owned2 := if Present(m[pd][p / ENTRIES]) then owned else owned + {spare};
              TablesOk(m2, pd) && Accounts(m2, pd, owned2) && FreshFor(m2, pd, owned2, p + 1, f + 1, pages - 1)
    {
      hide HasFlag, WellFormed, Mapped, PageWalk, IsTable, Accounts, Loose;
      assert DataPage(p) && PageWalk(m, pd, p) == None && Spare(m, pd, owned, f);
      InDirectory(p);
      TablesAmong(m, owned);
      NotATable(m, p, spare, owned);
      MapKeepsAccounts(m, pd, p, f, flags, spare, owned);
      MapTranslates(m, pd, p, f, flags, spare);
      var m2 := Mapped(m, pd, p, f, flags, spare);
      forall q: nat | p + 1 <= q < p + pages ensures DataPage(q) && PageWalk(m2, pd, q) == None {
        assert DataPage(q) && PageWalk(m, pd, q) == None;
      }
      DirectoryThere(m);
      var owned2 := if Present(m[pd][p / ENTRIES]) then owned else owned + {spare};
      forall g: nat | f + 1 <= g < f + pages ensures Spare(m2, pd, owned2, g) {
        assert Spare(m, pd, owned, g);
      }
    }

    lemma DirectoryThere(m: Memory)
      requires RecursiveSlot(m, pd)
      ensures pd in m && |m[pd]| == ENTRIES
    {
    }

    lemma BackedToo()
      requires pmm.Valid()
      ensures pmm.Backed()
    {
    }

    lemma TablesAmong(m: Memory, owned: set<nat>)
      requires Accounts(m, pd, owned)
      ensures TablesOk(m, pd) && TablesOwned(m, pd, owned)
    {
    }

    /**
     alloc_frames(n) followed by map_pages, as the heap and the module loader do it: the pages translate to n
     fresh frames, and used_frames grows by n plus one for each page table created. It panics exactly when there is no
     room for pages and tables.
     */
    method MapFresh(va: int, pages: nat, flags: bv12) returns (ok: bool, ghost f: nat)
      requires Valid() && 0 <= va < W32 && va / PAGE + pages <= RECURSIVE * ENTRIES
      requires pages > 0 && forall q: nat :: va / PAGE <= q < va / PAGE + pages ==>
                 DataPage(q) && PageWalk(mem, pd, q) == None
      modifies this`mem, pmm`usedFrames, pmm`owned, pmm.mem`allocatedUnits, pmm.mem.bitmap
      ensures ok <==> old(Room(va / PAGE, pages))
      ensures !ok ==>
                || pmm.arena <= pmm.owned
                || forall k: nat :: k + pages <= P.MAX_FRAMES ==> !(Run(k, pages) <= old(pmm.arena - pmm.owned))
      ensures ok ==>
                && Valid() && f + pages <= FRAMES && Run(f, pages) !! old(pmm.owned)
                && Translations(old(mem), mem, pd, va / PAGE, f, pages, flags)
                && EntriesSet(old(mem), mem, pd, va / PAGE, f, pages, flags)
                && pmm.usedFrames == old(pmm.usedFrames) + pages + |Slots(mem, pd)| - |Slots(old(mem), pd)|
    {
      hide EntriesSet;
      hide TablesOk, TablesOwned, P.PhysicalMemory.Valid, Accounts, FreshFor, PageWalk, Translations, Run, From;
      hide WellFormed;
      TablesAmong(mem, pmm.owned);
      FreeCount();
      ghost var owned0 := pmm.owned;
      var r;
      r, f := pmm.AllocFrames(pages);
      ok := r.Done?;
      if !ok {
        return;
      }
      ok := MapTaken(va, r.addr, pages, flags, owned0, f);
    }

    /** map_pages onto frames just taken from the allocator. */
    method MapTaken(va: int, pa: int, pages: nat, flags: bv12, ghost owned0: set<nat>, ghost f: nat) returns (ok: bool)
      requires pmm.Valid() && Accounts(mem, pd, owned0) && pages > 0 && pa == f * PAGE
      requires pmm.owned == owned0 + Run(f, pages) && Run(f, pages) !! owned0
      requires 0 <= va < W32 && va / PAGE + pages <= RECURSIVE * ENTRIES
      requires forall q: nat :: va / PAGE <= q < va / PAGE + pages ==> DataPage(q) && PageWalk(mem, pd, q) == None
      modifies this`mem, pmm`usedFrames, pmm`owned, pmm.mem`allocatedUnits, pmm.mem.bitmap
      ensures ok <==>
                |NewSlots(old(mem), pd, va / PAGE, pages)| <= pmm.availableFrames - old(pmm.usedFrames)
      ensures !ok ==> pmm.arena <= pmm.owned
      ensures ok ==>
                && Valid() && f + pages <= FRAMES && Translations(old(mem), mem, pd, va / PAGE, f, pages, flags)
                && pmm.usedFrames == old(pmm.usedFrames) + |Slots(mem, pd)| - |Slots(old(mem), pd)|
                && Grew(pmm.arena, Slots(old(mem), pd), old(pmm.owned), Slots(mem, pd), pmm.owned, va / PAGE, pages)
                && EntriesSet(old(mem), mem, pd, va / PAGE, f, pages, flags)
    {
      hide EntriesSet;
      hide TablesOk, TablesOwned, P.PhysicalMemory.Valid, Accounts, FreshFor, PageWalk, Translations, Run, From;
      hide WellFormed;
      FreshFrames(mem, owned0, va / PAGE, f, pages);
      TablesAmong(mem, pmm.owned);
      PageAddress(f);
      ok := MapPages(va, pa, pages, flags);
    }

    lemma FreshFrames(m: Memory, owned: set<nat>, p: nat, f: nat, pages: nat)
      requires Accounts(m, pd, owned) && pmm.Valid() && pages > 0
      requires pmm.owned == owned + Run(f, pages) && Run(f, pages) !! owned
      requires forall q: nat :: p <= q < p + pages ==> DataPage(q) && PageWalk(m, pd, q) == None
      ensures f + pages <= FRAMES && FreshFor(m, pd, pmm.owned, p, f, pages)
      ensures Accounts(m, pd, pmm.owned) && TablesOwned(m, pd, pmm.owned)
    {
      P.RunBounds(f, pages);
      P.RunBounds(0, P.MAX_FRAMES);
      assert f + pages - 1 in Run(f, pages);
      hide PageWalk, IsTable, WellFormed;
      forall g: nat | f <= g < f + pages ensures Spare(m, pd, pmm.owned, g) {
        assert g in Run(f, pages) && g in pmm.owned;
      }
    }

    /**
     unmap_page_locked: frees the frame exactly if the page is mapped, and panics exactly if that frame is not in use.
     With the accounts in order it never panics on a data page, and they stay in order.
     */
    method UnmapPageLocked(va: int) returns (ok: bool)
      requires pmm.Backed() && TablesOk(mem, pd) && 0 <= va < W32 && va / PAGE < RECURSIVE * ENTRIES
      modifies this`mem, pmm`usedFrames, pmm`owned, pmm.mem`allocatedUnits, pmm.mem.bitmap
      ensures ok <==> match PageWalk(old(mem), pd, va / PAGE) case None => true case Some(f) => f in old(pmm.Bits())
      ensures ok ==>
                && pmm.Backed() && TablesOk(mem, pd) && PageWalk(mem, pd, va / PAGE) == None
                && (forall q: nat :: q < RECURSIVE * ENTRIES && q != va / PAGE ==>
                      PageWalk(mem, pd, q) == PageWalk(old(mem), pd, q))
                && pmm.usedFrames == old(pmm.usedFrames) - (if PageWalk(old(mem), pd, va / PAGE).Some? then 1 else 0)
                && pmm.Bits() == old(pmm.Bits()) - FramesOf(PageWalk(old(mem), pd, va / PAGE))
                && Slots(mem, pd) == Slots(old(mem), pd) && PtesCleared(old(mem), mem, pd, va / PAGE, 1)
      ensures old(Valid()) && DataPage(va / PAGE) ==> ok && Valid()
    {
      hide TablesOwned, P.PhysicalMemory.Valid, P.PhysicalMemory.Backed, P.PhysicalMemory.Bits, HasFlag, Accounts;
      hide IsTable;
      hide Run, From, Walk, FixedBitmap.NoWrap;
      ok := true;
      var aligned := va / PAGE * PAGE;
      SamePageNumber(va);
      ghost var p, known := va / PAGE, Valid() && DataPage(va / PAGE);
      InDirectory(p);
      Pointers(aligned);
      var slot := Deref(mem, PdePtr(aligned));
      var pde := mem[slot.0][slot.1];
      NothingCleared(mem, pd, p);
      if !Present(pde) {
        return;
      }
      slot := Deref(mem, PtePtr(aligned));
      var pte := mem[slot.0][slot.1];
      if !Present(pte) {
        return;
      }
      OneCleared(mem, pd, p);
      if known { UnmapKeepsAccounts(mem, pd, p, pmm.owned); }
      UnmapTranslates(mem, pd, p);
      UnmapSlots(mem, pd, p);
      OneFrame(pte.frame);
      FrameReturns(pte.frame);
      var r := pmm.FreeFramesAt(pte.frame * PAGE, 1);
      ok := r.Done?;
      mem := mem[slot.0 := mem[slot.0][slot.1 := EMPTY]];
    }

    lemma FrameReturns(f: nat)
      requires pmm.Backed() && f < FRAMES
      ensures f * PAGE < W32 && pmm.mem.NoWrap(f * PAGE, 1)
      ensures forall bits: set<nat> :: pmm.Returnable(f * PAGE, 1, bits) <==> f in bits
    {
      OneFrame(f);
    }

    /**
     unmap_pages: it panics exactly when a page is mapped to a frame that is not in use, or two of the pages to the same
     frame. Over data pages with the accounts in order it never does.
     */
    method UnmapPages(va: int, pages: nat) returns (ok: bool)
      requires pmm.Backed() && TablesOk(mem, pd) && 0 <= va < W32 && va / PAGE + pages <= RECURSIVE * ENTRIES
      modifies this`mem, pmm`usedFrames, pmm`owned, pmm.mem`allocatedUnits, pmm.mem.bitmap
      ensures ok <==> Releasable(old(mem), pd, va / PAGE, pages, old(pmm.Bits()))
      ensures ok ==>
                && pmm.Backed() && TablesOk(mem, pd) && Slots(mem, pd) == Slots(old(mem), pd)
                && PtesCleared(old(mem), mem, pd, va / PAGE, pages)
                && pmm.Bits() == StillUsed(old(mem), pd, va / PAGE, pages, old(pmm.Bits()))
                && (forall q: nat :: q < RECURSIVE * ENTRIES ==>
                      PageWalk(mem, pd, q) ==
                          if va / PAGE <= q < va / PAGE + pages then None else PageWalk(old(mem), pd, q))
                && pmm.usedFrames == old(pmm.usedFrames) - PresentPages(old(mem), pd, va / PAGE, pages)
      ensures old(Valid()) && (forall q: nat :: va / PAGE <= q < va / PAGE + pages ==> DataPage(q)) ==> ok && Valid()
    {
      hide TablesOwned, P.PhysicalMemory.Valid, P.PhysicalMemory.Backed, P.PhysicalMemory.Bits, HasFlag, Accounts;
      hide IsTable;
      hide PageWalk, WellFormed, Slots, Releasable, StillUsed, Valid, PtesCleared;
      ok := true;
      var p0 := va / PAGE;
      ghost var m0, bits := mem, pmm.Bits();
      NothingReleased(m0, pd, p0, bits);
      NothingCleared(m0, pd, p0);
      ghost var known := Valid() && forall q: nat :: p0 <= q < p0 + pages ==> DataPage(q);
      var i := 0;
      while i < pages
        invariant 0 <= i <= pages && ok && pmm.Backed() && TablesOk(mem, pd) && (known ==> Valid())
        invariant forall q: nat :: q < RECURSIVE * ENTRIES ==>
                    PageWalk(mem, pd, q) == if p0 <= q < p0 + i then None else PageWalk(m0, pd, q)
        invariant pmm.usedFrames == old(pmm.usedFrames) - PresentPages(m0, pd, p0, i) && Slots(mem, pd) == Slots(m0, pd)
        invariant Releasable(m0, pd, p0, i, bits) && pmm.Bits() == StillUsed(m0, pd, p0, i, bits)
        invariant PtesCleared(m0, mem, pd, p0, i)
      {
        ghost var m1 := mem;
        ReleaseStep(m0, pd, p0, i, bits);
        PageAddress(p0 + i);
        ok := UnmapPageLocked((p0 + i) * PAGE);
        if !ok {
          if Releasable(m0, pd, p0, pages, bits) { ReleasableFront(m0, pd, p0, pages, i + 1, bits); }
          return;
        }
        ClearedStep(m0, m1, mem, pd, p0, i);
        i := i + 1;
      }
    }

    lemma DirectoryOwned(m: Memory, owned: set<nat>)
      requires TablesOk(m, pd) && TablesOwned(m, pd, owned)
      ensures pd in owned
    {
    }
  }

  lemma PresentEntry(g: nat)
    ensures Present(Entry(g, PRESENT | WRITABLE))
  {
  }

  lemma SingleRun(g: nat, s: set<nat>)
    ensures Run(g, 1) <= s <==> g in s
  {
  }

  lemma SamePageNumber(va: int)
    requires 0 <= va < W32
    ensures va / PAGE * PAGE / PAGE == va / PAGE && 0 <= va / PAGE * PAGE < W32
  {
  }

  lemma PageAddress(p: nat)
    requires p < FRAMES
    ensures p * PAGE / PAGE == p && p * PAGE < W32
  {
  }

  lemma FreshEntry(pa: int, flags: bv12)
    requires pa >= 0
    ensures WithFlags(WithAddress(EMPTY, pa), flags) == Entry(pa / PAGE, flags)
  {
  }

  lemma BootTables(m: Memory, dir: nat, pt: nat, owned: set<nat>)
    requires WellFormed(m) && dir < FRAMES && pt < FRAMES && dir != pt && dir in owned && pt in owned
    requires forall k :: 0 <= k < ENTRIES ==> m[pt][k] == Entry(k, PRESENT | WRITABLE)
    requires forall k :: 0 <= k < ENTRIES ==>
               m[dir][k] == if k == 0 then Entry(pt, PRESENT | WRITABLE)
                            else if k == RECURSIVE then Entry(dir, PRESENT | WRITABLE) else EMPTY
    ensures Accounts(m, dir, owned) && BootEntries(m, dir)
    ensures forall q: nat :: q < RECURSIVE * ENTRIES ==> PageWalk(m, dir, q) == if q < ENTRIES then Some(q) else None
  {
  }

  /** Pages 0 to 1023 are present and writable, and nothing more; so are the two directory slots in use. */
  ghost predicate BootEntries(m: Memory, pd: nat)
    requires RecursiveSlot(m, pd)
  {
    && m[pd][0].flags == 1 | 2 && m[pd][RECURSIVE] == Entry(pd, 1 | 2)
    && (forall i :: 0 < i < RECURSIVE ==> m[pd][i] == Entry(0, 0))
    && (forall q: nat :: q < ENTRIES ==> Pte(m, pd, q) == Entry(q, 1 | 2))
  }

  lemma OneFrame(f: nat)
    requires f < FRAMES
    ensures f * PAGE < W32 && f * PAGE % PAGE == 0 && P.FrameOf(f * PAGE) == f && Run(f, 1) == {f}
  {
  }

  lemma SplitAddress(f: nat, i: int)
    requires 0 <= i < 1024
    ensures (f * PAGE + 4 * i) / PAGE == f && (f * PAGE + 4 * i) % PAGE / 4 == i
  {
  }
}

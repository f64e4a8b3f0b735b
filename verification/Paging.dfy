/**
 Two-level paging as kernel/include/mm/vmm.hpp edits it, against the 32-bit page walk of the processor
 (section 4.3 of the Intel SDM, volume 3A; CR4.PSE is never set, so PDE bit 7 is ignored).
 */
module Paging {
  import opened Machine

  const FRAMES := 0x10_0000
  const ENTRIES := 1024
  const RECURSIVE := 1023
  const PDE_BASE := 0xFFFF_F000
  const PT_BASE := 0xFFC0_0000

  const PRESENT: bv12 := 1
  const WRITABLE: bv12 := 2
  const USER: bv12 := 4

  /** A 32-bit entry: 20 address bits and 12 flag bits. */
  datatype Entry = Entry(frame: nat, flags: bv12)

  const EMPTY := Entry(0, 0)

  predicate HasFlag(e: Entry, flag: bv12) { e.flags & flag == flag }

  predicate Present(e: Entry) { HasFlag(e, PRESENT) }

  /** set_address */
  function WithAddress(e: Entry, phys: int): Entry
    requires phys >= 0
  {
    Entry(phys / PAGE, e.flags)
  }

  /** update_flags only ever adds flags. */
  function WithFlags(e: Entry, flags: bv12): Entry { Entry(e.frame, e.flags | flags) }

  lemma FlagFacts(e: Entry, flags: bv12)
    ensures Present(e) ==> Present(WithFlags(e, flags))
    ensures Present(WithFlags(EMPTY, PRESENT | WRITABLE | (flags & USER)))
    ensures !Present(EMPTY)
  {
  }

  /** Physical memory, frame by frame, each frame read as a table of entries. */
  type Memory = map<nat, seq<Entry>>

  ghost predicate WellFormed(m: Memory)
  {
    forall f: nat :: f < FRAMES ==>
      f in m && |m[f]| == ENTRIES && forall i :: 0 <= i < ENTRIES ==> m[f][i].frame < FRAMES
  }

  // ---- what the processor does -------------------------------------------------------------------

  /** The page walk: CR3 names the directory, bits 31:22 the PDE, bits 21:12 the PTE. */
  function Walk(m: Memory, cr3: nat, va: int): Option<int>
    requires WellFormed(m) && cr3 < FRAMES && 0 <= va < W32
  {
    var pde := m[cr3][va / 0x40_0000];
    if !Present(pde) then None
    else
      var pte := m[pde.frame][va / 0x1000 % 1024];
      if !Present(pte) then None else Some(pte.frame * PAGE + va % PAGE)
  }

  /** The same for page numbers. */
  function PageWalk(m: Memory, cr3: nat, p: nat): Option<nat>
    requires WellFormed(m) && cr3 < FRAMES && p < FRAMES
  {
    var pde := m[cr3][p / ENTRIES];
    if !Present(pde) then None
    else
      var pte := m[pde.frame][p % ENTRIES];
      if !Present(pte) then None else Some(pte.frame)
  }

  lemma WalkByPage(m: Memory, cr3: nat, va: int)
    requires WellFormed(m) && cr3 < FRAMES && 0 <= va < W32
    ensures va / PAGE < FRAMES
    ensures Walk(m, cr3, va) == match PageWalk(m, cr3, va / PAGE)
                                case None => None
                                case Some(f) => Some(f * PAGE + va % PAGE)
  {
  }

  // ---- what the kernel does ----------------------------------------------------------------------

  function PdeIndex(va: int): int { va / 0x40_0000 % 1024 }

  function PteIndex(va: int): int { va / 0x1000 % 1024 }

  /** Virtual addresses of the entries, through the recursive slot. */
  function PdePtr(va: int): int { PDE_BASE + PdeIndex(va) * 4 }

  function PtePtr(va: int): int { PT_BASE + PdeIndex(va) * 0x1000 + PteIndex(va) * 4 }

  /** Slot 1023 of the directory points to the directory. */
  ghost predicate RecursiveSlot(m: Memory, pd: nat)
  {
    WellFormed(m) && pd < FRAMES && Present(m[pd][RECURSIVE]) && m[pd][RECURSIVE].frame == pd
  }

  /** Dereferencing pde_entry(va) reaches exactly the PDE that the walk of va uses. */
  lemma PdePtrDenotes(m: Memory, pd: nat, va: int)
    requires RecursiveSlot(m, pd) && 0 <= va < W32
    ensures 0 <= PdePtr(va) < W32
    ensures Walk(m, pd, PdePtr(va)) == Some(pd * PAGE + 4 * (va / 0x40_0000))
  {
  }

  /** Dereferencing pte_entry(va) reaches exactly the PTE that the walk of va uses, once the PDE is present. */
  lemma PtePtrDenotes(m: Memory, pd: nat, va: int)
    requires RecursiveSlot(m, pd) && 0 <= va < W32 && Present(m[pd][va / 0x40_0000])
    ensures 0 <= PtePtr(va) < W32
    ensures Walk(m, pd, PtePtr(va)) == Some(m[pd][va / 0x40_0000].frame * PAGE + 4 * (va / 0x1000 % 1024))
  {
    var i, j := va / 0x40_0000, va / 0x1000 % 1024;
    assert 0 <= i < 1024 && PdeIndex(va) == i;
    PtrDigits(i, j);
  }

  lemma PtrDigits(i: int, j: int)
    requires 0 <= i < 1024 && 0 <= j < 1024
    ensures var p := PT_BASE + i * 0x1000 + j * 4;
            p / 0x40_0000 == 1023 && p / 0x1000 % 1024 == i && p % 4096 == 4 * j && 0 <= p < W32
  {
  }

  // ---- table edits -------------------------------------------------------------------------------

  ghost function ZeroTable(): seq<Entry>
  {
    seq(ENTRIES, _ => EMPTY)
  }

  /** Store one entry of a table. */
  ghost function Poke(m: Memory, f: nat, i: int, e: Entry): Memory
    requires f in m && 0 <= i < |m[f]|
  {
    m[f := m[f][i := e]]
  }

  /** Tables do not alias: the recursive slot is in place and the other slots name different frames. */
  ghost predicate TablesOk(m: Memory, pd: nat)
  {
    && RecursiveSlot(m, pd)
    && (forall i :: 0 <= i < RECURSIVE && Present(m[pd][i]) ==> m[pd][i].frame != pd)
    && (forall i, j :: 0 <= i < j < RECURSIVE && Present(m[pd][i]) && Present(m[pd][j]) ==>
        m[pd][i].frame != m[pd][j].frame)
  }

  /** f is the directory or one of its tables. */
  ghost predicate IsTable(m: Memory, pd: nat, f: nat)
    requires RecursiveSlot(m, pd)
  {
    f == pd || exists i :: 0 <= i < RECURSIVE && Present(m[pd][i]) && m[pd][i].frame == f
  }

  /** ensure_page_table: adds flags to a present PDE, or hangs a zeroed frame `spare` into the slot. */
  ghost function EnsureTable(m: Memory, pd: nat, i: int, flags: bv12, spare: nat): Memory
    requires WellFormed(m) && pd < FRAMES && 0 <= i < ENTRIES
  {
    if Present(m[pd][i]) then Poke(m, pd, i, WithFlags(m[pd][i], flags))
    else Poke(m, pd, i, WithFlags(Entry(spare, 0), PRESENT | WRITABLE | (flags & USER)))[spare := ZeroTable()]
  }

  /** map_page_locked for page p. */
  ghost function Mapped(m: Memory, pd: nat, p: nat, frame: nat, flags: bv12, spare: nat): Memory
    requires WellFormed(m) && pd < FRAMES && p < FRAMES && frame < FRAMES && spare < FRAMES && spare != pd
  {
    EnsuredWellFormed(m, pd, p / ENTRIES, flags, spare);
    var m1 := EnsureTable(m, pd, p / ENTRIES, flags, spare);
    Poke(m1, m1[pd][p / ENTRIES].frame, p % ENTRIES, Entry(frame, flags))
  }

  /** The store of unmap_page_locked for a mapped page p. */
  ghost function Unmapped(m: Memory, pd: nat, p: nat): Memory
    requires WellFormed(m) && pd < FRAMES && p < FRAMES && Present(m[pd][p / ENTRIES])
  {
    Poke(m, m[pd][p / ENTRIES].frame, p % ENTRIES, EMPTY)
  }

  lemma EnsuredWellFormed(m: Memory, pd: nat, i: int, flags: bv12, spare: nat)
    requires WellFormed(m) && pd < FRAMES && 0 <= i < ENTRIES && spare < FRAMES && spare != pd
    ensures var m1 := EnsureTable(m, pd, i, flags, spare);
            WellFormed(m1) && Present(m1[pd][i])
            && m1[pd][i].frame == if Present(m[pd][i]) then m[pd][i].frame else spare
  {
  }

  /** Hanging in a new zeroed table keeps the tables apart and every translation below the recursive window. */
  lemma EnsureKeeps(m: Memory, pd: nat, i: int, flags: bv12, spare: nat)
    requires TablesOk(m, pd) && 0 <= i < RECURSIVE && spare < FRAMES && (Present(m[pd][i]) || !IsTable(m, pd, spare))
    requires spare != pd
    ensures var m1 := EnsureTable(m, pd, i, flags, spare);
            && TablesOk(m1, pd)
            && (forall q: nat :: q < RECURSIVE * ENTRIES ==> PageWalk(m1, pd, q) == PageWalk(m, pd, q))
            && (forall f: nat :: f < FRAMES ==> (IsTable(m1, pd, f) <==> IsTable(m, pd, f) || f == m1[pd][i].frame))
            && (Present(m[pd][i]) ==> IsTable(m, pd, m1[pd][i].frame))
  {
    EnsuredWellFormed(m, pd, i, flags, spare);
    var m1 := EnsureTable(m, pd, i, flags, spare);
    FlagFacts(m[pd][i], flags);
    hide WithFlags, HasFlag;
    assert forall k :: 0 <= k < ENTRIES && k != i ==> m1[pd][k] == m[pd][k];
    forall q: nat | q < RECURSIVE * ENTRIES ensures PageWalk(m1, pd, q) == PageWalk(m, pd, q) {
      var k := q / ENTRIES;
      if k != i && Present(m[pd][k]) { assert m[pd][k].frame != spare || Present(m[pd][i]); }
    }
    forall f: nat | f < FRAMES ensures IsTable(m1, pd, f) <==> IsTable(m, pd, f) || f == m1[pd][i].frame {
      if IsTable(m, pd, f) && f != pd {
        var k :| 0 <= k < RECURSIVE && Present(m[pd][k]) && m[pd][k].frame == f;
        assert Present(m1[pd][k]) && m1[pd][k].frame == f;
      }
      if IsTable(m1, pd, f) && f != pd {
        var k :| 0 <= k < RECURSIVE && Present(m1[pd][k]) && m1[pd][k].frame == f;
        if k != i { assert Present(m[pd][k]) && m[pd][k].frame == f; }
      }
    }
  }

  /** Storing one PTE changes the translation of its page only. */
  lemma PokeKeeps(m: Memory, pd: nat, p: nat, e: Entry)
    requires TablesOk(m, pd) && p < RECURSIVE * ENTRIES && Present(m[pd][p / ENTRIES]) && e.frame < FRAMES
    ensures var m' := Poke(m, m[pd][p / ENTRIES].frame, p % ENTRIES, e);
            && TablesOk(m', pd) && m'[pd] == m[pd]
            && PageWalk(m', pd, p) == (if Present(e) then Some(e.frame) else None)
            && (forall q: nat :: q < RECURSIVE * ENTRIES && q != p ==> PageWalk(m', pd, q) == PageWalk(m, pd, q))
            && (forall f: nat :: f < FRAMES ==> (IsTable(m', pd, f) <==> IsTable(m, pd, f)))
  {
  }

  /**
   map_page_locked: the page translates to the frame (if the flags say present), and every other page below
   the recursive window keeps its translation, also when a page table had to be created.
   */
  lemma MapTranslates(m: Memory, pd: nat, p: nat, frame: nat, flags: bv12, spare: nat)
    requires TablesOk(m, pd) && p < RECURSIVE * ENTRIES && frame < FRAMES && spare < FRAMES && spare != pd
    requires Present(m[pd][p / ENTRIES]) || !IsTable(m, pd, spare)
    ensures var m' := Mapped(m, pd, p, frame, flags, spare);
            && TablesOk(m', pd)
            && PageWalk(m', pd, p) == (if Present(Entry(frame, flags)) then Some(frame) else None)
            && (forall q: nat :: q < RECURSIVE * ENTRIES && q != p ==> PageWalk(m', pd, q) == PageWalk(m, pd, q))
            && (forall f: nat :: f < FRAMES ==>
                  (IsTable(m', pd, f) <==> IsTable(m, pd, f) || (!Present(m[pd][p / ENTRIES]) && f == spare)))
  {
    hide WithFlags, HasFlag, WellFormed, IsTable, PageWalk;
    EnsuredWellFormed(m, pd, p / ENTRIES, flags, spare);
    EnsureKeeps(m, pd, p / ENTRIES, flags, spare);
    PokeKeeps(EnsureTable(m, pd, p / ENTRIES, flags, spare), pd, p, Entry(frame, flags));
  }

  /** unmap_page_locked: only the page itself loses its translation. */
  lemma UnmapTranslates(m: Memory, pd: nat, p: nat)
    requires TablesOk(m, pd) && p < RECURSIVE * ENTRIES && Present(m[pd][p / ENTRIES])
    ensures var m' := Unmapped(m, pd, p);
            && TablesOk(m', pd) && PageWalk(m', pd, p) == None
            && (forall q: nat :: q < RECURSIVE * ENTRIES && q != p ==> PageWalk(m', pd, q) == PageWalk(m, pd, q))
            && (forall f: nat :: f < FRAMES ==> (IsTable(m', pd, f) <==> IsTable(m, pd, f)))
  {
  }

  // ---- entries with their flags ------------------------------------------------------------------

  /** The PTE that the walk of page q reads, once its PDE is present. */
  function Pte(m: Memory, cr3: nat, q: nat): Entry
    requires WellFormed(m) && cr3 < FRAMES && q < FRAMES
  {
    m[m[cr3][q / ENTRIES].frame][q % ENTRIES]
  }

  /** The walk needs both entries present, and yields the frame of the second. */
  lemma WalkReadsPte(m: Memory, cr3: nat, q: nat)
    requires WellFormed(m) && cr3 < FRAMES && q < FRAMES
    ensures PageWalk(m, cr3, q).Some? <==> m[cr3][q / ENTRIES].flags & 1 == 1 && Pte(m, cr3, q).flags & 1 == 1
    ensures PageWalk(m, cr3, q).Some? ==> PageWalk(m, cr3, q).value == Pte(m, cr3, q).frame
  {
  }

  /** A page that had a table keeps its PTE; a page that gets one has an empty PTE. */
  ghost predicate PteKept(m: Memory, m': Memory, pd: nat, q: nat)
    requires WellFormed(m) && WellFormed(m') && pd < FRAMES && q < FRAMES
  {
    if Present(m[pd][q / ENTRIES]) then Present(m'[pd][q / ENTRIES]) && Pte(m', pd, q) == Pte(m, pd, q)
    else Present(m'[pd][q / ENTRIES]) ==> Pte(m', pd, q) == EMPTY
  }

  /** The PDE after one mapping: its flags are added, or it is new, present, writable, and for users if asked. */
  ghost function PdeAfter(e: Entry, flags: bv12, spare: nat): Entry
  {
    if IsPresent(e.flags) then Entry(e.frame, Together(e.flags, flags)) else Entry(spare, NewTable(flags))
  }

  predicate IsPresent(flags: bv12) { flags & 1 == 1 }

  function Together(a: bv12, b: bv12): bv12 { a | b }

  /** Flags of the PDE of a new table. */
  function NewTable(flags: bv12): bv12 { 1 | 2 | (flags & 4) }

  /** map_page_locked stores exactly this PTE and this PDE, and keeps all others. */
  lemma MapEntries(m: Memory, pd: nat, p: nat, frame: nat, flags: bv12, spare: nat)
    requires TablesOk(m, pd) && p < RECURSIVE * ENTRIES && frame < FRAMES && spare < FRAMES && spare != pd
    requires Present(m[pd][p / ENTRIES]) || !IsTable(m, pd, spare)
    ensures var m' := Mapped(m, pd, p, frame, flags, spare);
            && TablesOk(m', pd) && Present(m'[pd][p / ENTRIES]) && Pte(m', pd, p) == Entry(frame, flags)
            && m'[pd] == m[pd][p / ENTRIES := PdeAfter(m[pd][p / ENTRIES], flags, spare)]
            && forall q: nat :: q < RECURSIVE * ENTRIES && q != p ==> PteKept(m, m', pd, q)
  {
    hide IsTable, PageWalk, HasFlag, WithFlags;
    MapTranslates(m, pd, p, frame, flags, spare);
    EnsuredWellFormed(m, pd, p / ENTRIES, flags, spare);
    EnsureEntries(m, pd, p / ENTRIES, flags, spare);
    EnsureKeeps(m, pd, p / ENTRIES, flags, spare);
    var m1 := EnsureTable(m, pd, p / ENTRIES, flags, spare);
    PokeEntries(m1, pd, p, Entry(frame, flags));
    var m' := Mapped(m, pd, p, frame, flags, spare);
    forall q: nat | q < RECURSIVE * ENTRIES && q != p ensures PteKept(m, m', pd, q) {
      assert PteKept(m, m1, pd, q) && m'[pd] == m1[pd] && Present(m1[pd][q / ENTRIES]) ==>
               Pte(m', pd, q) == Pte(m1, pd, q);
    }
  }

  lemma EnsureEntries(m: Memory, pd: nat, i: int, flags: bv12, spare: nat)
    requires TablesOk(m, pd) && 0 <= i < RECURSIVE && spare < FRAMES && (Present(m[pd][i]) || !IsTable(m, pd, spare))
    requires spare != pd
    ensures var m1 := EnsureTable(m, pd, i, flags, spare);
            && WellFormed(m1) && m1[pd] == m[pd][i := PdeAfter(m[pd][i], flags, spare)]
            && forall q: nat :: q < RECURSIVE * ENTRIES ==> PteKept(m, m1, pd, q)
  {
    EnsuredWellFormed(m, pd, i, flags, spare);
    FlagFacts(m[pd][i], flags);
    PdeFlags(m[pd][i], flags, spare);
    var m1 := EnsureTable(m, pd, i, flags, spare);
    hide WithFlags, HasFlag, PdeAfter, WellFormed;
    assert m1[pd] == m[pd][i := m1[pd][i]];
    forall q: nat | q < RECURSIVE * ENTRIES ensures PteKept(m, m1, pd, q) {
      EnsurePte(m, pd, i, flags, spare, q);
    }
  }

  lemma PdeFlags(e: Entry, flags: bv12, spare: nat)
    ensures PdeAfter(e, flags, spare) ==
            if Present(e) then WithFlags(e, flags) else WithFlags(Entry(spare, 0), PRESENT | WRITABLE | (flags & USER))
  {
  }

  lemma EnsurePte(m: Memory, pd: nat, i: int, flags: bv12, spare: nat, q: nat)
    requires TablesOk(m, pd) && 0 <= i < RECURSIVE && spare < FRAMES && (Present(m[pd][i]) || !IsTable(m, pd, spare))
    requires spare != pd && q < RECURSIVE * ENTRIES
    requires WellFormed(EnsureTable(m, pd, i, flags, spare))
    ensures PteKept(m, EnsureTable(m, pd, i, flags, spare), pd, q)
  {
    FlagFacts(m[pd][i], flags);
    hide HasFlag;
    var m1 := EnsureTable(m, pd, i, flags, spare);
    var k := q / ENTRIES;
    assert k != i ==> m1[pd][k] == m[pd][k];
    if k != i && Present(m[pd][k]) { assert m[pd][k].frame != pd && (Present(m[pd][i]) || m[pd][k].frame != spare); }
    if k == i && Present(m[pd][i]) { assert m1[pd][i].frame == m[pd][i].frame != pd; }
  }

  lemma PokeEntries(m: Memory, pd: nat, p: nat, e: Entry)
    requires TablesOk(m, pd) && p < RECURSIVE * ENTRIES && Present(m[pd][p / ENTRIES]) && e.frame < FRAMES
    ensures var m' := Poke(m, m[pd][p / ENTRIES].frame, p % ENTRIES, e);
            && WellFormed(m') && m'[pd] == m[pd] && Pte(m', pd, p) == e
            && forall q: nat :: q < RECURSIVE * ENTRIES && q != p && Present(m[pd][q / ENTRIES]) ==>
                 Pte(m', pd, q) == Pte(m, pd, q)
  {
    PokeKeeps(m, pd, p, e);
    hide HasFlag;
    var m' := Poke(m, m[pd][p / ENTRIES].frame, p % ENTRIES, e);
    forall q: nat | q < RECURSIVE * ENTRIES && q != p && Present(m[pd][q / ENTRIES])
      ensures Pte(m', pd, q) == Pte(m, pd, q)
    {
      var i, j := p / ENTRIES, q / ENTRIES;
      assert i != j ==> m[pd][i].frame != m[pd][j].frame;
      assert i == j ==> p % ENTRIES != q % ENTRIES;
    }
  }

  /** unmap_page_locked empties exactly this PTE. */
  lemma UnmapEntries(m: Memory, pd: nat, p: nat)
    requires TablesOk(m, pd) && p < RECURSIVE * ENTRIES && Present(m[pd][p / ENTRIES])
    ensures var m' := Unmapped(m, pd, p);
            && TablesOk(m', pd) && m'[pd] == m[pd] && Pte(m', pd, p) == EMPTY
            && forall q: nat :: q < RECURSIVE * ENTRIES && q != p && Present(m[pd][q / ENTRIES]) ==>
                 Pte(m', pd, q) == Pte(m, pd, q)
  {
    hide HasFlag;
    PokeKeeps(m, pd, p, EMPTY);
    PokeEntries(m, pd, p, EMPTY);
  }
}

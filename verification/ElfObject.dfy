/**
 A relocatable ELF object as the module loader sees it (kernel/include/klibcpp/elf.hpp), and the packing of
 its sections into two regions (kernel/src/sys/ld.cpp stage0, kernel/include/sys/ld.hpp Region::append).
 */
module ElfObject {
  import opened Machine

  const SHT_NULL := 0
  const SHT_PROGBITS := 1
  const SHT_REL := 9

  const SHF_ALLOC: bv32 := 2
  const SHF_EXECINSTR: bv32 := 4

  const SHN_UNDEF := 0
  const SHN_ABS := 0xfff1
  const SHN_COMMON := 0xfff2

  const R_386_32 := 1
  const R_386_PC32 := 2

  datatype SectionHeader = SectionHeader(kind: nat, flags: bv32, offset: nat, size: nat, info: nat, addralign: nat)

  datatype Symbol = Symbol(name: string, value: nat, shndx: nat)

  datatype Rel = Rel(offset: nat, info: nat) {
    function Kind(): nat { info % 256 }
    function Sym(): nat { info / 256 }
  }

  /** The image is raw memory: every table lookup and every byte read is total. */
  datatype Object = Object(
    headers: seq<SectionHeader>,
    hasSymtab: bool,
    symbol: nat -> Symbol,
    rel: (nat, nat) -> Rel,        // header index, entry index
    file: nat -> nat               // byte at a file offset
  )

  datatype Access = RX | RW

  datatype Section = Section(header: nat, kind: nat, align: nat, fileOff: nat, regOff: nat, size: nat)

  datatype Region = Region(base: nat, size: nat, sections: seq<Section>)

  /** SecMap: region and position of the section made from a header. */
  datatype Slot = Slot(access: Access, index: nat)

  predicate HasFlags(flags: bv32, flag: bv32) { flags & flag == flag }

  predicate Placed(h: SectionHeader)
  {
    h.flags & SHF_ALLOC != 0 && h.kind != SHT_NULL && h.size != 0
  }

  function AccessOf(h: SectionHeader): Access
  {
    if HasFlags(h.flags, SHF_EXECINSTR) then RX else RW
  }

  function SectionAlign(h: SectionHeader): nat { if h.addralign == 0 then 1 else h.addralign }

  /** Region::append: align the running size, place the section, advance; all sums are 32-bit. */
  function Append(r: Region, h: SectionHeader, i: nat): Region
  {
    var off := AlignUp(r.size, SectionAlign(h));
    Region(r.base, (off + h.size) % W32, r.sections + [Section(i, h.kind, SectionAlign(h), h.offset, off, h.size)])
  }

  /** The region after the first n headers. */
  ghost function PackUpTo(hs: seq<SectionHeader>, n: nat, a: Access): Region
    requires n <= |hs|
  {
    if n == 0 then Region(0, 0, [])
    else
      var r := PackUpTo(hs, n - 1, a);
      if Placed(hs[n - 1]) && AccessOf(hs[n - 1]) == a then Append(r, hs[n - 1], n - 1) else r
  }

  /** No alignment or size sum of the packing wraps 32 bits, and the page rounding has room. */
  ghost predicate Fits(hs: seq<SectionHeader>)
  {
    forall n: nat, a: Access :: n < |hs| && Placed(hs[n]) && AccessOf(hs[n]) == a ==>
      PackUpTo(hs, n, a).size + SectionAlign(hs[n]) + hs[n].size <= W32 - PAGE
  }

  predicate Aligned(off: nat, align: nat) { align > 0 && off % align == 0 }

  /** s is header s.header, below `size`, and aligned if its alignment is a power of two. */
  ghost predicate Faithful(s: Section, hs: seq<SectionHeader>, n: nat, a: Access, size: nat)
    requires n <= |hs|
  {
    && s.header < n && Placed(hs[s.header]) && AccessOf(hs[s.header]) == a
    && s.kind == hs[s.header].kind && s.size == hs[s.header].size && s.fileOff == hs[s.header].offset
    && s.align == SectionAlign(hs[s.header])
    && (PowerOfTwo(s.align) ==> Aligned(s.regOff, s.align)) && s.regOff + s.size <= size
  }

  ghost predicate InOrder(ss: seq<Section>)
  {
    forall k, l :: 0 <= k < l < |ss| ==>
      ss[k].header < ss[l].header && ss[k].regOff + ss[k].size <= ss[l].regOff
  }

  ghost predicate Complete(ss: seq<Section>, hs: seq<SectionHeader>, n: nat, a: Access)
    requires n <= |hs|
  {
    forall i: nat :: i < n && Placed(hs[i]) && AccessOf(hs[i]) == a ==>
      exists k :: 0 <= k < |ss| && ss[k].header == i
  }

  ghost predicate WellPacked(r: Region, hs: seq<SectionHeader>, n: nat, a: Access)
    requires n <= |hs|
  {
    && (forall k :: 0 <= k < |r.sections| ==> Faithful(r.sections[k], hs, n, a, r.size))
    && InOrder(r.sections) && Complete(r.sections, hs, n, a) && Snug(r.sections)
  }

  /** Where the last section ends. */
  function EndOf(ss: seq<Section>): nat
  {
    if ss == [] then 0 else ss[|ss| - 1].regOff + ss[|ss| - 1].size
  }

  /** Each section follows the one before it with a gap smaller than its alignment. */
  ghost predicate Snug(ss: seq<Section>)
  {
    forall k :: 0 <= k < |ss| ==> EndOf(ss[..k]) <= ss[k].regOff < EndOf(ss[..k]) + ss[k].align
  }

  /** The region is the fewest whole pages that hold its sections. */
  ghost predicate FewestPages(r: Region)
  {
    r.size % PAGE == 0 && EndOf(r.sections) <= r.size < EndOf(r.sections) + PAGE
  }

  /** It is empty exactly without sections, and no smaller number of whole pages would do. */
  lemma FewestPagesMeans(r: Region, hs: seq<SectionHeader>, n: nat, a: Access)
    requires n <= |hs| && WellPacked(r, hs, n, a) && FewestPages(r)
    ensures r.size == 0 <==> r.sections == []
    ensures forall pages: nat :: (forall k :: 0 <= k < |r.sections| ==>
                                    r.sections[k].regOff + r.sections[k].size <= pages * PAGE) ==>
                                        r.size <= pages * PAGE
  {
    hide WellPacked;
    LastCounts(r, hs, n, a);
    forall pages: nat | forall k :: 0 <= k < |r.sections| ==> r.sections[k].regOff + r.sections[k].size <= pages * PAGE
      ensures r.size <= pages * PAGE
    {
      assert EndOf(r.sections) <= pages * PAGE;
      assert r.size == r.size / PAGE * PAGE;
    }
  }

  lemma LastCounts(r: Region, hs: seq<SectionHeader>, n: nat, a: Access)
    requires n <= |hs| && WellPacked(r, hs, n, a)
    ensures r.sections != [] ==> EndOf(r.sections) > 0
  {
    if r.sections != [] { assert Faithful(r.sections[|r.sections| - 1], hs, n, a, r.size); }
  }

  /**
   Sections of a region are disjoint, in header order, inside the size, aligned to powers of two, and none is
   forgotten.
   */
  lemma {:induction false} PackIsRight(hs: seq<SectionHeader>, n: nat, a: Access)
    requires Fits(hs) && n <= |hs|
    ensures WellPacked(PackUpTo(hs, n, a), hs, n, a)
    ensures PackUpTo(hs, n, a).base == 0 && PackUpTo(hs, n, a).size <= W32 - PAGE
    ensures PackUpTo(hs, n, a).size == EndOf(PackUpTo(hs, n, a).sections)
  {
    hide WellPacked, Append, EndOf;
    NothingPacked(hs, a);
    if n > 0 {
      PackIsRight(hs, n - 1, a);
      var r, h := PackUpTo(hs, n - 1, a), hs[n - 1];
      if Placed(h) && AccessOf(h) == a {
        AppendKeeps(r, hs, n - 1, a);
      } else {
        SkipKeeps(r, hs, n - 1, a);
      }
    }
  }

  lemma NothingPacked(hs: seq<SectionHeader>, a: Access)
    ensures WellPacked(Region(0, 0, []), hs, 0, a) && EndOf([]) == 0
  {
  }

  lemma AppendKeeps(r: Region, hs: seq<SectionHeader>, n: nat, a: Access)
    requires n < |hs| && WellPacked(r, hs, n, a) && Placed(hs[n]) && AccessOf(hs[n]) == a
    requires r.size + SectionAlign(hs[n]) + hs[n].size <= W32 - PAGE && r.size == EndOf(r.sections)
    ensures WellPacked(Append(r, hs[n], n), hs, n + 1, a)
    ensures Append(r, hs[n], n).size <= W32 - PAGE && Append(r, hs[n], n).base == r.base
    ensures Append(r, hs[n], n).size == EndOf(Append(r, hs[n], n).sections)
  {
    hide Placed, AccessOf, AlignUp, SectionAlign, Aligned, Complete, PowerOfTwo, Snug, Faithful, InOrder;
    var h, r', k := hs[n], Append(r, hs[n], n), |r.sections|;
    AlignPositive(h);
    AppendPlaces(r.size, SectionAlign(h));
    assert r'.size == AlignUp(r.size, SectionAlign(h)) + h.size && r'.sections == r.sections + [r'.sections[k]];
    NewFaithful(hs, n, a, r'.sections[k], r'.size);
    forall j | 0 <= j < k ensures Faithful(r'.sections[j], hs, n + 1, a, r'.size) {
      StillFaithful(r.sections[j], hs, n, a, r.size, r'.size);
    }
    AppendInOrder(r, r'.sections[k], hs, n, a);
    AppendCompletes(r.sections, r'.sections[k], hs, n, a);
    AppendSnug(r.sections, r'.sections[k]);
  }

  lemma NewFaithful(hs: seq<SectionHeader>, n: nat, a: Access, s: Section, size: nat)
    requires n < |hs| && Placed(hs[n]) && AccessOf(hs[n]) == a
    requires s == Section(n, hs[n].kind, SectionAlign(hs[n]), hs[n].offset, s.regOff, hs[n].size)
    requires (PowerOfTwo(s.align) ==> Aligned(s.regOff, s.align)) && s.regOff + s.size <= size
    ensures Faithful(s, hs, n + 1, a, size)
  {
    hide Placed, AccessOf, PowerOfTwo, Aligned;
  }

  lemma StillFaithful(s: Section, hs: seq<SectionHeader>, n: nat, a: Access, size: nat, size': nat)
    requires n < |hs| && Faithful(s, hs, n, a, size) && size <= size'
    ensures Faithful(s, hs, n + 1, a, size')
  {
    hide Placed, AccessOf, PowerOfTwo, Aligned;
  }

  lemma AppendInOrder(r: Region, s: Section, hs: seq<SectionHeader>, n: nat, a: Access)
    requires n < |hs| && InOrder(r.sections) && s.header == n && r.size <= s.regOff
    requires forall k :: 0 <= k < |r.sections| ==> Faithful(r.sections[k], hs, n, a, r.size)
    ensures InOrder(r.sections + [s])
  {
    hide Placed, AccessOf, PowerOfTwo, Aligned;
    var ss := r.sections + [s];
    forall i, j | 0 <= i < j < |ss| ensures ss[i].header < ss[j].header && ss[i].regOff + ss[i].size <= ss[j].regOff {
      assert Faithful(r.sections[i], hs, n, a, r.size);
    }
  }

  lemma AppendSnug(ss: seq<Section>, s: Section)
    requires Snug(ss) && EndOf(ss) <= s.regOff < EndOf(ss) + s.align
    ensures Snug(ss + [s])
  {
    var ss' := ss + [s];
    forall k | 0 <= k < |ss'| ensures EndOf(ss'[..k]) <= ss'[k].regOff < EndOf(ss'[..k]) + ss'[k].align {
      assert ss'[..k] == ss[..k];
      if k == |ss| { assert ss[..k] == ss; }
    }
  }

  lemma AppendCompletes(ss: seq<Section>, s: Section, hs: seq<SectionHeader>, n: nat, a: Access)
    requires n < |hs| && Complete(ss, hs, n, a) && s.header == n
    ensures Complete(ss + [s], hs, n + 1, a)
  {
    hide Placed, AccessOf;
    forall i: nat | i < n + 1 && Placed(hs[i]) && AccessOf(hs[i]) == a
      ensures exists j :: 0 <= j < |ss + [s]| && (ss + [s])[j].header == i
    {
      if i < n {
        var j :| 0 <= j < |ss| && ss[j].header == i;
        assert (ss + [s])[j].header == i;
      } else {
        assert (ss + [s])[|ss|].header == i;
      }
    }
  }

  lemma AlignPositive(h: SectionHeader)
    ensures SectionAlign(h) > 0
  {
  }

  lemma SkipKeeps(r: Region, hs: seq<SectionHeader>, n: nat, a: Access)
    requires n < |hs| && WellPacked(r, hs, n, a) && !(Placed(hs[n]) && AccessOf(hs[n]) == a)
    ensures WellPacked(r, hs, n + 1, a)
  {
  }

  /** Region::append places a section at or above the running size, aligned for every power of two. */
  lemma AppendPlaces(v: nat, align: nat)
    requires align > 0 && v + align <= W32 - PAGE
    ensures v <= AlignUp(v, align) < v + align && (PowerOfTwo(align) ==> Aligned(AlignUp(v, align), align))
  {
    hide AlignUp, And, PowerOfTwo;
    AlignUpBounds(v, align);
    AlignsWhen(align);
  }

  // ---- stage0 --------------------------------------------------------------------------------------

  /** The map entry of header i points at the section made from it. */
  ghost predicate SlotsRight(slots: seq<Option<Slot>>, hs: seq<SectionHeader>, n: nat, rx: Region, rw: Region)
    requires n <= |hs|
  {
    && |slots| == |hs|
    && forall i: nat :: i < |hs| ==>
         if i < n && Placed(hs[i]) then
           slots[i].Some?
           && slots[i].value.access == AccessOf(hs[i])
           && var r := if slots[i].value.access == RX then rx else rw;
              slots[i].value.index < |r.sections| && r.sections[slots[i].value.index].header == i
         else slots[i].None?
  }

  lemma RoundedPacked(r: Region, hs: seq<SectionHeader>, a: Access)
    requires WellPacked(r, hs, |hs|, a) && r.size == EndOf(r.sections) && r.size <= W32 - PAGE
    ensures var r' := r.(size := AlignUp(r.size, PAGE));
            WellPacked(r', hs, |hs|, a) && FewestPages(r') && r'.size < W32
  {
    hide Placed, AccessOf, AlignUp, Aligned, PowerOfTwo, Snug, Complete, InOrder;
    AlignUpPage(r.size);
    forall k | 0 <= k < |r.sections| ensures Faithful(r.sections[k], hs, |hs|, a, AlignUp(r.size, PAGE)) {
      assert Faithful(r.sections[k], hs, |hs|, a, r.size);
    }
  }

  /** stage0: fails exactly without section headers; otherwise packs both regions and rounds them to pages. */
  method Stage0(obj: Object) returns (ok: bool, rx: Region, rw: Region, slots: seq<Option<Slot>>)
    requires Fits(obj.headers)
    ensures ok <==> obj.headers != []
    ensures ok ==>
              && rx.base == 0 && rx.sections == PackUpTo(obj.headers, |obj.headers|, RX).sections
              && rw.base == 0 && rw.sections == PackUpTo(obj.headers, |obj.headers|, RW).sections
              && WellPacked(rx, obj.headers, |obj.headers|, RX) && WellPacked(rw, obj.headers, |obj.headers|, RW)
              && FewestPages(rx) && FewestPages(rw) && rx.size < W32 && rw.size < W32
              && SlotsRight(slots, obj.headers, |obj.headers|, rx, rw)
  {
    hide Placed, AccessOf, WellPacked, FewestPages, AlignUp;
    var hs := obj.headers;
    rx, rw, slots := Region(0, 0, []), Region(0, 0, []), seq(|hs|, _ => None);
    ok := hs != [];
    if !ok {
      return;
    }
    for i := 0 to |hs|
      invariant rx == PackUpTo(hs, i, RX) && rw == PackUpTo(hs, i, RW)
      invariant SlotsRight(slots, hs, i, rx, rw)
    {
      var h := hs[i];
      if Placed(h) {
        if AccessOf(h) == RX {
          rx := Append(rx, h, i);
          slots := slots[i := Some(Slot(RX, |rx.sections| - 1))];
        } else {
          rw := Append(rw, h, i);
          slots := slots[i := Some(Slot(RW, |rw.sections| - 1))];
        }
      }
    }
    PackIsRight(hs, |hs|, RX);
    PackIsRight(hs, |hs|, RW);
    RoundedPacked(rx, hs, RX);
    RoundedPacked(rw, hs, RW);
    rx := rx.(size := AlignUp(rx.size, PAGE));
    rw := rw.(size := AlignUp(rw.size, PAGE));
  }
}

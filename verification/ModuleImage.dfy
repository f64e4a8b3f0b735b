/**
 The image of a kernel module (kernel/src/sys/ld.cpp): its regions in the module window, the table of live layouts, the
 bytes copied from the file, and what relocation makes of them.
 */
module ModuleImage {
  import opened Machine
  import opened Bitmap
  import opened ElfObject
  import opened Relocation

  const MODULE_BASE := 0x0A00_0000
  const MODULE_PAGES := 128

  // ---- regions in the window -------------------------------------------------------------------------

  ghost function PageOf(addr: int): int { (addr - MODULE_BASE) / PAGE }

  /** The region holds pages; otherwise unload_region_locked passes it over. */
  predicate Held(r: Region) { r.base != 0 && r.size != 0 }

  /** A held region is made of whole pages of the window. */
  ghost predicate InWindow(r: Region)
  {
    Held(r) ==>
      && r.size % PAGE == 0 && r.base >= MODULE_BASE && (r.base - MODULE_BASE) % PAGE == 0
      && PageOf(r.base) + r.size / PAGE <= MODULE_PAGES
  }

  ghost function RegionPages(r: Region): set<nat>
    requires InWindow(r)
  {
    if Held(r) then Run(PageOf(r.base), r.size / PAGE) else {}
  }

  /** Sections are inside the region, disjoint, in header order, and aligned to powers of two. */
  ghost predicate Arranged(r: Region)
  {
    && InOrder(r.sections)
    && forall k :: 0 <= k < |r.sections| ==>
         && r.sections[k].regOff + r.sections[k].size <= r.size
         && (PowerOfTwo(r.sections[k].align) ==> Aligned(r.sections[k].regOff, r.sections[k].align))
  }

  ghost predicate LayoutPlaced(l: Layout)
  {
    && InWindow(l.rx) && InWindow(l.rw) && RegionPages(l.rx) !! RegionPages(l.rw)
    && Arranged(l.rx) && Arranged(l.rw)
  }

  ghost function LayoutPages(l: Layout): set<nat>
    requires LayoutPlaced(l)
  {
    RegionPages(l.rx) + RegionPages(l.rw)
  }

  /** Regions on different pages share no byte. */
  lemma RegionsApart(r: Region, q: Region)
    requires InWindow(r) && InWindow(q) && Held(r) && Held(q) && RegionPages(r) !! RegionPages(q)
    ensures r.base + r.size <= q.base || q.base + q.size <= r.base
  {
    var a: nat, b: nat, c: nat, d: nat := PageOf(r.base), r.size / PAGE, PageOf(q.base), q.size / PAGE;
    assert r.base == MODULE_BASE + a * 4096 && r.size == b * 4096;
    assert q.base == MODULE_BASE + c * 4096 && q.size == d * 4096;
    RunsApart(a, b, c, d);
  }

  lemma RunsApart(a: nat, b: nat, c: nat, d: nat)
    requires b > 0 && d > 0
    ensures Run(a, b) !! Run(c, d) <==> a + b <= c || c + d <= a
  {
    if !(a + b <= c || c + d <= a) {
      var x := if a <= c then c else a;
      assert x in Run(a, b) && x in Run(c, d);
    }
  }

  lemma WindowBound(r: Region)
    requires InWindow(r) && Held(r)
    ensures MODULE_BASE <= r.base && r.base + r.size <= MODULE_BASE + MODULE_PAGES * PAGE < W32
  {
  }

  // ---- the table of layouts --------------------------------------------------------------------------

  ghost predicate Owns(slot: Option<Layout>, p: nat)
  {
    slot.Some? && LayoutPlaced(slot.value) && p in LayoutPages(slot.value)
  }

  /** Live modules are placed on pairwise disjoint pages, and together hold exactly the used pages. */
  ghost predicate Table(used: set<nat>, layouts: seq<Option<Layout>>)
  {
    && (forall i :: 0 <= i < |layouts| && layouts[i].Some? ==> LayoutPlaced(layouts[i].value))
    && (forall i, j :: 0 <= i < j < |layouts| && layouts[i].Some? && layouts[j].Some? ==>
          LayoutPages(layouts[i].value) !! LayoutPages(layouts[j].value))
    && (forall p: nat :: p in used <==> exists i :: 0 <= i < |layouts| && Owns(layouts[i], p))
  }

  lemma EmptyTable(layouts: seq<Option<Layout>>)
    requires forall i :: 0 <= i < |layouts| ==> layouts[i].None?
    ensures Table({}, layouts)
  {
  }

  /** No two live modules share a byte. */
  lemma LiveModulesApart(used: set<nat>, layouts: seq<Option<Layout>>, i: nat, j: nat, a: Access, b: Access)
    requires Table(used, layouts) && i < |layouts| && j < |layouts| && layouts[i].Some? && layouts[j].Some?
    requires (i, a) != (j, b)
    requires Held(layouts[i].value.RegionAt(a)) && Held(layouts[j].value.RegionAt(b))
    ensures var r, q := layouts[i].value.RegionAt(a), layouts[j].value.RegionAt(b);
            && MODULE_BASE <= r.base && r.base + r.size <= MODULE_BASE + MODULE_PAGES * PAGE
            && (r.base + r.size <= q.base || q.base + q.size <= r.base)
  {
    hide Held, InWindow, RegionPages, Arranged;
    var l, k := layouts[i].value, layouts[j].value;
    assert LayoutPlaced(l) && LayoutPlaced(k);
    assert i != j ==> LayoutPages(l) !! LayoutPages(k);
    assert RegionPages(l.RegionAt(a)) !! RegionPages(k.RegionAt(b));
    WindowBound(l.RegionAt(a));
    RegionsApart(l.RegionAt(a), k.RegionAt(b));
  }

  lemma TableAdds(used: set<nat>, layouts: seq<Option<Layout>>, i: nat, l: Layout)
    requires Table(used, layouts) && i < |layouts| && layouts[i].None?
    requires LayoutPlaced(l) && LayoutPages(l) !! used
    ensures Table(used + LayoutPages(l), layouts[i := Some(l)])
  {
    hide LayoutPlaced, LayoutPages;
    var ls := layouts[i := Some(l)];
    forall j | 0 <= j < |ls| && j != i && ls[j].Some? ensures LayoutPages(ls[j].value) !! LayoutPages(l) {
      forall p | p in LayoutPages(ls[j].value) ensures p in used { assert Owns(layouts[j], p); }
    }
    forall p: nat ensures p in used + LayoutPages(l) <==> exists j :: 0 <= j < |ls| && Owns(ls[j], p) {
      if p in used {
        var j :| 0 <= j < |layouts| && Owns(layouts[j], p);
        assert Owns(ls[j], p);
      } else if p in LayoutPages(l) {
        assert Owns(ls[i], p);
      } else {
        forall j | 0 <= j < |ls| ensures !Owns(ls[j], p) { assert j != i ==> !Owns(layouts[j], p); }
      }
    }
  }

  lemma TableDrops(used: set<nat>, layouts: seq<Option<Layout>>, i: nat)
    requires Table(used, layouts) && i < |layouts| && layouts[i].Some?
    ensures LayoutPlaced(layouts[i].value) && LayoutPages(layouts[i].value) <= used
    ensures Table(used - LayoutPages(layouts[i].value), layouts[i := None])
  {
    hide LayoutPlaced, LayoutPages;
    var ls, l := layouts[i := None], layouts[i].value;
    forall p | p in LayoutPages(l) ensures p in used { assert Owns(layouts[i], p); }
    forall p: nat ensures p in used - LayoutPages(l) <==> exists j :: 0 <= j < |ls| && Owns(ls[j], p) {
      if p in used && p !in LayoutPages(l) {
        var j :| 0 <= j < |layouts| && Owns(layouts[j], p);
        assert Owns(ls[j], p);
      } else {
        forall j | 0 <= j < |ls| ensures !Owns(ls[j], p) {
          assert j != i && Owns(layouts[j], p) ==> p in used;
        }
      }
    }
  }

  /** Growing the pages of the layout in one slot. */
  lemma TableReplaces(used: set<nat>, layouts: seq<Option<Layout>>, i: nat, l: Layout)
    requires Table(used, layouts) && i < |layouts| && layouts[i].Some? && LayoutPlaced(layouts[i].value)
    requires LayoutPlaced(l) && LayoutPages(l) !! (used - LayoutPages(layouts[i].value))
    ensures Table(used - LayoutPages(layouts[i].value) + LayoutPages(l), layouts[i := Some(l)])
  {
    hide Table, LayoutPlaced, LayoutPages;
    TableDrops(used, layouts, i);
    TableAdds(used - LayoutPages(layouts[i].value), layouts[i := None], i, l);
    assert layouts[i := None][i := Some(l)] == layouts[i := Some(l)];
  }

  // ---- copying -----------------------------------------------------------------------------------------

  /** PROGBITS bytes come from the file; everything else is zero. */
  function SourceByte(obj: Object, s: Section, x: nat): nat
  {
    if s.kind == SHT_PROGBITS then obj.file(s.fileOff + x) % 256 else 0
  }

  ghost predicate SectionCopied(m: Bytes, obj: Object, base: nat, s: Section)
  {
    forall a: nat :: base + s.regOff <= a < base + s.regOff + s.size ==>
        Byte(m, a) == SourceByte(obj, s, a - base - s.regOff)
  }

  ghost predicate Copied(m: Bytes, obj: Object, r: Region)
  {
    forall k :: 0 <= k < |r.sections| ==> SectionCopied(m, obj, r.base, r.sections[k])
  }

  ghost predicate SameOutside(m: Bytes, m': Bytes, lo: nat, hi: nat)
  {
    forall a: nat :: a < lo || hi <= a ==> Byte(m', a) == Byte(m, a)
  }

  lemma ByteUpdate(m: Bytes, a: nat, b: nat, x: nat)
    requires AreBytes(m) && b < 256
    ensures AreBytes(m[a := b])
    ensures Byte(m[a := b], x) == if x == a then b else Byte(m, x)
  {
    if x == a { assert m[a := b][x] == b; } else { assert x in m[a := b] <==> x in m; }
  }

  /** The first x bytes of section s stand at dst; everything else is as in m. */
  ghost predicate CopiedUpTo(m: Bytes, m': Bytes, obj: Object, s: Section, dst: nat, x: nat)
  {
    && AreBytes(m')
    && forall a: nat :: Byte(m', a) == if dst <= a < dst + x then SourceByte(obj, s, a - dst) else Byte(m, a)
  }

  lemma CopyNext(m: Bytes, m1: Bytes, obj: Object, s: Section, dst: nat, x: nat)
    requires CopiedUpTo(m, m1, obj, s, dst, x)
    ensures CopiedUpTo(m, m1[dst + x := SourceByte(obj, s, x)], obj, s, dst, x + 1)
  {
    hide AreBytes, Byte;
    var b := SourceByte(obj, s, x);
    var m' := m1[dst + x := b];
    ByteUpdate(m1, dst + x, b, 0);
    forall a: nat ensures Byte(m', a) == if dst <= a < dst + (x + 1) then SourceByte(obj, s, a - dst) else Byte(m, a) {
      ByteUpdate(m1, dst + x, b, a);
      assert Byte(m1, a) == if dst <= a < dst + x then SourceByte(obj, s, a - dst) else Byte(m, a);
    }
  }

  /** memcpy or memset of one section. */
  method CopySection(m: Bytes, obj: Object, base: nat, s: Section) returns (m': Bytes)
    requires AreBytes(m)
    ensures AreBytes(m') && SectionCopied(m', obj, base, s)
    ensures SameOutside(m, m', base + s.regOff, base + s.regOff + s.size)
  {
    var dst := base + s.regOff;
    m' := m;
    for x := 0 to s.size
      invariant CopiedUpTo(m, m', obj, s, dst, x)
    {
      CopyNext(m, m', obj, s, dst, x);
      m' := m'[dst + x := SourceByte(obj, s, x)];
    }
    CopiedAll(m, m', obj, base, s);
  }

  lemma CopiedAll(m: Bytes, m': Bytes, obj: Object, base: nat, s: Section)
    requires CopiedUpTo(m, m', obj, s, base + s.regOff, s.size)
    ensures SectionCopied(m', obj, base, s) && SameOutside(m, m', base + s.regOff, base + s.regOff + s.size)
  {
    hide AreBytes, Byte;
    forall a: nat | base + s.regOff <= a < base + s.regOff + s.size
      ensures Byte(m', a) == SourceByte(obj, s, a - base - s.regOff)
    {
      assert a - (base + s.regOff) == a - base - s.regOff;
    }
  }

  /** validate_region_section_bounds, with 32-bit sums. */
  predicate BoundsOk(r: Region, s: Section)
  {
    s.regOff <= r.size && s.size <= r.size && (s.regOff + s.size) % W32 <= r.size
  }

  /** The copy loop of stage1 over all sections of a placed region; the bounds check never fails. */
  method CopySections(m: Bytes, obj: Object, r: Region) returns (ok: bool, m': Bytes)
    requires AreBytes(m) && Arranged(r) && r.size < W32
    ensures ok && AreBytes(m') && Copied(m', obj, r) && SameOutside(m, m', r.base, r.base + r.size)
  {
    ok, m' := true, m;
    for i := 0 to |r.sections|
      invariant ok && AreBytes(m') && SameOutside(m, m', r.base, r.base + r.size)
      invariant forall k :: 0 <= k < i ==> SectionCopied(m', obj, r.base, r.sections[k])
    {
      ghost var m1, s := m', r.sections[i];
      if !BoundsOk(r, r.sections[i]) {
        return false, m';
      }
      m' := CopySection(m', obj, r.base, r.sections[i]);
      forall k | 0 <= k < i ensures SectionCopied(m', obj, r.base, r.sections[k]) {
        StaysCopied(m1, m', obj, r.base, r.sections[k], r.base + s.regOff, r.base + s.regOff + s.size);
      }
    }
  }

  lemma StaysCopied(m: Bytes, m': Bytes, obj: Object, base: nat, s: Section, lo: nat, hi: nat)
    requires SectionCopied(m, obj, base, s) && SameOutside(m, m', lo, hi)
    requires base + s.regOff + s.size <= lo || hi <= base + s.regOff
    ensures SectionCopied(m', obj, base, s)
  {
  }

  lemma RegionStaysCopied(m: Bytes, m': Bytes, obj: Object, r: Region, lo: nat, hi: nat)
    requires Copied(m, obj, r) && SameOutside(m, m', lo, hi) && Arranged(r)
    requires r.base + r.size <= lo || hi <= r.base
    ensures Copied(m', obj, r)
  {
  }

  // ---- relocation sites --------------------------------------------------------------------------------

  ghost predicate InRegion(r: Region, at: nat)
  {
    Held(r) && r.base <= at && at + 4 <= r.base + r.size
  }

  /** The site of a patch lies in its target section exactly when r_offset + 4 does not wrap 32 bits. */
  lemma SiteInSection(obj: Object, l: Layout, exports: map<string, nat>, t: nat, r: Rel)
    requires LayoutOk(l, obj) && LayoutPlaced(l) && t < |obj.headers| && l.slots[t].Some?
    requires r.offset < W32 && BaseAt(l, obj, t) != 0 && SectionAt(l, obj, t).size > 0
    requires Decide(obj, l, exports, t, r).Patch?
    ensures var at, lo := Decide(obj, l, exports, t, r).at, BaseAt(l, obj, t) + SectionAt(l, obj, t).regOff;
            lo <= at && at + 4 <= lo + SectionAt(l, obj, t).size <==> r.offset + 4 < W32
  {
    hide SymbolAddress, InWindow, RegionPages;
    var reg, s := l.RegionAt(l.slots[t].value.access), SectionAt(l, obj, t);
    assert Arranged(reg);
    assert s.regOff + s.size <= reg.size;
    WindowBound(reg);
    var lo := reg.base + s.regOff;
    if r.offset + 4 < W32 {
      assert (lo + r.offset) % W32 == lo + r.offset;
    } else {
      WrapFree(lo + r.offset - W32, 1, W32);
    }
  }

  /**
   One eight-byte section and an entry with r_offset 0xFFFFFFFC: the patched word lies in front of the module window.
   */
  lemma WrappedSiteExample()
    ensures var text := SectionHeader(SHT_PROGBITS, SHF_ALLOC | SHF_EXECINSTR, 0, 8, 0, 4);
            var rel := Rel(0xFFFF_FFFC, R_386_32);
            var obj := Object([text], true, (_: nat) => Symbol("", 5, SHN_ABS), (_: nat, _: nat) => rel, (_: nat) => 0);
            var rx := Region(MODULE_BASE, PAGE, [Section(0, SHT_PROGBITS, 4, 0, 0, 8)]);
            var l := Layout(rx, Region(0, 0, []), [Some(Slot(RX, 0))]);
            && LayoutOk(l, obj) && LayoutPlaced(l)
            && Decide(obj, l, map[], 0, obj.rel(0, 0)) == Patch(MODULE_BASE - 4, R_386_32, 5)
  {
    FlagsOfText();
  }

  lemma FlagsOfText()
    ensures (SHF_ALLOC | SHF_EXECINSTR) & SHF_ALLOC != 0 && HasFlags(SHF_ALLOC | SHF_EXECINSTR, SHF_EXECINSTR)
  {
  }

  /** r_offset + 4 does not wrap 32 bits in any entry of a relocation section. */
  ghost predicate OffsetsFit(obj: Object)
  {
    forall i: nat, j: nat :: i < |obj.headers| && obj.headers[i].kind == SHT_REL && j < obj.headers[i].size / 8 ==>
      obj.rel(i, j).offset + 4 < W32
  }

  ghost predicate SitesInside(vs: seq<Verdict>, l: Layout)
  {
    forall k :: 0 <= k < |vs| && vs[k].Patch? ==> InRegion(l.rx, vs[k].at) || InRegion(l.rw, vs[k].at)
  }

  lemma SiteInside(obj: Object, l: Layout, exports: map<string, nat>, t: nat, r: Rel)
    requires LayoutOk(l, obj) && LayoutPlaced(l) && t < |obj.headers| && l.slots[t].Some?
    requires r.offset + 4 < W32 && BaseAt(l, obj, t) != 0
    ensures SitesInside([Decide(obj, l, exports, t, r)], l)
  {
    hide SymbolAddress, InWindow, RegionPages;
    var v, reg, s := Decide(obj, l, exports, t, r), l.RegionAt(l.slots[t].value.access), SectionAt(l, obj, t);
    assert Arranged(reg);
    if v.Patch? {
      assert s.regOff + s.size <= reg.size;
      WindowBound(reg);
      SiteInSection(obj, l, exports, t, r);
      assert InRegion(reg, v.at);
    }
  }

  lemma SectionSitesInside(obj: Object, l: Layout, exports: map<string, nat>, i: nat)
    requires LayoutOk(l, obj) && LayoutPlaced(l) && OffsetsFit(obj) && i < |obj.headers|
    ensures SitesInside(SectionScript(obj, l, exports, i), l)
  {
    hide LayoutPlaced, InRegion, Decide;
    var vs, t := SectionScript(obj, l, exports, i), TargetOf(obj.headers[i]);
    if obj.headers[i].kind == SHT_REL && t < |obj.headers| && l.slots[t].Some? && BaseAt(l, obj, t) != 0 {
      forall k | 0 <= k < |vs| && vs[k].Patch? ensures InRegion(l.rx, vs[k].at) || InRegion(l.rw, vs[k].at) {
        SiteInside(obj, l, exports, t, obj.rel(i, k));
        assert vs[k] == Decide(obj, l, exports, t, obj.rel(i, k));
        assert [vs[k]][0].Patch?;
      }
    }
  }

  /** Every word a module's relocation patches lies inside one of its own regions. */
  lemma {:induction false} ScriptInside(obj: Object, l: Layout, exports: map<string, nat>, n: nat)
    requires LayoutOk(l, obj) && LayoutPlaced(l) && OffsetsFit(obj) && n <= |obj.headers|
    ensures SitesInside(Script(obj, l, exports, n), l)
  {
    hide LayoutOk, LayoutPlaced, InRegion, SectionScript;
    if n > 0 {
      ScriptInside(obj, l, exports, n - 1);
      SectionSitesInside(obj, l, exports, n - 1);
      var a, b := Script(obj, l, exports, n - 1), SectionScript(obj, l, exports, n - 1);
      var vs := a + b;
      forall k | 0 <= k < |vs| && vs[k].Patch? ensures InRegion(l.rx, vs[k].at) || InRegion(l.rw, vs[k].at) {
        if k < |a| { assert vs[k] == a[k]; } else { assert vs[k] == b[k - |a|]; }
      }
    }
  }

  ghost predicate InBytes(r: Region, a: nat)
  {
    Held(r) && r.base <= a < r.base + r.size
  }

  /** Bytes outside the module's own regions never change. */
  ghost predicate SameElsewhere(m: Bytes, m': Bytes, l: Layout)
  {
    forall a: nat :: !InBytes(l.rx, a) && !InBytes(l.rw, a) ==> Byte(m', a) == Byte(m, a)
  }

  lemma {:induction false} PatchesStayInside(m: Bytes, vs: seq<Verdict>, l: Layout)
    requires SitesInside(vs, l) && AreBytes(m)
    ensures SameElsewhere(m, ApplyAll(m, vs), l) && AreBytes(ApplyAll(m, vs))
  {
    hide PutWord, Word, PatchedWord;
    if vs != [] {
      var n := |vs| - 1;
      PatchesStayInside(m, vs[..n], l);
      if vs[n].Patch? {
        var m1 := ApplyAll(m, vs[..n]);
        PatchedIsWord(vs[n], Word(m1, vs[n].at));
        PutWordReads(m1, vs[n].at, PatchedWord(vs[n], Word(m1, vs[n].at)));
      }
    }
  }

  lemma PatchedIsWord(v: Verdict, addend: nat)
    requires v.Patch?
    ensures PatchedWord(v, addend) < W32
  {
  }

  /** Every byte of r outside the relocation sites is the byte of the file, or zero. */
  ghost predicate FileBytesOutside(vs: seq<Verdict>, m: Bytes, obj: Object, r: Region)
  {
    forall k, a: nat {:trigger r.sections[k], Byte(m, a)} ::
      (0 <= k < |r.sections| && OutsideSites(vs, a)
       && r.base + r.sections[k].regOff <= a < r.base + r.sections[k].regOff + r.sections[k].size) ==>
        Byte(m, a) == SourceByte(obj, r.sections[k], a - r.base - r.sections[k].regOff)
  }

  /**
   What a loaded module contains when its relocation sites do not overlap: each site holds S + A or S + A - P
   from the addend in the file image, and each other section byte is the file byte or zero.
   */
  lemma LoadedContents(obj: Object, l: Layout, exports: map<string, nat>, image: Bytes)
    requires LayoutOk(l, obj) && AreBytes(image) && Copied(image, obj, l.rx) && Copied(image, obj, l.rw)
    requires SitesApart(Script(obj, l, exports, |obj.headers|))
    ensures var vs := Script(obj, l, exports, |obj.headers|); var m := ApplyAll(image, vs);
            && (forall k :: 0 <= k < |vs| && vs[k].Patch? ==>
                  Word(m, vs[k].at) == PatchedWord(vs[k], Word(image, vs[k].at)))
            && FileBytesOutside(vs, m, obj, l.rx) && FileBytesOutside(vs, m, obj, l.rw)
  {
    hide LayoutOk, Script, OutsideSites, SitesApart, ApplyAll, Word, PatchedWord;
    var vs := Script(obj, l, exports, |obj.headers|);
    Relocated(image, vs);
    assert forall k :: 0 <= k < |l.rx.sections| ==> SectionCopied(image, obj, l.rx.base, l.rx.sections[k]);
    assert forall k :: 0 <= k < |l.rw.sections| ==> SectionCopied(image, obj, l.rw.base, l.rw.sections[k]);
  }

  /** The little-endian word that the file puts at offset x of a section. */
  function Addend(obj: Object, s: Section, x: nat): nat
  {
    SourceByte(obj, s, x) + 0x100 * SourceByte(obj, s, x + 1) + 0x1_0000 * SourceByte(obj, s, x + 2)
      + 0x100_0000 * SourceByte(obj, s, x + 3)
  }

  lemma AddendAt(obj: Object, l: Layout, exports: map<string, nat>, t: nat, r: Rel, image: Bytes)
    requires LayoutOk(l, obj) && LayoutPlaced(l) && t < |obj.headers| && l.slots[t].Some?
    requires r.offset + 4 < W32 && BaseAt(l, obj, t) != 0 && Decide(obj, l, exports, t, r).Patch?
    requires Copied(image, obj, l.rx) && Copied(image, obj, l.rw)
    ensures Word(image, Decide(obj, l, exports, t, r).at) == Addend(obj, SectionAt(l, obj, t), r.offset)
  {
    hide SymbolAddress, InWindow, RegionPages, SourceByte;
    var reg, s := l.RegionAt(l.slots[t].value.access), SectionAt(l, obj, t);
    assert Arranged(reg) && s.regOff + s.size <= reg.size;
    WindowBound(reg);
    var lo, at := reg.base + s.regOff, Decide(obj, l, exports, t, r).at;
    assert at == lo + r.offset && r.offset + 4 <= s.size;
    assert SectionCopied(image, obj, reg.base, s);
    assert Byte(image, at) == SourceByte(obj, s, r.offset) && Byte(image, at + 1) == SourceByte(obj, s, r.offset + 1);
    assert Byte(image, at + 2) == SourceByte(obj, s, r.offset + 2);
    assert Byte(image, at + 3) == SourceByte(obj, s, r.offset + 3);
  }

  /** Every entry of a relocation section has its verdict in the script. */
  lemma {:induction false} ScriptHolds(obj: Object, l: Layout, exports: map<string, nat>, n: nat, i: nat, j: nat)
    returns (k: nat)
    requires LayoutOk(l, obj) && i < n <= |obj.headers| && j < |SectionScript(obj, l, exports, i)|
    ensures k < |Script(obj, l, exports, n)| && Script(obj, l, exports, n)[k] == SectionScript(obj, l, exports, i)[j]
  {
    hide LayoutOk, SectionScript;
    if i == n - 1 {
      k := |Script(obj, l, exports, n - 1)| + j;
    } else {
      k := ScriptHolds(obj, l, exports, n - 1, i, j);
    }
  }

  /** The entry is one of a section that relocates section t. */
  ghost predicate EntryOf(obj: Object, l: Layout, i: nat, j: nat, t: nat)
    requires LayoutOk(l, obj)
  {
    && i < |obj.headers| && obj.headers[i].kind == SHT_REL && TargetOf(obj.headers[i]) == t < |obj.headers|
    && j < obj.headers[i].size / 8 && l.slots[t].Some? && BaseAt(l, obj, t) != 0
  }

  /** What a PC-relative or absolute site of a loaded module holds. */
  lemma LoadedSite(obj: Object, l: Layout, exports: map<string, nat>, image: Bytes, i: nat, j: nat, t: nat)
    requires LayoutOk(l, obj) && LayoutPlaced(l) && EntryOf(obj, l, i, j, t)
    requires AreBytes(image) && Copied(image, obj, l.rx) && Copied(image, obj, l.rw)
    requires SitesApart(Script(obj, l, exports, |obj.headers|))
    requires obj.rel(i, j).offset + 4 < W32 && Decide(obj, l, exports, t, obj.rel(i, j)).Patch?
    ensures var v := Decide(obj, l, exports, t, obj.rel(i, j));
            Word(ApplyAll(image, Script(obj, l, exports, |obj.headers|)), v.at) ==
              PatchedWord(v, Addend(obj, SectionAt(l, obj, t), obj.rel(i, j).offset))
  {
    var v := SectionScript(obj, l, exports, i)[j];
    assert v == Decide(obj, l, exports, t, obj.rel(i, j));
    AddendAt(obj, l, exports, t, obj.rel(i, j), image);
    hide LayoutOk, Script, SectionScript, SitesApart, ApplyAll, Word, PatchedWord, Decide, Copied, Addend;
    var k := ScriptHolds(obj, l, exports, |obj.headers|, i, j);
    Relocated(image, Script(obj, l, exports, |obj.headers|));
  }

  /**
   One object loaded at two places: a PC-relative site whose symbol is in its own region holds the same word in both,
   however far apart the regions are placed.
   */
  lemma PositionIndependent(obj: Object, l: Layout, l': Layout, exports: map<string, nat>, image: Bytes, image': Bytes,
                            i: nat, j: nat, t: nat)
    requires LayoutOk(l, obj) && LayoutPlaced(l) && LayoutOk(l', obj) && LayoutPlaced(l') && Moved(l, l')
    requires AreBytes(image) && Copied(image, obj, l.rx) && Copied(image, obj, l.rw)
    requires AreBytes(image') && Copied(image', obj, l'.rx) && Copied(image', obj, l'.rw)
    requires SitesApart(Script(obj, l, exports, |obj.headers|)) && SitesApart(Script(obj, l', exports, |obj.headers|))
    requires EntryOf(obj, l, i, j, t) && obj.rel(i, j).offset + 4 < W32
    requires obj.rel(i, j).Kind() == R_386_PC32 && Decide(obj, l, exports, t, obj.rel(i, j)).Patch?
    requires var x := obj.symbol(obj.rel(i, j).Sym()).shndx;
             && x != SHN_UNDEF && x != SHN_ABS && x < |obj.headers| && l.slots[x].Some?
             && l.slots[x].value.access == l.slots[t].value.access
    ensures var v, v' := Decide(obj, l, exports, t, obj.rel(i, j)), Decide(obj, l', exports, t, obj.rel(i, j));
            && v'.Patch?
            && Word(ApplyAll(image, Script(obj, l, exports, |obj.headers|)), v.at) ==
                 Word(ApplyAll(image', Script(obj, l', exports, |obj.headers|)), v'.at)
  {
    hide LayoutPlaced, Script, SitesApart, ApplyAll, Word, PatchedWord, Decide, Copied, Addend;
    var r := obj.rel(i, j);
    PcRelativeIgnoresBase(obj, l, l', exports, t, r, Addend(obj, SectionAt(l, obj, t), r.offset));
    assert SectionAt(l', obj, t) == SectionAt(l, obj, t) && EntryOf(obj, l', i, j, t);
    LoadedSite(obj, l, exports, image, i, j, t);
    LoadedSite(obj, l', exports, image', i, j, t);
  }

  lemma {:induction false} PatchesAreBytes(m: Bytes, vs: seq<Verdict>)
    requires AreBytes(m)
    ensures AreBytes(ApplyAll(m, vs))
  {
    hide PutWord, Word, PatchedWord;
    if vs != [] {
      var n := |vs| - 1;
      PatchesAreBytes(m, vs[..n]);
      if vs[n].Patch? {
        var m1 := ApplyAll(m, vs[..n]);
        PatchedIsWord(vs[n], Word(m1, vs[n].at));
        PutWordReads(m1, vs[n].at, PatchedWord(vs[n], Word(m1, vs[n].at)));
      }
    }
  }

  // ---- what a loaded module contains -----------------------------------------------------------------

  /** Both regions hold every loadable section of the object, packed in whole pages. */
  ghost predicate Packed(l: Layout, obj: Object)
  {
    && WellPacked(l.rx, obj.headers, |obj.headers|, RX) && WellPacked(l.rw, obj.headers, |obj.headers|, RW)
    && FewestPages(l.rx) && FewestPages(l.rw) && l.rx.size < W32 && l.rw.size < W32
  }

  /** s is one of the sections of the module, in region r. */
  ghost predicate IsSection(l: Layout, r: Region, s: Section) { (r == l.rx || r == l.rw) && s in r.sections }

  /**
   The address of a symbol: that of the kernel export of its name if it is undefined here (0), its value if it is
   absolute (0xfff1), and otherwise its value behind the start of its section; common symbols (0xfff2) have none.
   */
  ghost predicate Resolves(obj: Object, l: Layout, exports: map<string, nat>, sym: Symbol, value: nat)
  {
    if sym.shndx == 0 then sym.name in exports && value == exports[sym.name]
    else if sym.shndx == 0xfff1 then value == sym.value
    else
      && sym.shndx != 0xfff2
      && exists r, s :: IsSection(l, r, s) && s.header == sym.shndx && value == (r.base + s.regOff + sym.value) % W32
  }

  /** Entry j of header i, a relocation table (9), is about section s of region r. */
  ghost predicate EntryFor(obj: Object, l: Layout, i: nat, j: nat, r: Region, s: Section)
  {
    && i < |obj.headers| && obj.headers[i].kind == 9 && j < obj.headers[i].size / 8
    && IsSection(l, r, s) && s.header == obj.headers[i].info % 0x1_0000
  }

  ghost predicate EntryValue(obj: Object, l: Layout, exports: map<string, nat>, i: nat, j: nat, value: nat)
  {
    Resolves(obj, l, exports, obj.symbol(obj.rel(i, j).info / 256), value)
  }

  /** What the file says at offset x of a section: its bytes for program data (1), and zero for everything else. */
  ghost function FileByte(obj: Object, h: nat, x: nat): nat
    requires h < |obj.headers|
  {
    if obj.headers[h].kind == 1 then obj.file(obj.headers[h].offset + x) % 256 else 0
  }

  /** The word at address p, low byte first. */
  ghost function WordAt(m: Bytes, p: nat): nat
  {
    Byte(m, p) + 0x100 * Byte(m, p + 1) + 0x1_0000 * Byte(m, p + 2) + 0x100_0000 * Byte(m, p + 3)
  }

  ghost function FileWord(obj: Object, h: nat, x: nat): nat
    requires h < |obj.headers|
  {
    FileByte(obj, h, x) + 0x100 * FileByte(obj, h, x + 1) + 0x1_0000 * FileByte(obj, h, x + 2)
      + 0x100_0000 * FileByte(obj, h, x + 3)
  }

  /** Each resolved entry of type 1 holds S + A, and each of type 2 S + A - P; A is what the file says there. */
  ghost predicate SitesRight(obj: Object, l: Layout, exports: map<string, nat>, m: Bytes)
  {
    forall i: nat, j: nat, r, s, value: nat ::
      EntryFor(obj, l, i, j, r, s) && EntryValue(obj, l, exports, i, j, value) && obj.rel(i, j).offset + 4 < W32 ==>
        && s.header < |obj.headers|
        && var p, a := r.base + s.regOff + obj.rel(i, j).offset, FileWord(obj, s.header, obj.rel(i, j).offset);
           if obj.rel(i, j).info % 256 == 1 then WordAt(m, p) == (value + a) % W32
           else obj.rel(i, j).info % 256 == 2 && WordAt(m, p) == (value + a - p) % W32
  }

  /** No resolved entry patches the byte at a. */
  ghost predicate Unpatched(obj: Object, l: Layout, exports: map<string, nat>, a: nat)
  {
    forall i: nat, j: nat, r, s, value: nat ::
      EntryFor(obj, l, i, j, r, s) && EntryValue(obj, l, exports, i, j, value) ==>
        var p := (r.base + s.regOff + obj.rel(i, j).offset) % W32; a < p || p + 4 <= a
  }

  /** Every other byte of a section is what the file says. */
  ghost predicate RestRight(obj: Object, l: Layout, exports: map<string, nat>, m: Bytes)
  {
    forall r, s, x: nat {:trigger IsSection(l, r, s), FileByte(obj, s.header, x)} ::
      IsSection(l, r, s) && x < s.size && Unpatched(obj, l, exports, r.base + s.regOff + x) ==>
        s.header < |obj.headers| && Byte(m, r.base + s.regOff + x) == FileByte(obj, s.header, x)
  }

  /** The sections are those of the headers with SHF_ALLOC, a type and a size; the executable ones are in rx. */
  ghost predicate SectionsRight(obj: Object, l: Layout)
  {
    && (forall r, s :: IsSection(l, r, s) ==>
          && s.header < |obj.headers| && Loadable(obj.headers[s.header]) && s.size == obj.headers[s.header].size
          && (s in l.rx.sections <==> obj.headers[s.header].flags & 4 == 4))
    && (forall h: nat :: h < |obj.headers| && Loadable(obj.headers[h]) ==>
        exists r, s :: IsSection(l, r, s) && s.header == h)
  }

  ghost predicate Loadable(h: SectionHeader) { h.flags & 2 != 0 && h.kind != 0 && h.size != 0 }

  /** The section of a header, found through the slots. */
  lemma SlotOfSection(obj: Object, l: Layout, r: Region, s: Section)
    requires LayoutOk(l, obj) && Packed(l, obj) && IsSection(l, r, s)
    ensures s.header < |obj.headers| && l.slots[s.header].Some? && SectionAt(l, obj, s.header) == s
    ensures BaseAt(l, obj, s.header) == r.base && l.RegionAt(l.slots[s.header].value.access) == r
    ensures var h := obj.headers[s.header];
            Placed(h) && s.kind == h.kind && s.fileOff == h.offset && s.size == h.size
              && (s in l.rx.sections <==> AccessOf(h) == RX)
  {
    hide Placed, AccessOf, WellPacked, FewestPages;
    if s in l.rx.sections { InRegionOf(l.rx, obj.headers, RX, s); }
    if s in l.rw.sections { InRegionOf(l.rw, obj.headers, RW, s); }
    assert r == l.RegionAt(AccessOf(obj.headers[s.header]));
    OneOfHeader(r, obj.headers, AccessOf(obj.headers[s.header]), s, SectionAt(l, obj, s.header));
  }

  lemma OneOfHeader(r: Region, hs: seq<SectionHeader>, a: Access, s: Section, s': Section)
    requires WellPacked(r, hs, |hs|, a) && s in r.sections && s' in r.sections && s.header == s'.header
    ensures s == s'
  {
    hide Faithful, Complete, Snug;
    var k :| 0 <= k < |r.sections| && r.sections[k] == s;
    var k' :| 0 <= k' < |r.sections| && r.sections[k'] == s';
    assert k == k';
  }

  lemma InRegionOf(r: Region, hs: seq<SectionHeader>, a: Access, s: Section)
    requires WellPacked(r, hs, |hs|, a) && s in r.sections
    ensures s.header < |hs| && Placed(hs[s.header]) && AccessOf(hs[s.header]) == a
    ensures s.kind == hs[s.header].kind && s.size == hs[s.header].size && s.fileOff == hs[s.header].offset
  {
    var k :| 0 <= k < |r.sections| && r.sections[k] == s;
    assert Faithful(r.sections[k], hs, |hs|, a, r.size);
  }

  /** The section of a slot is a section. */
  lemma SectionOfSlot(obj: Object, l: Layout, h: nat)
    requires LayoutOk(l, obj) && h < |obj.headers| && l.slots[h].Some?
    ensures IsSection(l, l.RegionAt(l.slots[h].value.access), SectionAt(l, obj, h)) && SectionAt(l, obj, h).header == h
  {
  }

  lemma SectionsAreRight(obj: Object, l: Layout)
    requires LayoutOk(l, obj) && Packed(l, obj)
    ensures SectionsRight(obj, l)
  {
    hide LayoutOk, Packed, IsSection;
    forall r, s | IsSection(l, r, s)
      ensures s.header < |obj.headers| && Loadable(obj.headers[s.header]) && s.size == obj.headers[s.header].size
      ensures s in l.rx.sections <==> obj.headers[s.header].flags & 4 == 4
    {
      SlotOfSection(obj, l, r, s);
      FlagBits(obj.headers[s.header]);
    }
    forall h: nat | h < |obj.headers| && Loadable(obj.headers[h])
      ensures exists r, s :: IsSection(l, r, s) && s.header == h
    {
      FlagBits(obj.headers[h]);
      SlotThere(obj, l, h);
      SectionOfSlot(obj, l, h);
    }
  }

  lemma SlotCount(obj: Object, l: Layout)
    requires LayoutOk(l, obj)
    ensures |l.slots| == |obj.headers|
  {
  }

  lemma SlotThere(obj: Object, l: Layout, h: nat)
    requires LayoutOk(l, obj) && h < |obj.headers| && Placed(obj.headers[h])
    ensures |l.slots| == |obj.headers| && l.slots[h].Some?
  {
  }

  lemma FlagBits(h: SectionHeader)
    ensures Placed(h) <==> Loadable(h)
    ensures AccessOf(h) == RX <==> h.flags & 4 == 4
  {
  }

  /** Resolves says what SymbolAddress computes, in a module whose regions with sections have a base. */
  lemma ResolvesWhen(obj: Object, l: Layout, exports: map<string, nat>, sym: Symbol, value: nat)
    requires LayoutOk(l, obj) && Packed(l, obj) && AllPlaced(l)
    ensures Resolves(obj, l, exports, sym, value) <==> SymbolAddress(obj, l, exports, sym) == At(value)
  {
    if sym.shndx != 0 && sym.shndx != 0xfff1 && sym.shndx != 0xfff2 {
      if Resolves(obj, l, exports, sym, value) { ResolvedThere(obj, l, exports, sym, value); }
      if SymbolAddress(obj, l, exports, sym) == At(value) { ThereResolved(obj, l, exports, sym, value); }
    }
  }

  lemma ResolvedThere(obj: Object, l: Layout, exports: map<string, nat>, sym: Symbol, value: nat)
    requires LayoutOk(l, obj) && Packed(l, obj) && AllPlaced(l) && Resolves(obj, l, exports, sym, value)
    requires sym.shndx != 0 && sym.shndx != 0xfff1
    ensures SymbolAddress(obj, l, exports, sym) == At(value)
  {
    hide LayoutOk, Packed, IsSection, AllPlaced;
    var r, s :| IsSection(l, r, s) && s.header == sym.shndx && value == (r.base + s.regOff + sym.value) % W32;
    SlotOfSection(obj, l, r, s);
    SectionsPlaced(l, r, s);
  }

  lemma ThereResolved(obj: Object, l: Layout, exports: map<string, nat>, sym: Symbol, value: nat)
    requires LayoutOk(l, obj) && SymbolAddress(obj, l, exports, sym) == At(value)
    requires sym.shndx != 0 && sym.shndx != 0xfff1
    ensures Resolves(obj, l, exports, sym, value)
  {
    hide LayoutOk, IsSection;
    SlotCount(obj, l);
    SectionOfSlot(obj, l, sym.shndx);
  }

  lemma FileWordIs(obj: Object, l: Layout, r: Region, s: Section, x: nat)
    requires LayoutOk(l, obj) && Packed(l, obj) && IsSection(l, r, s)
    ensures s.header < |obj.headers| && Addend(obj, s, x) == FileWord(obj, s.header, x)
    ensures SourceByte(obj, s, x) == FileByte(obj, s.header, x)
  {
    hide LayoutOk, Packed, IsSection;
    SlotOfSection(obj, l, r, s);
  }

  /** One resolved entry. */
  lemma SiteRight(obj: Object, l: Layout, exports: map<string, nat>, image: Bytes, i: nat, j: nat, r: Region,
                  s: Section,
                  value: nat)
    requires LayoutOk(l, obj) && LayoutPlaced(l) && Packed(l, obj) && AllPlaced(l)
    requires AreBytes(image) && Copied(image, obj, l.rx) && Copied(image, obj, l.rw)
    requires NoFail(Script(obj, l, exports, |obj.headers|)) && SitesApart(Script(obj, l, exports, |obj.headers|))
    requires EntryFor(obj, l, i, j, r, s) && EntryValue(obj, l, exports, i, j, value) && obj.rel(i, j).offset + 4 < W32
    ensures s.header < |obj.headers|
    ensures var m := ApplyAll(image, Script(obj, l, exports, |obj.headers|));
            var p, a := r.base + s.regOff + obj.rel(i, j).offset, FileWord(obj, s.header, obj.rel(i, j).offset);
            if obj.rel(i, j).info % 256 == 1 then WordAt(m, p) == (value + a) % W32
            else obj.rel(i, j).info % 256 == 2 && WordAt(m, p) == (value + a - p) % W32
  {
    hide LayoutOk, LayoutPlaced, Packed, Copied, Script, SectionScript, NoFail, SitesApart, ApplyAll, IsSection, Addend;
    hide FileWord, Resolves, SymbolAddress;
    var t, e := s.header, obj.rel(i, j);
    SlotOfSection(obj, l, r, s);
    SectionsPlaced(l, r, s);
    ResolvesWhen(obj, l, exports, obj.symbol(e.info / 256), value);
    EntryScript(obj, l, exports, i, j, t);
    NotRefused(obj, l, exports, i, j);
    LoadedSite(obj, l, exports, image, i, j, t);
    FileWordIs(obj, l, r, s, e.offset);
    SiteAddress(obj, l, exports, t, e);
  }

  lemma SectionsPlaced(l: Layout, r: Region, s: Section)
    requires AllPlaced(l) && IsSection(l, r, s)
    ensures r.base != 0
  {
  }

  lemma EntryScript(obj: Object, l: Layout, exports: map<string, nat>, i: nat, j: nat, t: nat)
    requires LayoutOk(l, obj) && EntryOf(obj, l, i, j, t)
    ensures j < |SectionScript(obj, l, exports, i)|
    ensures SectionScript(obj, l, exports, i)[j] == Decide(obj, l, exports, t, obj.rel(i, j))
  {
  }

  lemma NotRefused(obj: Object, l: Layout, exports: map<string, nat>, i: nat, j: nat)
    requires LayoutOk(l, obj) && NoFail(Script(obj, l, exports, |obj.headers|))
    requires i < |obj.headers| && j < |SectionScript(obj, l, exports, i)|
    ensures !SectionScript(obj, l, exports, i)[j].Fail?
  {
    hide LayoutOk, Script, SectionScript;
    var k := ScriptHolds(obj, l, exports, |obj.headers|, i, j);
  }

  lemma SiteAddress(obj: Object, l: Layout, exports: map<string, nat>, t: nat, e: Rel)
    requires LayoutOk(l, obj) && LayoutPlaced(l) && t < |obj.headers| && l.slots[t].Some?
    requires e.offset + 4 < W32 && BaseAt(l, obj, t) != 0 && Decide(obj, l, exports, t, e).Patch?
    ensures Decide(obj, l, exports, t, e).at == BaseAt(l, obj, t) + SectionAt(l, obj, t).regOff + e.offset
  {
    hide SymbolAddress, InWindow, RegionPages;
    var reg, s := l.RegionAt(l.slots[t].value.access), SectionAt(l, obj, t);
    assert Arranged(reg) && s.regOff + s.size <= reg.size;
    WindowBound(reg);
  }

  /** Every patch of the script belongs to some entry. */
  lemma {:induction false} ScriptFrom(obj: Object, l: Layout, exports: map<string, nat>, n: nat, k: nat)
    returns (i: nat, j: nat)
    requires LayoutOk(l, obj) && n <= |obj.headers| && k < |Script(obj, l, exports, n)|
    ensures i < n && j < |SectionScript(obj, l, exports, i)|
    ensures Script(obj, l, exports, n)[k] == SectionScript(obj, l, exports, i)[j]
  {
    hide LayoutOk, SectionScript;
    var before := |Script(obj, l, exports, n - 1)|;
    if k < before {
      i, j := ScriptFrom(obj, l, exports, n - 1, k);
    } else {
      i, j := n - 1, k - before;
    }
  }

  lemma PatchFrom(obj: Object, l: Layout, exports: map<string, nat>, i: nat, j: nat)
    requires LayoutOk(l, obj) && Packed(l, obj) && AllPlaced(l) && i < |obj.headers|
    requires j < |SectionScript(obj, l, exports, i)| && SectionScript(obj, l, exports, i)[j].Patch?
    ensures var v, t := SectionScript(obj, l, exports, i)[j], TargetOf(obj.headers[i]);
            && t < |obj.headers| && l.slots[t].Some?
            && var r, s := l.RegionAt(l.slots[t].value.access), SectionAt(l, obj, t);
               && EntryFor(obj, l, i, j, r, s) && EntryValue(obj, l, exports, i, j, v.sym)
               && v.at == (r.base + s.regOff + obj.rel(i, j).offset) % W32
  {
    hide LayoutOk, Packed, IsSection, Resolves, SymbolAddress;
    SlotCount(obj, l);
    var v, t := SectionScript(obj, l, exports, i)[j], TargetOf(obj.headers[i]);
    assert t < |obj.headers|;
    assert l.slots[t].Some? && BaseAt(l, obj, t) != 0;
    assert v == Decide(obj, l, exports, t, obj.rel(i, j));
    SectionOfSlot(obj, l, t);
    ResolvesWhen(obj, l, exports, obj.symbol(obj.rel(i, j).info / 256), v.sym);
  }

  lemma UnpatchedOutside(obj: Object, l: Layout, exports: map<string, nat>, a: nat)
    requires LayoutOk(l, obj) && Packed(l, obj) && AllPlaced(l) && Unpatched(obj, l, exports, a)
    ensures OutsideSites(Script(obj, l, exports, |obj.headers|), a)
  {
    hide LayoutOk, Packed, IsSection, Resolves, Script, SectionScript, EntryFor, EntryValue;
    var vs := Script(obj, l, exports, |obj.headers|);
    forall k | 0 <= k < |vs| && vs[k].Patch? ensures a < vs[k].at || vs[k].at + 4 <= a {
      var i, j := ScriptFrom(obj, l, exports, |obj.headers|, k);
      PatchFrom(obj, l, exports, i, j);
    }
  }

  /** What a loaded module contains, byte by byte and word by word, in terms of the file, the symbols and the bases. */
  lemma LoadedMeans(obj: Object, l: Layout, exports: map<string, nat>, image: Bytes)
    requires LayoutOk(l, obj) && LayoutPlaced(l) && Packed(l, obj) && AllPlaced(l)
    requires AreBytes(image) && Copied(image, obj, l.rx) && Copied(image, obj, l.rw)
    requires NoFail(Script(obj, l, exports, |obj.headers|)) && SitesApart(Script(obj, l, exports, |obj.headers|))
    ensures Contains(obj, l, exports, ApplyAll(image, Script(obj, l, exports, |obj.headers|)))
  {
    hide LayoutOk, LayoutPlaced, Packed, AllPlaced, Copied, Script, NoFail, SitesApart, ApplyAll, IsSection, EntryFor;
    hide EntryValue, FileByte, FileWord, WordAt, SourceByte, Unpatched, OutsideSites;
    var vs := Script(obj, l, exports, |obj.headers|);
    var m := ApplyAll(image, vs);
    SectionsAreRight(obj, l);
    forall i: nat, j: nat, r, s, value: nat |
      EntryFor(obj, l, i, j, r, s) && EntryValue(obj, l, exports, i, j, value) && obj.rel(i, j).offset + 4 < W32
      ensures s.header < |obj.headers|
      ensures var p, a := r.base + s.regOff + obj.rel(i, j).offset, FileWord(obj, s.header, obj.rel(i, j).offset);
              if obj.rel(i, j).info % 256 == 1 then WordAt(m, p) == (value + a) % W32
              else obj.rel(i, j).info % 256 == 2 && WordAt(m, p) == (value + a - p) % W32
    {
      SiteRight(obj, l, exports, image, i, j, r, s, value);
    }
    LoadedContents(obj, l, exports, image);
    forall r, s, x: nat | IsSection(l, r, s) && x < s.size && Unpatched(obj, l, exports, r.base + s.regOff + x)
      ensures s.header < |obj.headers| && Byte(m, r.base + s.regOff + x) == FileByte(obj, s.header, x)
    {
      UnpatchedOutside(obj, l, exports, r.base + s.regOff + x);
      FileWordIs(obj, l, r, s, x);
      ByteFromFile(obj, l, vs, m, r, s, x);
    }
  }

  lemma ByteFromFile(obj: Object, l: Layout, vs: seq<Verdict>, m: Bytes, r: Region, s: Section, x: nat)
    requires FileBytesOutside(vs, m, obj, l.rx) && FileBytesOutside(vs, m, obj, l.rw) && IsSection(l, r, s)
    requires x < s.size && OutsideSites(vs, r.base + s.regOff + x)
    ensures Byte(m, r.base + s.regOff + x) == SourceByte(obj, s, x)
  {
    hide OutsideSites, SourceByte;
    var k :| 0 <= k < |r.sections| && r.sections[k] == s;
    assert r.sections[k] == s && FileBytesOutside(vs, m, obj, r);
  }

  /** Packed regions that got a base unless they are empty. */
  lemma PackedPlaced(obj: Object, l: Layout)
    requires Packed(l, obj) && (l.rx.base == 0 ==> l.rx.size == 0) && (l.rw.base == 0 ==> l.rw.size == 0)
    ensures AllPlaced(l)
  {
    hide WellPacked, FewestPages;
    FewestPagesMeans(l.rx, obj.headers, |obj.headers|, RX);
    FewestPagesMeans(l.rw, obj.headers, |obj.headers|, RW);
  }

  /** The entry is accepted: its site is in the section, and its symbol is skipped or resolved with a known type. */
  ghost predicate Accepted(obj: Object, l: Layout, exports: map<string, nat>, i: nat, j: nat, s: Section)
  {
    var e := obj.rel(i, j);
    var sym := obj.symbol(e.info / 256);
    && obj.hasSymtab && (e.offset + 4) % W32 <= s.size
    && (|| (sym.shndx == 0 && sym.name !in exports) || sym.shndx == 0xfff2
        || ((exists value: nat :: Resolves(obj, l, exports, sym, value)) && (e.info % 256 == 1 || e.info % 256 == 2)))
  }

  /** No entry is refused exactly when every table has a target header and every entry for a section is accepted. */
  lemma AcceptedWhen(obj: Object, l: Layout, exports: map<string, nat>)
    requires LayoutOk(l, obj) && Packed(l, obj) && AllPlaced(l)
    ensures NoFail(Script(obj, l, exports, |obj.headers|)) <==>
              && (forall i: nat :: i < |obj.headers| && obj.headers[i].kind == 9 ==>
                    obj.headers[i].info % 0x1_0000 < |obj.headers|)
              && (forall i: nat, j: nat, r, s :: EntryFor(obj, l, i, j, r, s) ==> Accepted(obj, l, exports, i, j, s))
  {
    hide LayoutOk, Packed, AllPlaced, Script, SectionScript, IsSection, Accepted, EntryFor;
    var vs, n := Script(obj, l, exports, |obj.headers|), |obj.headers|;
    if NoFail(vs) {
      forall i: nat | i < n && obj.headers[i].kind == 9 ensures obj.headers[i].info % 0x1_0000 < n {
        if obj.headers[i].info % 0x1_0000 >= n { NoTarget(obj, l, exports, i); NotRefused(obj, l, exports, i, 0); }
      }
      forall i: nat, j: nat, r, s | EntryFor(obj, l, i, j, r, s) ensures Accepted(obj, l, exports, i, j, s) {
        AcceptedEntry(obj, l, exports, i, j, r, s);
        NotRefused(obj, l, exports, i, j);
      }
    } else {
      var k :| 0 <= k < |vs| && vs[k].Fail?;
      var i, j := ScriptFrom(obj, l, exports, n, k);
      if obj.headers[i].info % 0x1_0000 < n { FailFrom(obj, l, exports, i, j); } else { NoTarget(obj, l, exports, i); }
    }
  }

  lemma NoTarget(obj: Object, l: Layout, exports: map<string, nat>, i: nat)
    requires LayoutOk(l, obj) && i < |obj.headers| && obj.headers[i].info % 0x1_0000 >= |obj.headers|
    ensures SectionScript(obj, l, exports, i) == if obj.headers[i].kind == 9 then [Fail] else []
  {
  }

  lemma AcceptedEntry(obj: Object, l: Layout, exports: map<string, nat>, i: nat, j: nat, r: Region, s: Section)
    requires LayoutOk(l, obj) && Packed(l, obj) && AllPlaced(l) && EntryFor(obj, l, i, j, r, s)
    ensures i < |obj.headers| && j < |SectionScript(obj, l, exports, i)|
    ensures !SectionScript(obj, l, exports, i)[j].Fail? <==> Accepted(obj, l, exports, i, j, s)
  {
    hide LayoutOk, Packed, AllPlaced, SectionScript, IsSection, Resolves;
    var t := s.header;
    SlotOfSection(obj, l, r, s);
    SectionsPlaced(l, r, s);
    EntryScript(obj, l, exports, i, j, t);
    SlotCount(obj, l);
    AddressKinds(obj, l, exports, obj.symbol(obj.rel(i, j).info / 256));
  }

  lemma AddressKinds(obj: Object, l: Layout, exports: map<string, nat>, sym: Symbol)
    requires LayoutOk(l, obj) && Packed(l, obj) && AllPlaced(l)
    ensures SymbolAddress(obj, l, exports, sym).At? <==> exists value: nat :: Resolves(obj, l, exports, sym, value)
    ensures SymbolAddress(obj, l, exports, sym).Unresolved? <==>
              (sym.shndx == 0 && sym.name !in exports) || sym.shndx == 0xfff2
  {
    if SymbolAddress(obj, l, exports, sym).At? {
      ResolvesWhen(obj, l, exports, sym, SymbolAddress(obj, l, exports, sym).value);
    } else {
      forall value: nat ensures !Resolves(obj, l, exports, sym, value) { ResolvesWhen(obj, l, exports, sym, value); }
    }
  }

  lemma FailFrom(obj: Object, l: Layout, exports: map<string, nat>, i: nat, j: nat)
    requires LayoutOk(l, obj) && Packed(l, obj) && AllPlaced(l) && i < |obj.headers|
    requires obj.headers[i].info % 0x1_0000 < |obj.headers|
    requires j < |SectionScript(obj, l, exports, i)| && SectionScript(obj, l, exports, i)[j].Fail?
    ensures exists r, s :: EntryFor(obj, l, i, j, r, s) && !Accepted(obj, l, exports, i, j, s)
  {
    hide Packed, IsSection, Accepted, Decide, SlotsRight;
    var t := TargetOf(obj.headers[i]);
    SlotCount(obj, l);
    assert l.slots[t].Some?;
    var r, s := l.RegionAt(l.slots[t].value.access), SectionAt(l, obj, t);
    SectionOfSlot(obj, l, t);
    SectionsPlaced(l, r, s);
    assert EntryFor(obj, l, i, j, r, s);
    AcceptedEntry(obj, l, exports, i, j, r, s);
  }

  ghost predicate Contains(obj: Object, l: Layout, exports: map<string, nat>, m: Bytes)
  {
    SectionsRight(obj, l) && SitesRight(obj, l, exports, m) && RestRight(obj, l, exports, m)
  }
}

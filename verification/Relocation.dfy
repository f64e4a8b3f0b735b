/**
 Relocation of a placed module (kernel/src/sys/ld.cpp stage2): which words are patched with what, following
 the relocation section of the TIS ELF Specification 1.2 and chapter 4 of the System V ABI Intel386
 Supplement.
 */
module Relocation {
  import opened Machine
  import opened ElfObject

  // ---- bytes and words -----------------------------------------------------------------------------

  type Bytes = map<nat, nat>

  function Byte(m: Bytes, a: nat): nat { if a in m then m[a] else 0 }

  ghost predicate AreBytes(m: Bytes)
  {
    forall a :: a in m ==> m[a] < 256
  }

  /** Little-endian word at a. */
  function Word(m: Bytes, a: nat): nat
  {
    Byte(m, a) + 0x100 * Byte(m, a + 1) + 0x1_0000 * Byte(m, a + 2) + 0x100_0000 * Byte(m, a + 3)
  }

  function PutWord(m: Bytes, a: nat, w: nat): Bytes
  {
    m[a := w % 0x100][a + 1 := w / 0x100 % 0x100][a + 2 := w / 0x1_0000 % 0x100][a + 3 := w / 0x100_0000 % 0x100]
  }

  lemma Digits(w: nat)
    requires w < W32
    ensures w == w % 0x100 + 0x100 * (w / 0x100 % 0x100)
                 + 0x1_0000 * (w / 0x1_0000 % 0x100) + 0x100_0000 * (w / 0x100_0000 % 0x100)
  {
    assert w / 0x1_0000 == w / 0x100 / 0x100;
    assert w / 0x100_0000 == w / 0x1_0000 / 0x100;
    assert w / 0x100_0000 % 0x100 == w / 0x100_0000;
  }

  lemma PutWordReads(m: Bytes, a: nat, w: nat)
    requires w < W32 && AreBytes(m)
    ensures AreBytes(PutWord(m, a, w)) && Word(PutWord(m, a, w), a) == w
    ensures forall x: nat :: x < a || a + 4 <= x ==> Byte(PutWord(m, a, w), x) == Byte(m, x)
    ensures forall b: nat :: b + 4 <= a || a + 4 <= b ==> Word(PutWord(m, a, w), b) == Word(m, b)
  {
    Digits(w);
  }

  // ---- decisions -----------------------------------------------------------------------------------

  datatype Layout = Layout(rx: Region, rw: Region, slots: seq<Option<Slot>>) {
    function RegionAt(a: Access): Region { if a == RX then rx else rw }
  }

  ghost predicate LayoutOk(l: Layout, obj: Object)
  {
    SlotsRight(l.slots, obj.headers, |obj.headers|, l.rx, l.rw)
  }

  function SectionAt(l: Layout, obj: Object, i: nat): Section
    requires LayoutOk(l, obj) && i < |obj.headers| && l.slots[i].Some?
  {
    l.RegionAt(l.slots[i].value.access).sections[l.slots[i].value.index]
  }

  function BaseAt(l: Layout, obj: Object, i: nat): nat
    requires LayoutOk(l, obj) && i < |obj.headers| && l.slots[i].Some?
  {
    l.RegionAt(l.slots[i].value.access).base
  }

  datatype Address = At(value: nat) | Unresolved | Bad

  /** S: kernel exports, absolute values, or the placed section of the symbol. */
  function SymbolAddress(obj: Object, l: Layout, exports: map<string, nat>, sym: Symbol): Address
    requires LayoutOk(l, obj)
  {
    if sym.shndx == SHN_UNDEF then (if sym.name in exports then At(exports[sym.name]) else Unresolved)
    else if sym.shndx == SHN_ABS then At(sym.value)
    else if sym.shndx == SHN_COMMON then Unresolved
    else if sym.shndx >= |obj.headers| || l.slots[sym.shndx].None? || BaseAt(l, obj, sym.shndx) == 0 then Bad
    else At((BaseAt(l, obj, sym.shndx) + SectionAt(l, obj, sym.shndx).regOff + sym.value) % W32)
  }

  /** Layout::find_symbol, given what the symbol tables hold under the name. */
  function FindSymbol(obj: Object, l: Layout, found: Option<Symbol>): Option<nat>
    requires LayoutOk(l, obj)
  {
    if found.None? || found.value.shndx == SHN_UNDEF || found.value.shndx == SHN_COMMON
       || found.value.shndx >= |obj.headers| || l.slots[found.value.shndx].None? then None
    else
      var i := found.value.shndx;
      Some(((BaseAt(l, obj, i) + SectionAt(l, obj, i).regOff) % W32 + found.value.value) % W32)
  }

  /** Regions with sections have a base. */
  ghost predicate AllPlaced(l: Layout)
  {
    (l.rx.base == 0 ==> l.rx.sections == []) && (l.rw.base == 0 ==> l.rw.sections == [])
  }

  /** In a placed module, a symbol is found exactly when relocation resolves it inside the module, at that address. */
  lemma FoundWhereLinked(obj: Object, l: Layout, exports: map<string, nat>, sym: Symbol)
    requires LayoutOk(l, obj) && AllPlaced(l) && |obj.headers| <= SHN_ABS
    ensures FindSymbol(obj, l, Some(sym)).Some? <==>
              sym.shndx != SHN_UNDEF && sym.shndx != SHN_ABS && SymbolAddress(obj, l, exports, sym).At?
    ensures FindSymbol(obj, l, Some(sym)).Some? ==>
              SymbolAddress(obj, l, exports, sym) == At(FindSymbol(obj, l, Some(sym)).value)
  {
  }

  /** What becomes of one relocation entry. */
  datatype Verdict = Patch(at: nat, kind: nat, sym: nat) | Skip | Fail

  /** One entry against target header t; the order of the tests is the program's. */
  function Decide(obj: Object, l: Layout, exports: map<string, nat>, t: nat, r: Rel): Verdict
    requires LayoutOk(l, obj) && t < |obj.headers| && l.slots[t].Some?
  {
    if !obj.hasSymtab || (r.offset + 4) % W32 > SectionAt(l, obj, t).size then Fail
    else
      match SymbolAddress(obj, l, exports, obj.symbol(r.Sym()))
      case Unresolved => Skip
      case Bad => Fail
      case At(s) =>
        if r.Kind() != R_386_32 && r.Kind() != R_386_PC32 then Fail
        else Patch((BaseAt(l, obj, t) + SectionAt(l, obj, t).regOff + r.offset) % W32, r.Kind(), s)
  }

  /** S + A, or S + A - P, on 32-bit words. */
  function PatchedWord(v: Verdict, addend: nat): nat
    requires v.Patch?
  {
    if v.kind == R_386_32 then (v.sym + addend) % W32 else (v.sym + addend - v.at) % W32
  }

  function TargetOf(h: SectionHeader): nat { h.info % 0x1_0000 }

  /** The verdicts of section header i, in entry order. */
  ghost function SectionScript(obj: Object, l: Layout, exports: map<string, nat>, i: nat): seq<Verdict>
    requires LayoutOk(l, obj) && i < |obj.headers|
  {
    var h, t := obj.headers[i], TargetOf(obj.headers[i]);
    if h.kind != SHT_REL then []
    else if t >= |obj.headers| then [Fail]
    else if l.slots[t].None? then []
    else if BaseAt(l, obj, t) == 0 then [Fail]
    else seq(h.size / 8, j requires 0 <= j < h.size / 8 => Decide(obj, l, exports, t, obj.rel(i, j)))
  }

  ghost function Script(obj: Object, l: Layout, exports: map<string, nat>, n: nat): seq<Verdict>
    requires LayoutOk(l, obj) && n <= |obj.headers|
  {
    if n == 0 then [] else Script(obj, l, exports, n - 1) + SectionScript(obj, l, exports, n - 1)
  }

  function Apply(m: Bytes, v: Verdict): Bytes
  {
    if v.Patch? then PutWord(m, v.at, PatchedWord(v, Word(m, v.at))) else m
  }

  /** Memory after the verdicts, applied in order. */
  ghost function ApplyAll(m: Bytes, vs: seq<Verdict>): Bytes
  {
    if vs == [] then m else Apply(ApplyAll(m, vs[..|vs| - 1]), vs[|vs| - 1])
  }

  lemma ApplyNext(m: Bytes, vs: seq<Verdict>, v: Verdict)
    ensures ApplyAll(m, vs + [v]) == Apply(ApplyAll(m, vs), v)
  {
  }

  ghost predicate NoFail(vs: seq<Verdict>)
  {
    forall k :: 0 <= k < |vs| ==> !vs[k].Fail?
  }

  /** Relocation sites do not overlap. */
  ghost predicate SitesApart(vs: seq<Verdict>)
  {
    forall j, k :: 0 <= j < k < |vs| && vs[j].Patch? && vs[k].Patch? ==>
      vs[j].at + 4 <= vs[k].at || vs[k].at + 4 <= vs[j].at
  }

  ghost predicate OutsideSites(vs: seq<Verdict>, a: nat)
  {
    forall k :: 0 <= k < |vs| && vs[k].Patch? ==> a < vs[k].at || vs[k].at + 4 <= a
  }

  /**
   After all patches, each site holds S + A or S + A - P computed from the addend that the file put there, and
   every byte outside the sites is untouched.
   */
  lemma {:induction false} Relocated(m: Bytes, vs: seq<Verdict>)
    requires AreBytes(m) && SitesApart(vs)
    ensures AreBytes(ApplyAll(m, vs))
    ensures forall k :: 0 <= k < |vs| && vs[k].Patch? ==>
              Word(ApplyAll(m, vs), vs[k].at) == PatchedWord(vs[k], Word(m, vs[k].at))
    ensures forall a: nat :: OutsideSites(vs, a) ==> Byte(ApplyAll(m, vs), a) == Byte(m, a)
  {
    if vs != [] {
      var n := |vs| - 1;
      var before, v := vs[..n], vs[n];
      Relocated(m, before);
      var m1 := ApplyAll(m, before);
      if v.Patch? {
        PutWordReads(m1, v.at, PatchedWord(v, Word(m1, v.at)));
        SiteUntouched(m, before, v);
      }
      hide Word, PutWord, PatchedWord;
      forall k | 0 <= k < |vs| && vs[k].Patch?
        ensures Word(ApplyAll(m, vs), vs[k].at) == PatchedWord(vs[k], Word(m, vs[k].at))
      {
        if k < n { assert before[k] == vs[k]; }
      }
      forall a: nat | OutsideSites(vs, a) ensures Byte(ApplyAll(m, vs), a) == Byte(m, a) {
        assert OutsideSites(before, a);
      }
    }
  }

  lemma SiteUntouched(m: Bytes, before: seq<Verdict>, v: Verdict)
    requires v.Patch? && SitesApart(before + [v])
    requires forall a: nat :: OutsideSites(before, a) ==> Byte(ApplyAll(m, before), a) == Byte(m, a)
    ensures Word(ApplyAll(m, before), v.at) == Word(m, v.at)
  {
    forall a: nat | v.at <= a < v.at + 4 ensures OutsideSites(before, a) {
      forall k | 0 <= k < |before| && before[k].Patch? ensures a < before[k].at || before[k].at + 4 <= a {
        assert (before + [v])[k] == before[k] && (before + [v])[|before|] == v;
      }
    }
  }

  /** Same packing, regions placed elsewhere. */
  ghost predicate Moved(l: Layout, l': Layout)
  {
    && l.slots == l'.slots && l.rx.sections == l'.rx.sections && l.rw.sections == l'.rw.sections
    && (l.rx.base == 0 <==> l'.rx.base == 0) && (l.rw.base == 0 <==> l'.rw.base == 0)
  }

  /** Whatever base its region gets, a PC-relative entry whose symbol is in that region writes the same word. */
  lemma PcRelativeIgnoresBase(obj: Object, l: Layout, l': Layout, exports: map<string, nat>, t: nat, r: Rel,
                              addend: nat)
    requires LayoutOk(l, obj) && LayoutOk(l', obj) && Moved(l, l') && t < |obj.headers| && l.slots[t].Some?
    requires r.Kind() == R_386_PC32 && Decide(obj, l, exports, t, r).Patch?
    requires var i := obj.symbol(r.Sym()).shndx;
             && i != SHN_UNDEF && i != SHN_ABS && i < |obj.headers| && l.slots[i].Some?
             && l.slots[i].value.access == l.slots[t].value.access
    ensures Decide(obj, l', exports, t, r).Patch?
    ensures PatchedWord(Decide(obj, l, exports, t, r), addend) == PatchedWord(Decide(obj, l', exports, t, r), addend)
  {
    var sym := obj.symbol(r.Sym());
    SamePcWord(BaseAt(l, obj, t), BaseAt(l', obj, t), SectionAt(l, obj, sym.shndx).regOff, sym.value,
               SectionAt(l, obj, t).regOff + r.offset, addend);
  }

  lemma SamePcWord(base: nat, base': nat, symOff: nat, value: nat, siteOff: nat, addend: nat)
    ensures PatchedWord(Patch((base + siteOff) % W32, R_386_PC32, (base + symOff + value) % W32), addend)
         == PatchedWord(Patch((base' + siteOff) % W32, R_386_PC32, (base' + symOff + value) % W32), addend)
         == (symOff + value + addend - siteOff) % W32
  {
    BaseCancels(base, symOff + value, siteOff, addend);
    BaseCancels(base', symOff + value, siteOff, addend);
  }

  lemma BaseCancels(base: nat, s: nat, p: nat, a: nat)
    ensures ((base + s) % W32 + a - (base + p) % W32) % W32 == (s + a - p) % W32
  {
  }

  // ---- stage2 --------------------------------------------------------------------------------------

  /** stage2: applies the verdicts in order and stops at the first failure, after `k` verdicts. */
  method Stage2(obj: Object, l: Layout, exports: map<string, nat>, m0: Bytes) returns (ok: bool, m: Bytes, ghost k: nat)
    requires LayoutOk(l, obj)
    ensures ok <==> NoFail(Script(obj, l, exports, |obj.headers|))
    ensures Reached(obj, l, exports, |obj.headers|, m0, m, k)
    ensures ok ==> m == ApplyAll(m0, Script(obj, l, exports, |obj.headers|))
  {
    hide LayoutOk, Script, NoFail, ApplyAll, Reached;
    m, k, ok := m0, 0, true;
    NothingDone(obj, l, exports, m0);
    for i := 0 to |obj.headers|
      invariant NoFail(Script(obj, l, exports, i)) && m == ApplyAll(m0, Script(obj, l, exports, i))
      invariant Reached(obj, l, exports, i, m0, m, k)
    {
      ok, m, k := RelocateSection(obj, l, exports, i, m, m0);
      ScriptSplit(obj, l, exports, i, |obj.headers|, m0, m, k);
      if !ok {
        return;
      }
    }
    ok := true;
  }

  /** m is m0 after the first k verdicts of the first n headers. */
  ghost predicate Reached(obj: Object, l: Layout, exports: map<string, nat>, n: nat, m0: Bytes, m: Bytes, k: nat)
    requires LayoutOk(l, obj) && n <= |obj.headers|
  {
    k <= |Script(obj, l, exports, n)| && m == ApplyAll(m0, Script(obj, l, exports, n)[..k])
  }

  lemma NothingDone(obj: Object, l: Layout, exports: map<string, nat>, m: Bytes)
    requires LayoutOk(l, obj)
    ensures NoFail(Script(obj, l, exports, 0)) && ApplyAll(m, Script(obj, l, exports, 0)) == m
    ensures Reached(obj, l, exports, 0, m, m, 0)
  {
  }

  lemma {:induction false} ScriptSplit(obj: Object, l: Layout, exports: map<string, nat>, i: nat, n: nat, m0: Bytes,
                                       m: Bytes, k: nat)
    requires LayoutOk(l, obj) && i < n <= |obj.headers|
    ensures NoFail(Script(obj, l, exports, n)) ==> NoFail(Script(obj, l, exports, i + 1))
    ensures Reached(obj, l, exports, i + 1, m0, m, k) ==> Reached(obj, l, exports, n, m0, m, k)
  {
    hide LayoutOk, SectionScript, ApplyAll;
    if i + 1 < n {
      ScriptSplit(obj, l, exports, i, n - 1, m0, m, k);
      var a, b := Script(obj, l, exports, n - 1), SectionScript(obj, l, exports, n - 1);
      Joined(a, b);
      if k <= |a| { assert (a + b)[..k] == a[..k]; }
    }
  }

  /** The body of the loop over section headers. */
  method RelocateSection(obj: Object, l: Layout, exports: map<string, nat>, i: nat, m1: Bytes, ghost m0: Bytes)
    returns (ok: bool, m: Bytes, ghost k: nat)
    requires LayoutOk(l, obj) && i < |obj.headers|
    requires NoFail(Script(obj, l, exports, i)) && m1 == ApplyAll(m0, Script(obj, l, exports, i))
    ensures ok <==> NoFail(Script(obj, l, exports, i + 1))
    ensures Reached(obj, l, exports, i + 1, m0, m, k)
    ensures ok ==> m == ApplyAll(m0, Script(obj, l, exports, i + 1))
  {
    hide Decide, Apply, ApplyAll;
    ok, m := true, m1;
    ghost var done, todo := Script(obj, l, exports, i), SectionScript(obj, l, exports, i);
    Joined(done, todo);
    k := |done|;
    assert (done + todo)[..k] == done;
    var h := obj.headers[i];
    if h.kind != SHT_REL {
      assert done + todo == done;
      return;
    }
    var t := TargetOf(h);
    if t >= |obj.headers| {
      assert todo[0].Fail?;
      return false, m, k;
    }
    if l.slots[t].None? {
      assert done + todo == done;
      return;
    }
    if BaseAt(l, obj, t) == 0 {
      assert todo[0].Fail?;
      return false, m, k;
    }
    ghost var j;
    ok, m, j := RelocateEntries(obj, l, exports, i, t, m1, m0);
    k := |done| + j;
    assert (done + todo)[..k] == done + todo[..j];
  }

  /** The inner loop over the entries of one relocation section. */
  method RelocateEntries(obj: Object, l: Layout, exports: map<string, nat>, i: nat, t: nat, m1: Bytes, ghost m0: Bytes)
    returns (ok: bool, m: Bytes, ghost k: nat)
    requires LayoutOk(l, obj) && i < |obj.headers| && t < |obj.headers| && l.slots[t].Some?
    requires obj.headers[i].kind == SHT_REL && t == TargetOf(obj.headers[i]) && BaseAt(l, obj, t) != 0
    requires m1 == ApplyAll(m0, Script(obj, l, exports, i))
    ensures ok <==> NoFail(SectionScript(obj, l, exports, i))
    ensures k <= |SectionScript(obj, l, exports, i)|
    ensures m == ApplyAll(m0, Script(obj, l, exports, i) + SectionScript(obj, l, exports, i)[..k])
    ensures ok ==> m == ApplyAll(m0, Script(obj, l, exports, i) + SectionScript(obj, l, exports, i))
  {
    hide Decide, Apply, Script, ApplyAll, LayoutOk;
    ok, m, k := true, m1, 0;
    ghost var done, todo := Script(obj, l, exports, i), SectionScript(obj, l, exports, i);
    var n := obj.headers[i].size / 8;
    assert |todo| == n && done + todo[..0] == done;
    for j := 0 to n
      invariant ok && NoFail(todo[..j]) && m == ApplyAll(m0, done + todo[..j])
    {
      var v := Decide(obj, l, exports, t, obj.rel(i, j));
      assert v == todo[j];
      if v.Fail? {
        return false, m, j;
      }
      ApplyNext(m0, done + todo[..j], v);
      assert done + todo[..j] + [v] == done + todo[..j + 1];
      m := Apply(m, v);
    }
    assert todo[..n] == todo;
    k := n;
  }

  lemma Joined(a: seq<Verdict>, b: seq<Verdict>)
    ensures NoFail(a + b) <==> NoFail(a) && NoFail(b)
  {
    forall k | 0 <= k < |b| ensures (a + b)[|a| + k] == b[k] {}
    forall k | 0 <= k < |a| ensures (a + b)[k] == a[k] {}
  }
}

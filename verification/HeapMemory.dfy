/**
 Word-level facts behind the boundary-tag allocator: which stores touch which headers, feet and list links, and
 what each step of kernel/src/mm/heap.cpp does to the heap invariant.
 */
module HeapMemory {
  import opened Machine
  import opened CircularList
  import opened HeapChunks

  // ---- invariant --------------------------------------------------------------------------------

  function SizeOf(m: Words, node: int): int
  {
    ChunkSize(Load(m, node - 4))
  }

  ghost predicate SortedBySize(m: Words, nodes: seq<int>)
  {
    forall i, j :: 0 <= i < j < |nodes| ==> SizeOf(m, nodes[i]) <= SizeOf(m, nodes[j])
  }

  ghost predicate ListOk(m: Words, h: int, nodes: seq<int>)
  {
    IsRing(m, h, nodes) && SortedBySize(m, nodes)
  }

  /** Whole pages below the limit, and the list head outside. */
  ghost predicate Window(h: int, start: int, end: int, max: int)
  {
    && 0 < start < end && start % PAGE == 0 && end % PAGE == 0
    && end <= max < W32 - PAGE
    && 0 < h && (h + 32 <= start || max + 32 <= h)
  }

  /** A window of at least the size below which contraction would enlarge it: see ContractsDownWhen. */
  ghost predicate Bounds(h: int, start: int, end: int, max: int)
  {
    Window(h, start, end, max) && end - start >= HEAP_MIN_SIZE
  }

  ghost predicate HeapOk(m: Words, h: int, start: int, end: int, max: int, cs: seq<Chunk>, nodes: seq<int>)
  {
    HeapTags(m, h, start, end, max, cs, nodes) && Clean(m, cs)
  }

  /** What every reachable heap satisfies: PINUSE bits may be stale, and then free chunks may touch. */
  ghost predicate HeapTags(m: Words, h: int, start: int, end: int, max: int, cs: seq<Chunk>, nodes: seq<int>)
  {
    && Bounds(h, start, end, max)
    && Tiles(cs, start, end) && Heads(m, cs)
    && ListOk(m, h, nodes) && Elements(nodes) == FreeNodes(cs)
  }

  // ---- which words matter to whom ----------------------------------------------------------------

  /** No list node in `ns` (nor the head) shares a word with the header at `a`, unless it is its own node. */
  ghost predicate Clear(a: int, h: int, ns: set<int>)
  {
    Apart(h, a + 8) && forall n :: n in ns ==> SameOrApart(n, a + 8)
  }

  /** Link stores leave prevFoot and head of every clear header alone. */
  lemma LinksSpareHeader(m: Words, m': Words, h: int, ns: set<int>, a: int)
    requires OnlyLinks(m, m', ns + {h}) && Clear(a, h, ns)
    ensures Load(m', a) == Load(m, a) && Load(m', a + 4) == Load(m, a + 4)
  {
    var all := ns + {h};
    assert a !in all && a - 4 !in all && a + 4 !in all;
    assert a + 4 - 4 == a;
  }

  /** Storing a head word leaves the list alone, if it keeps the size of a chunk that is on the list. */
  lemma HeadStoreSparesList(m: Words, h: int, nodes: seq<int>, a: int, w: int)
    requires ListOk(m, h, nodes) && Clear(a, h, Elements(nodes))
    requires a + 8 in nodes ==> ChunkSize(w) == ChunkSize(Load(m, a + 4))
    ensures ListOk(m[a + 4 := w], h, nodes)
  {
    var m' := m[a + 4 := w];
    forall n | n in nodes
      ensures Load(m', n) == Load(m, n) && Load(m', n + 4) == Load(m, n + 4) && SizeOf(m', n) == SizeOf(m, n)
    {
      assert n in Elements(nodes);
    }
    RingFrame(m, m', h, nodes);
  }

  lemma FootStoreSparesList(m: Words, h: int, nodes: seq<int>, a: int, w: int)
    requires ListOk(m, h, nodes) && Clear(a, h, Elements(nodes))
    ensures ListOk(m[a := w], h, nodes)
  {
    var m' := m[a := w];
    forall n | n in nodes
      ensures Load(m', n) == Load(m, n) && Load(m', n + 4) == Load(m, n + 4) && SizeOf(m', n) == SizeOf(m, n)
    {
      assert n in Elements(nodes);
    }
    RingFrame(m, m', h, nodes);
  }

  /** A header at a chunk start, or well inside a chunk, is clear of all free nodes. */
  lemma TileClear(cs: seq<Chunk>, h: int, start: int, end: int, max: int, i: int, a: int)
    requires Bounds(h, start, end, max) && Tiles(cs, start, end) && 0 <= i < |cs|
    requires a == cs[i].addr || cs[i].addr + MIN_CHUNK <= a <= cs[i].End() - MIN_CHUNK
    ensures Clear(a, h, FreeNodes(cs))
    ensures a != cs[i].addr || cs[i].used ==> a + 8 !in FreeNodes(cs)
  {
  }

  lemma ClearSubset(a: int, h: int, ns: set<int>, ns': set<int>)
    requires Clear(a, h, ns) && ns' <= ns
    ensures Clear(a, h, ns')
  {
  }

  /** Heads, other than those of the chunks in `except`, and all feet are as before. */
  ghost predicate HeadersKept(m: Words, m': Words, cs: seq<Chunk>, except: set<int>)
  {
    forall i :: 0 <= i < |cs| ==>
      && Load(m', cs[i].addr) == Load(m, cs[i].addr)
      && (cs[i].addr !in except ==> Load(m', cs[i].addr + 4) == Load(m, cs[i].addr + 4))
  }

  ghost predicate PayloadKept(m: Words, m': Words, c: Chunk)
  {
    forall a :: c.addr + 8 <= a < c.End() + 4 ==> Load(m', a) == Load(m, a)
  }

  /** Every byte handed out to somebody is as before. */
  ghost predicate PayloadsKept(m: Words, m': Words, used: set<Chunk>)
  {
    forall c :: c in used ==> PayloadKept(m, m', c)
  }

  /** The same, as far as the heap reaches. */
  ghost predicate PayloadsBelow(m: Words, m': Words, used: set<Chunk>, end: int)
  {
    forall c, a :: c in used && c.addr + 8 <= a < c.End() + 4 && a < end ==> Load(m', a) == Load(m, a)
  }

  lemma BelowKept(m: Words, m': Words, used: set<Chunk>, end: int)
    requires PayloadsKept(m, m', used)
    ensures PayloadsBelow(m, m', used, end)
  {
    forall c, a | c in used && c.addr + 8 <= a < c.End() + 4 && a < end ensures Load(m', a) == Load(m, a) {
      assert PayloadKept(m, m', c);
    }
  }

  lemma BelowChain(m: Words, m1: Words, m2: Words, used: set<Chunk>, used': set<Chunk>, end: int, end': int)
    requires PayloadsBelow(m, m1, used, end) && PayloadsBelow(m1, m2, used', end')
    ensures forall u, e :: u <= used && u <= used' && e <= end && e <= end' ==> PayloadsBelow(m, m2, u, e)
  {
  }

  /** Memory once the pages from lo to hi have been exchanged for `frames`. */
  function Filled(m: Words, frames: Words, lo: int, hi: int): Words
  {
    (map a | a in m && !(lo <= a < hi) :: m[a]) + (map a | a in frames && lo <= a < hi :: frames[a])
  }

  /** What is found on pages that have been given up. */
  const GONE: Words := map[]

  lemma FilledLoad(m: Words, frames: Words, lo: int, hi: int)
    ensures forall a :: Load(Filled(m, frames, lo, hi), a) == if lo <= a < hi then Load(frames, a) else Load(m, a)
  {
  }

  /** Exchanging pages that hold no list node leaves the list alone. */
  lemma FilledSparesList(m: Words, frames: Words, lo: int, hi: int, h: int, nodes: seq<int>)
    requires ListOk(m, h, nodes) && (h + 8 <= lo || hi <= h) && forall n :: n in nodes ==> n + 8 <= lo
    ensures ListOk(Filled(m, frames, lo, hi), h, nodes)
  {
    hide Filled, IsRing;
    var m' := Filled(m, frames, lo, hi);
    FilledLoad(m, frames, lo, hi);
    assert forall n :: n in nodes ==>
        Load(m', n) == Load(m, n) && Load(m', n + 4) == Load(m, n + 4) && SizeOf(m', n) == SizeOf(m, n);
    RingFrame(m, m', h, nodes);
  }

  lemma FilledBelow(m: Words, frames: Words, lo: int, hi: int, used: set<Chunk>)
    ensures PayloadsBelow(m, Filled(m, frames, lo, hi), used, lo)
  {
    hide Filled;
    FilledLoad(m, frames, lo, hi);
  }

  /** Pages behind the heap do not matter to it. */
  lemma FilledHarmless(m: Words, frames: Words, h: int, start: int, end: int, max: int, cs: seq<Chunk>, nodes: seq<int>,
                       end': int)
    requires HeapTags(m, h, start, end, max, cs, nodes) && end' <= max
    ensures var m' := Filled(m, frames, end, end');
            && HeapTags(m', h, start, end, max, cs, nodes)
            && (Clean(m, cs) ==> Clean(m', cs)) && (Feet(m, cs) ==> Feet(m', cs))
  {
    hide Filled, Tiles, Clean, Heads, ListOk, FreeNodes, NoAdjacentFree;
    var m' := Filled(m, frames, end, end');
    FilledLoad(m, frames, end, end');
    forall i | 0 <= i < |cs| ensures Load(m', cs[i].addr) == Load(m, cs[i].addr)
      ensures Load(m', cs[i].addr + 4) == Load(m, cs[i].addr + 4)
    {
      TileAt(cs, start, end, i);
    }
    assert HeadersKept(m, m', cs, {});
    HeadsKept(m, m', cs);
    FreeNodesRange(cs, start, end);
    assert forall n :: n in nodes ==> n in Elements(nodes);
    FilledSparesList(m, frames, end, end', h, nodes);
    if Clean(m, cs) { CleanKept(m, m', cs); }
  }

  /** The eight link bytes at `n` lie outside the payload of `c`. */
  ghost predicate NodeOutside(c: Chunk, n: int)
  {
    n + 8 <= c.addr + 8 || c.End() + 4 <= n
  }

  ghost predicate NodesOutside(used: set<Chunk>, ns: set<int>)
  {
    forall c, n :: c in used && n in ns ==> NodeOutside(c, n)
  }

  lemma LinksSpareAll(m: Words, m': Words, h: int, ns: set<int>, cs: seq<Chunk>)
    requires OnlyLinks(m, m', ns + {h})
    requires forall i :: 0 <= i < |cs| ==> Clear(cs[i].addr, h, ns)
    ensures HeadersKept(m, m', cs, {})
  {
    forall i | 0 <= i < |cs|
      ensures Load(m', cs[i].addr) == Load(m, cs[i].addr) && Load(m', cs[i].addr + 4) == Load(m, cs[i].addr + 4)
    {
      LinksSpareHeader(m, m', h, ns, cs[i].addr);
    }
  }

  lemma LinksSparePayloads(m: Words, m': Words, ns: set<int>, used: set<Chunk>)
    requires OnlyLinks(m, m', ns) && NodesOutside(used, ns)
    ensures PayloadsKept(m, m', used)
  {
    forall c, a | c in used && c.addr + 8 <= a < c.End() + 4 ensures Load(m', a) == Load(m, a) {
      assert a in ns ==> NodeOutside(c, a);
      assert a - 4 in ns ==> NodeOutside(c, a - 4);
    }
  }

  /** In a tiled heap the free nodes and the list head lie outside all payloads, and all headers are clear. */
  lemma TileFrame(cs: seq<Chunk>, h: int, start: int, end: int, max: int)
    requires Bounds(h, start, end, max) && Tiles(cs, start, end)
    ensures forall i :: 0 <= i < |cs| ==> Clear(cs[i].addr, h, FreeNodes(cs))
    ensures NodesOutside(UsedChunks(cs), FreeNodes(cs) + {h})
    ensures forall n :: n in FreeNodes(cs) ==> n > 8 && Apart(h, n)
  {
    forall i | 0 <= i < |cs| ensures Clear(cs[i].addr, h, FreeNodes(cs)) {
      TileClear(cs, h, start, end, max, i, cs[i].addr);
    }
    forall c, n | c in UsedChunks(cs) && n in FreeNodes(cs) ensures NodeOutside(c, n) {
      var i :| 0 <= i < |cs| && cs[i] == c;
      var j :| 0 <= j < |cs| && !cs[j].used && cs[j].addr + 8 == n;
      PayloadIsolated(cs, start, end, i, j);
    }
    FreeNodesRange(cs, start, end);
  }

  /**
   How alloc ends: with a payload; in a failed assertion or panic of the growth path; or with a head store
   behind `endAddr`, which happens when the top chunk is taken whole.
   */
  datatype AllocResult = Block(mem: int) | OutOfMemory | PastEnd

  /** How free ends: done, in "Memory Corrupt", or in the assertion at the head of contract_unlocked. */
  datatype FreeResult = Released | Corrupt | ContractAssert

  /** How the page-aligned allocation ends: with a payload, or as the inner allocation did. */
  datatype PageResult = Aligned(mem: int) | NoBlock(cause: AllocResult)

  /** set_inuse(chunk, size) on memory. */
  function InUse(m: Words, chunk: int, size: int): Words
  {
    var m1 := m[chunk + 4 := Load(m, chunk + 4) % 2 + 2 + size];
    m1[chunk + size + 4 := WithPinuse(Load(m1, chunk + size + 4))]
  }

  /** set_pinuse on a head word. */
  function WithPinuse(head: int): int
  {
    if PInuse(head) then head else head + 1
  }

  lemma WithPinuseFields(size: int, used: bool, prevUsed: bool)
    requires size % 8 == 0
    ensures WithPinuse(HeadWord(size, used, prevUsed)) == HeadWord(size, used, true)
  {
    HeadFields(size, used, prevUsed);
  }

  lemma WithPinuseSize(w: int)
    ensures ChunkSize(WithPinuse(w)) == ChunkSize(w)
  {
    var q, r := w / 8, w % 8;
    TwoTimes(4 * q, r);
    assert w == 8 * q + r && w == 2 * (4 * q) + r;
    if !PInuse(w) {
      assert r % 2 == 0 && r < 7;
      EightTimes(q, r + 1);
    }
  }

  lemma TwoTimes(k: int, r: int)
    requires 0 <= r < 8
    ensures (2 * k + r) % 2 == r % 2
  {
  }

  lemma EightTimes(q: int, r: int)
    requires 0 <= r < 8
    ensures (8 * q + r) % 8 == r
  {
  }

  lemma HeadersChain(m: Words, m1: Words, m2: Words, cs: seq<Chunk>, except: set<int>)
    requires HeadersKept(m, m1, cs, {}) && HeadersKept(m1, m2, cs, except)
    ensures HeadersKept(m, m2, cs, except)
  {
  }

  lemma PayloadsChain(m: Words, m1: Words, m2: Words, used: set<Chunk>)
    requires PayloadsKept(m, m1, used) && PayloadsKept(m1, m2, used)
    ensures PayloadsKept(m, m2, used)
  {
  }

  /** A head or foot store of some header in the heap reaches no payload. */
  lemma HeadStoreSparesPayloads(m: Words, a: int, w: int, used: set<Chunk>)
    requires forall c :: c in used ==> a + 4 < c.addr + 8 || c.End() + 4 <= a + 4
    ensures PayloadsKept(m, m[a + 4 := w], used)
  {
  }

  lemma HoleFacts(m: Words, h: int, start: int, end: int, max: int, cs: seq<Chunk>, nodes: seq<int>, k: int)
    requires HeapTags(m, h, start, end, max, cs, nodes) && 0 <= k < |cs| && !cs[k].used
    ensures cs[k].addr + 8 in nodes && Shaped(cs[k])
    ensures Load(m, cs[k].addr + 4) == HeadWord(cs[k].size, false, true)
    ensures ChunkSize(Load(m, cs[k].addr + 4)) == cs[k].size
    ensures h != 0 && forall n :: n in nodes ==> n > 8
  {
    FreeNodeOf(cs, k);
    assert cs[k].addr + 8 in Elements(nodes);
    TileFrame(cs, h, start, end, max);
    assert forall n :: n in nodes ==> n in Elements(nodes);
    HeadFields(cs[k].size, false, true);
  }

  lemma StepKept(m: Words, m': Words, h: int, start: int, end: int, max: int, cs: seq<Chunk>, touched: set<int>)
    requires Bounds(h, start, end, max) && Tiles(cs, start, end)
    requires OnlyLinks(m, m', touched) && touched <= FreeNodes(cs) + {h}
    ensures HeadersKept(m, m', cs, {}) && PayloadsKept(m, m', UsedChunks(cs))
  {
    hide Tiles, Bounds, FreeNodes, UsedChunks;
    TileFrame(cs, h, start, end, max);
    WidenLinks(m, m', touched, FreeNodes(cs) + {h});
    LinksSpareAll(m, m', h, FreeNodes(cs), cs);
    LinksSparePayloads(m, m', FreeNodes(cs) + {h}, UsedChunks(cs));
  }

  /** The words of a chunk behind its header and list links are as before. */
  ghost predicate InsideKept(m: Words, m': Words, c: Chunk)
  {
    forall x :: c.addr + 16 <= x < c.End() ==> Load(m', x) == Load(m, x)
  }

  /** No link word of these nodes lies in the inner part of the chunk. */
  ghost predicate NodesAway(ns: set<int>, c: Chunk)
  {
    forall n :: n in ns ==> n + 8 <= c.addr + 16 || c.End() <= n
  }

  lemma LinksSpareInside(m: Words, m': Words, ns: set<int>, c: Chunk)
    requires OnlyLinks(m, m', ns) && NodesAway(ns, c)
    ensures InsideKept(m, m', c)
  {
    forall x | c.addr + 16 <= x < c.End() ensures Load(m', x) == Load(m, x) {
      assert x !in ns && x - 4 !in ns;
    }
  }

  lemma HeadSparesInside(m: Words, a: int, w: int, c: Chunk)
    requires a < c.addr + 16 || c.End() <= a
    ensures InsideKept(m, m[a := w], c)
  {
  }

  lemma InsideChain(m: Words, m1: Words, m2: Words, c: Chunk, d: Chunk)
    requires InsideKept(m, m1, c) && InsideKept(m1, m2, d) && c.addr == d.addr && d.End() <= c.End()
    ensures InsideKept(m, m2, d)
  {
  }

  lemma InsideFilled(m: Words, frames: Words, end: int, m': Words, c: Chunk)
    ensures InsideKept(m, m', c) <==> InsideKept(Filled(m, frames, end, end), m', c)
  {
    hide Filled;
    FilledLoad(m, frames, end, end);
  }

  lemma InsideHeap(cs: seq<Chunk>, start: int, end: int, i: int)
    requires Tiles(cs, start, end) && 0 <= i < |cs|
    ensures cs[i].End() + 4 <= end <==> i < |cs| - 1
  {
    TileAt(cs, start, end, i);
    assert start < end;
    PayloadsInsideWhen(cs, start, end);
  }

  lemma InsideSame(m: Words, c: Chunk)
    ensures InsideKept(m, m, c)
  {
  }

  /** Every list node stays out of the inner part of every chunk, also of one shortened at its end. */
  lemma TilesAway(cs: seq<Chunk>, h: int, start: int, end: int, max: int, i: int, c: Chunk)
    requires Bounds(h, start, end, max) && Tiles(cs, start, end) && 0 <= i < |cs|
    requires c.addr == cs[i].addr && c.End() <= cs[i].End()
    ensures NodesAway(FreeNodes(cs) + {h}, c)
  {
    TileAt(cs, start, end, i);
    forall n | n in FreeNodes(cs) ensures n + 8 <= c.addr + 16 || c.End() <= n {
      var j :| 0 <= j < |cs| && !cs[j].used && cs[j].addr + 8 == n;
      TileAt(cs, start, end, j);
      if j < i { assert cs[j].End() <= cs[i].addr; }
      if i < j { assert cs[i].End() <= cs[j].addr; }
    }
  }

  /** Taking a hole writes nothing in the inner part of the block. */
  lemma TakenInside(m0: Words, m1: Words, m2: Words, m3: Words, h: int, start: int, end: int, max: int, cs: seq<Chunk>,
                    k: int, nb: int, cut: bool)
    requires Bounds(h, start, end, max) && Tiles(cs, start, end) && 0 <= k < |cs| && cs[k].size >= nb >= MIN_CHUNK
    requires cut == Cut(cs, k, nb) && OnlyLinks(m0, m1, {h} + FreeNodes(cs) - {cs[k].addr + 8})
    requires if cut then
               && m2 == m1[cs[k].addr + nb + 4 := cs[k].size - nb]
               && OnlyLinks(m2, m3, {h, cs[k].addr + nb + 8} + (FreeNodes(cs) - {cs[k].addr + 8}))
             else m3 == m1
    ensures InsideKept(m0, InUse(m3, cs[k].addr, Front(cs[k], nb).size), Front(cs[k], nb))
  {
    hide Tiles, Bounds, FreeNodes, InUse, InsideKept, OnlyLinks;
    var c, a := Front(cs[k], nb), cs[k].addr;
    TilesAway(cs, h, start, end, max, k, c);
    LinksSpareInside(m0, m1, {h} + FreeNodes(cs) - {a + 8}, c);
    InsideSame(m3, c);
    if cut {
      HeadSparesInside(m1, a + nb + 4, cs[k].size - nb, c);
      LinksSpareInside(m2, m3, {h, a + nb + 8} + (FreeNodes(cs) - {a + 8}), c);
      InsideChain(m0, m1, m2, c, c);
      InsideChain(m0, m2, m3, c, c);
    }
    InUseInside(m3, c);
    InsideChain(m0, m3, InUse(m3, a, c.size), c, c);
  }

  lemma InUseInside(m: Words, c: Chunk)
    ensures InsideKept(m, InUse(m, c.addr, c.size), c)
  {
  }

  /** An address well inside a free chunk k: no header, no other node and no payload comes near it. */
  lemma InsideHole(cs: seq<Chunk>, h: int, start: int, end: int, max: int, k: int, a: int)
    requires Bounds(h, start, end, max) && Tiles(cs, start, end) && 0 <= k < |cs| && !cs[k].used
    requires cs[k].addr + MIN_CHUNK <= a <= cs[k].End() - MIN_CHUNK
    ensures Apart(h, a + 8) && forall n :: n in FreeNodes(cs) ==> Apart(n, a + 8)
    ensures forall i :: 0 <= i < |cs| ==> Apart(cs[i].addr + 8, a + 8)
    ensures forall c :: c in UsedChunks(cs) ==> c.End() + 8 <= a + 8 || a + 16 <= c.addr
  {
  }

  lemma RemainderStored(m: Words, h: int, start: int, end: int, max: int, cs: seq<Chunk>, nodes: seq<int>,
                        k: int, nb: int, w: int)
    requires Bounds(h, start, end, max) && Tiles(cs, start, end) && ListOk(m, h, nodes)
    requires 0 <= k < |cs| && !cs[k].used && nb >= MIN_CHUNK && Cut(cs, k, nb)
    requires Elements(nodes) == FreeNodes(cs) - {cs[k].addr + 8}
    ensures var a, m' := cs[k].addr + nb, m[cs[k].addr + nb + 4 := w];
            && ListOk(m', h, nodes) && HeadersKept(m, m', cs, {}) && PayloadsKept(m, m', UsedChunks(cs))
            && Apart(h, a + 8) && forall n :: n in nodes ==> n != 0 && Apart(n, a + 8)
  {
    var a := cs[k].addr + nb;
    TileFrame(cs, h, start, end, max);
    InsideHole(cs, h, start, end, max, k, a);
    hide Tiles, Bounds, UsedChunks;
    assert forall n :: n in nodes ==> n in Elements(nodes);
    HeadStoreSparesList(m, h, nodes, a, w);
    HeadStoreSparesPayloads(m, a, w, UsedChunks(cs));
  }

  lemma RemainderListed(m: Words, m': Words, h: int, start: int, end: int, max: int, cs: seq<Chunk>, k: int, nb: int)
    requires Bounds(h, start, end, max) && Tiles(cs, start, end)
    requires 0 <= k < |cs| && !cs[k].used && nb >= MIN_CHUNK && Cut(cs, k, nb)
    requires OnlyLinks(m, m', {h, cs[k].addr + nb + 8} + (FreeNodes(cs) - {cs[k].addr + 8}))
    ensures HeadersKept(m, m', cs, {}) && PayloadsKept(m, m', UsedChunks(cs))
    ensures Load(m', cs[k].addr + nb + 4) == Load(m, cs[k].addr + nb + 4)
  {
    hide Tiles, Bounds, FreeNodes, UsedChunks;
    var a := cs[k].addr + nb;
    var ns := FreeNodes(cs) + {a + 8};
    InsideHole(cs, h, start, end, max, k, a);
    TileFrame(cs, h, start, end, max);
    WidenLinks(m, m', {h, a + 8} + (FreeNodes(cs) - {cs[k].addr + 8}), ns + {h});
    forall i | 0 <= i < |cs| ensures Clear(cs[i].addr, h, ns) {
      assert Clear(cs[i].addr, h, FreeNodes(cs));
    }
    LinksSpareAll(m, m', h, ns, cs);
    LinksSpareHeader(m, m', h, ns, a);
    assert NodesOutside(UsedChunks(cs), ns + {h});
    LinksSparePayloads(m, m', ns + {h}, UsedChunks(cs));
  }

  /** set_inuse on the hole completes the invariant. */
  lemma HoleTaken(m: Words, m3: Words, h: int, start: int, end: int, max: int, cs: seq<Chunk>, nodes: seq<int>,
                  k: int, nb: int)
    requires Bounds(h, start, end, max) && Tiles(cs, start, end) && Heads(m, cs)
    requires 0 <= k < |cs| && !cs[k].used && cs[k].size >= nb >= MIN_CHUNK && nb % 8 == 0
    requires k < |cs| - 1 || Cut(cs, k, nb)
    requires HeadersKept(m, m3, cs, {}) && PayloadsKept(m, m3, UsedChunks(cs))
    requires ListOk(m3, h, nodes) && Elements(nodes) == FreeNodes(Allocated(cs, k, nb))
    requires Cut(cs, k, nb) ==> Load(m3, cs[k].addr + nb + 4) == cs[k].size - nb
    ensures var p := Front(cs[k], nb); var m' := InUse(m3, cs[k].addr, p.size);
            && HeapTags(m', h, start, end, max, Allocated(cs, k, nb), nodes)
            && HeadersKept(m, m', cs, {cs[k].addr, p.End()})
            && PayloadsKept(m, m', UsedChunks(cs))
            && PInuse(Load(m', cs[k].addr + 4)) && (Clean(m, cs) ==> Clean(m', Allocated(cs, k, nb)))
  {
    hide Tiles, NoAdjacentFree, Heads, ListOk, FreeNodes, UsedChunks, FreeBytes, PayloadsKept, HeadersKept, InUse;
    hide Bounds, Clean;
    var p := Front(cs[k], nb);
    var a, m' := cs[k].addr, InUse(m3, cs[k].addr, p.size);
    AllocatedShape(cs, start, end, k, nb);
    InUseWords(m3, a, p.size);
    InUseKeepsList(m3, h, start, end, max, cs, nodes, k, nb);
    InUseSparesPayloads(m3, start, end, cs, k, nb);
    PayloadsChain(m, m3, m', UsedChunks(cs));
    InUseHeaders(m, m3, start, end, cs, k, nb);
    TakenHeads(m, m', cs, start, end, k, nb);
    TileAt(Allocated(cs, k, nb), start, end, k);
    HeadFields(p.size, true, true);
    if Clean(m, cs) { TakenClean(m, m', cs, start, end, k, nb); }
  }

  lemma InUseWords(m: Words, a: int, size: int)
    requires size > 0
    ensures var m' := InUse(m, a, size);
            && Load(m', a + 4) == Load(m, a + 4) % 2 + 2 + size
            && Load(m', a + size + 4) == WithPinuse(Load(m, a + size + 4))
            && forall x :: x != a + 4 && x != a + size + 4 ==> Load(m', x) == Load(m, x)
  {
  }

  lemma InUseHeaders(m: Words, m3: Words, start: int, end: int, cs: seq<Chunk>, k: int, nb: int)
    requires Tiles(cs, start, end) && Heads(m, cs) && HeadersKept(m, m3, cs, {})
    requires 0 <= k < |cs| && !cs[k].used && cs[k].size >= nb >= MIN_CHUNK && nb % 8 == 0
    requires Cut(cs, k, nb) ==> Load(m3, cs[k].addr + nb + 4) == cs[k].size - nb
    ensures var p := Pieces(cs[k], nb); var m' := InUse(m3, cs[k].addr, p[0].size);
            && HeadersKept(m, m', cs, {cs[k].addr, p[0].End()})
            && Load(m', cs[k].addr + 4) == HeadWord(p[0].size, true, true)
            && (Cut(cs, k, nb) ==> Load(m', p[1].addr + 4) == HeadWord(p[1].size, false, true))
            && (!Cut(cs, k, nb) && k + 1 < |cs| ==>
                Load(m', cs[k + 1].addr + 4) == HeadWord(cs[k + 1].size, cs[k + 1].used, true))
  {
    hide Tiles, InUse, Heads, HeadOk, WithPinuse;
    var p := Pieces(cs[k], nb);
    var a := cs[k].addr;
    InUseWords(m3, a, p[0].size);
    TileAt(cs, start, end, k);
    HeadAt(m, cs, k);
    HeadFields(cs[k].size, false, true);
    if Cut(cs, k, nb) {
      Multiples(cs[k].size, nb);
      WithPinuseFields(cs[k].size - nb, false, false);
    } else if k + 1 < |cs| {
      TileAt(cs, start, end, k + 1);
      HeadAt(m, cs, k + 1);
      WithPinuseFields(cs[k + 1].size, cs[k + 1].used, PInuse(Load(m, cs[k + 1].addr + 4)));
    }
    forall i | 0 <= i < |cs| ensures cs[i].addr != a + 4 && cs[i].addr != p[0].End() + 4 {
      TileAt(cs, start, end, i);
      OffByFour(cs[i].addr, a);
      Multiples(a, p[0].size);
      OffByFour(cs[i].addr, p[0].End());
    }
  }

  lemma OffByFour(x: int, y: int)
    requires x % 8 == 0 && y % 8 == 0
    ensures x != y + 4
  {
  }

  lemma HeadAt(m: Words, cs: seq<Chunk>, k: int)
    requires Heads(m, cs) && 0 <= k < |cs|
    ensures var w := Load(m, cs[k].addr + 4);
            && HeadOk(w, cs[k], PrevUsed(cs, k)) && w == HeadWord(cs[k].size, cs[k].used, PInuse(w))
            && (PrevUsed(cs, k) || !cs[k].used ==> w == HeadWord(cs[k].size, cs[k].used, true))
  {
  }

  lemma HeadMade(c: Chunk, bit: bool, prevUsed: bool)
    requires c.size % 8 == 0 && (prevUsed || !c.used ==> bit)
    ensures var w := HeadWord(c.size, c.used, bit); HeadOk(w, c, prevUsed) && PInuse(w) == bit
  {
    HeadFields(c.size, c.used, bit);
  }

  lemma InUseSparesPayloads(m: Words, start: int, end: int, cs: seq<Chunk>, k: int, nb: int)
    requires Tiles(cs, start, end) && 0 <= k < |cs| && !cs[k].used && cs[k].size >= nb >= MIN_CHUNK && nb % 8 == 0
    ensures PayloadsKept(m, InUse(m, cs[k].addr, Front(cs[k], nb).size), UsedChunks(cs))
  {
  }

  lemma InUseKeepsList(m: Words, h: int, start: int, end: int, max: int, cs: seq<Chunk>, nodes: seq<int>, k: int,
                       nb: int)
    requires Bounds(h, start, end, max) && Tiles(cs, start, end)
    requires 0 <= k < |cs| && !cs[k].used && cs[k].size >= nb >= MIN_CHUNK && nb % 8 == 0
    requires k < |cs| - 1 || Cut(cs, k, nb)
    requires ListOk(m, h, nodes) && Elements(nodes) == FreeNodes(Allocated(cs, k, nb))
    ensures ListOk(InUse(m, cs[k].addr, Front(cs[k], nb).size), h, nodes)
  {
    hide Tiles, NoAdjacentFree, ListOk, Bounds, FreeNodes, UsedChunks, FreeBytes, WithPinuse;
    var s, p := Allocated(cs, k, nb), Front(cs[k], nb);
    AllocatedShape(cs, start, end, k, nb);
    assert s[k] == p && k + 1 < |s|;
    TileAt(s, start, end, k);
    TileClear(s, h, start, end, max, k, p.addr);
    TileClear(s, h, start, end, max, k + 1, p.End());
    var w := Load(m, p.addr + 4) % 2 + 2 + p.size;
    assert p.addr + 8 !in Elements(nodes);
    HeadStoreSparesList(m, h, nodes, p.addr, w);
    var m1 := m[p.addr + 4 := w];
    WithPinuseSize(Load(m1, p.End() + 4));
    HeadStoreSparesList(m1, h, nodes, p.End(), WithPinuse(Load(m1, p.End() + 4)));
  }

  /** Words written while chunk k is taken: only heads of k, of its remainder and of its neighbour. */
  ghost predicate Taken(m: Words, m': Words, cs: seq<Chunk>, k: int, nb: int)
    requires 0 <= k < |cs|
  {
    var p := Pieces(cs[k], nb);
    && HeadersKept(m, m', cs, {cs[k].addr, p[0].End()})
    && Load(m', cs[k].addr + 4) == HeadWord(p[0].size, true, true)
    && (Cut(cs, k, nb) ==> Load(m', p[1].addr + 4) == HeadWord(p[1].size, false, true))
    && (!Cut(cs, k, nb) && k + 1 < |cs| ==>
          Load(m', cs[k + 1].addr + 4) == HeadWord(cs[k + 1].size, cs[k + 1].used, true))
  }

  lemma TakenOthers(m: Words, m': Words, cs: seq<Chunk>, start: int, end: int, k: int, nb: int, i: int)
    requires Tiles(cs, start, end) && 0 <= k < |cs| && cs[k].size >= nb >= MIN_CHUNK && Taken(m, m', cs, k, nb)
    requires 0 <= i < |cs| && i != k && (Cut(cs, k, nb) || i != k + 1)
    ensures Load(m', cs[i].addr + 4) == Load(m, cs[i].addr + 4)
  {
    hide Tiles;
    OtherHeader(cs, start, end, k, nb, i);
  }

  lemma TakenHeads(m: Words, m': Words, cs: seq<Chunk>, start: int, end: int, k: int, nb: int)
    requires Tiles(cs, start, end) && Heads(m, cs)
    requires 0 <= k < |cs| && !cs[k].used && cs[k].size >= nb >= MIN_CHUNK && nb % 8 == 0 && Taken(m, m', cs, k, nb)
    ensures Heads(m', Allocated(cs, k, nb))
  {
    hide HeadWord, HeadOk, Heads, Tiles;
    var p, s := Pieces(cs[k], nb), Allocated(cs, k, nb);
    TileAt(cs, start, end, k);
    Multiples(cs[k].size, nb);
    forall i | 0 <= i < |cs| && i != k && (Cut(cs, k, nb) || i != k + 1)
      ensures Load(m', cs[i].addr + 4) == Load(m, cs[i].addr + 4)
    {
      TakenOthers(m, m', cs, start, end, k, nb, i);
    }
    forall i | k <= i < |s| && i <= k + |p| ensures HeadOk(Load(m', s[i].addr + 4), s[i], PrevUsed(s, i)) {
      if i == k {
        assert s[k] == p[0];
        HeadMade(p[0], true, PrevUsed(s, k));
      } else if i == k + |p| {
        assert s[i] == cs[k + 1] && s[i - 1] == p[|p| - 1];
        TileAt(cs, start, end, k + 1);
        HeadAt(m, cs, k + 1);
        HeadMade(cs[k + 1], true, true);
      } else {
        assert s[i] == p[1] && s[i - 1] == p[0];
        HeadMade(p[1], true, true);
      }
    }
    SpliceHeads(m, m', cs, k, k + 1, p);
  }

  /** Taking a hole of a clean heap leaves a clean heap. */
  lemma TakenClean(m: Words, m': Words, cs: seq<Chunk>, start: int, end: int, k: int, nb: int)
    requires Tiles(cs, start, end) && Clean(m, cs)
    requires 0 <= k < |cs| && !cs[k].used && cs[k].size >= nb >= MIN_CHUNK && nb % 8 == 0 && Taken(m, m', cs, k, nb)
    ensures Clean(m', Allocated(cs, k, nb))
  {
    hide HeadWord, Tiles, PInuse;
    var p, s := Pieces(cs[k], nb), Allocated(cs, k, nb);
    AllocatedNoAdjacent(cs, k, nb);
    var d := |p| - 1;
    forall i | 0 <= i < |s| ensures !StaleAt(m', s, i) {
      if i < k {
        assert s[i] == cs[i] && !StaleAt(m, cs, i);
        TakenOthers(m, m', cs, start, end, k, nb, i);
      } else if i > k + d {
        assert s[i] == cs[i - d];
        if i > k + d + 1 { assert s[i - 1] == cs[i - d - 1]; }
        if Cut(cs, k, nb) || i > k + d + 1 {
          assert !StaleAt(m, cs, i - d);
          TakenOthers(m, m', cs, start, end, k, nb, i - d);
        }
      } else if i == k {
        assert PrevUsed(s, k) == PrevUsed(cs, k);
      }
    }
  }

  lemma OtherHeader(cs: seq<Chunk>, start: int, end: int, k: int, nb: int, i: int)
    requires Tiles(cs, start, end) && 0 <= k < |cs| && 0 <= i < |cs| && cs[k].size >= nb >= MIN_CHUNK
    requires i != k && (Cut(cs, k, nb) || i != k + 1)
    ensures cs[i].addr != cs[k].addr && cs[i].addr != Front(cs[k], nb).End()
  {
    if i < k { assert cs[i].End() <= cs[k].addr; } else { assert cs[k].End() <= cs[i].addr; }
    if i > k + 1 { assert cs[k + 1].End() <= cs[i].addr; }
  }

  // ---- search ------------------------------------------------------------------------------------

  /** What the list walk reads is the size of the free chunks, one to one. */
  lemma ListedSizes(m: Words, h: int, start: int, end: int, max: int, cs: seq<Chunk>, nodes: seq<int>)
    requires HeapTags(m, h, start, end, max, cs, nodes)
    ensures forall n :: n in nodes ==> n > 8
    ensures forall j :: 0 <= j < |cs| && !cs[j].used ==>
              cs[j].addr + 8 in nodes && SizeOf(m, cs[j].addr + 8) == cs[j].size
    ensures forall n :: n in nodes ==> exists j :: 0 <= j < |cs| && !cs[j].used && cs[j].addr + 8 == n
  {
    TileFrame(cs, h, start, end, max);
    assert forall n :: n in nodes ==> n in Elements(nodes);
    forall j | 0 <= j < |cs| && !cs[j].used
      ensures cs[j].addr + 8 in nodes && SizeOf(m, cs[j].addr + 8) == cs[j].size
    {
      HoleFacts(m, h, start, end, max, cs, nodes, j);
    }
  }

  lemma AllocatedAt(cs: seq<Chunk>, k: int, nb: int)
    requires 0 <= k < |cs|
    ensures k < |Allocated(cs, k, nb)| && Allocated(cs, k, nb)[k] == Front(cs[k], nb)
  {
  }

  lemma AllocatedNeighbours(cs: seq<Chunk>, k: int, nb: int)
    requires 0 <= k < |cs|
    ensures k < |Allocated(cs, k, nb)| && PrevUsed(Allocated(cs, k, nb), k) == PrevUsed(cs, k)
    ensures k < |cs| - 1 || Cut(cs, k, nb) ==> k < |Allocated(cs, k, nb)| - 1
  {
  }

  lemma HoleBehindUsed(cs: seq<Chunk>, k: int)
    requires NoAdjacentFree(cs) && 0 <= k < |cs| && !cs[k].used
    ensures PrevUsed(cs, k)
  {
  }

  lemma NodesPositive(m: Words, h: int, start: int, end: int, max: int, cs: seq<Chunk>, nodes: seq<int>)
    requires HeapTags(m, h, start, end, max, cs, nodes)
    ensures cs != [] && forall n :: n in nodes ==> n > 8
  {
    TileFrame(cs, h, start, end, max);
    assert forall n :: n in nodes ==> n in Elements(nodes);
  }

  /** The list search decides whether some free chunk fits, and picks a best one. */
  lemma FoundFits(m: Words, h: int, start: int, end: int, max: int, cs: seq<Chunk>, nodes: seq<int>, nb: int, hole: int)
    returns (k: int)
    requires HeapTags(m, h, start, end, max, cs, nodes)
    requires hole == 0 <==> forall n :: n in nodes ==> SizeOf(m, n) < nb
    requires hole != 0 ==> hole + 8 in nodes && SizeOf(m, hole + 8) >= nb
    requires hole != 0 ==> forall n :: n in nodes && SizeOf(m, n) >= nb ==> SizeOf(m, hole + 8) <= SizeOf(m, n)
    ensures hole == 0 <==> !Fits(cs, nb)
    ensures hole != 0 ==>
              && BestFit(cs, k, nb) && cs[k].addr == hole && ChunkSize(Load(m, hole + 4)) == cs[k].size
              && (cs[k].End() == end <==> k == |cs| - 1)
  {
    hide Tiles, NoAdjacentFree, Heads, ListOk, FreeNodes, Bounds;
    ListedSizes(m, h, start, end, max, cs, nodes);
    k := 0;
    if hole != 0 {
      k :| 0 <= k < |cs| && !cs[k].used && cs[k].addr + 8 == hole + 8;
      LastEndsHeap(cs, start, end, k);
    }
  }

  lemma LastEndsHeap(cs: seq<Chunk>, start: int, end: int, k: int)
    requires Tiles(cs, start, end) && 0 <= k < |cs|
    ensures cs[k].End() == end <==> k == |cs| - 1
  {
  }

  /** Rounding up to whole pages, without any wrap. */
  function RoundUp(x: int): int { (x + PAGE - 1) / PAGE * PAGE }

  /**
   The two assertions of expand_unlocked, on 32-bit words, pass exactly when the true new end is within the limit,
   if and only if the new end does not wrap past the limit check or the size itself wraps.
   */
  lemma GrowthCheckExact(h: int, start: int, end: int, max: int, nb: int)
    requires Bounds(h, start, end, max) && MIN_CHUNK <= nb < W32
    ensures var ns := (end - start + nb) % W32;
            ((ns > end - start && (start + AlignUp(ns, PAGE)) % W32 <= max) <==>
                start + RoundUp(end - start + nb) <= max)
            <==> end + nb <= W32 - PAGE || end - start + nb >= W32
  {
    hide AlignUp;
    var x := end - start + nb;
    if x >= W32 {
      SizeWraps(start, end, max, nb);
    } else {
      AlignPage(x);
      if end + nb <= W32 - PAGE { EndFits(start, end, nb); } else { EndWraps(start, end, max, nb); }
    }
  }

  lemma SizeWraps(start: int, end: int, max: int, nb: int)
    requires 0 < start < end <= max < W32 - PAGE && nb < W32 <= end - start + nb
    ensures (end - start + nb) % W32 < end - start && start + RoundUp(end - start + nb) > max
  {
    assert (end - start + nb) % W32 == end - start + nb - W32;
  }

  lemma EndFits(start: int, end: int, nb: int)
    requires 0 < start < end && start % PAGE == 0 && 0 < nb && end + nb <= W32 - PAGE
    ensures var x := end - start + nb;
            x % W32 == x && (x + 4095) % W32 / 4096 * 4096 == RoundUp(x)
              && (start + RoundUp(x)) % W32 == start + RoundUp(x)
  {
  }

  /** The new end lies in the last page or beyond: the rounded sum, or the end, wraps to something below start. */
  lemma EndWraps(start: int, end: int, max: int, nb: int)
    requires 0 < start < end <= max < W32 - PAGE && start % PAGE == 0 && end % PAGE == 0 && 0 < nb
    requires end - start + nb < W32 && end + nb > W32 - PAGE
    ensures var x := end - start + nb;
            && x % W32 == x > end - start && start + RoundUp(x) >= W32
            && (start + (x + 4095) % W32 / 4096 * 4096) % W32 <= max
  {
    var x := end - start + nb;
    if x + 4095 >= W32 { SumWraps(x); } else { EndPasses(start, x); }
  }

  lemma SumWraps(x: int)
    requires x < W32 <= x + 4095
    ensures (x + 4095) % W32 / 4096 * 4096 == 0 && RoundUp(x) >= W32
  {
  }

  lemma EndPasses(start: int, x: int)
    requires 0 < start < W32 && start % PAGE == 0 && 0 < x && x + 4095 < W32 && start + x > W32 - PAGE
    ensures start + RoundUp(x) >= W32
            && (start + (x + 4095) % W32 / 4096 * 4096) % W32 == start + RoundUp(x) - W32 < start
  {
    var k, q := (x + 4095) / 4096, start / 4096;
    assert RoundUp(x) == 4096 * k && start == 4096 * q;
  }

  lemma GrowthStays(h: int, start: int, end: int, max: int, nb: int)
    requires Bounds(h, start, end, max) && MIN_CHUNK <= nb && start + RoundUp(end - start + nb) <= max
    ensures end + nb <= W32 - PAGE
  {
  }

  /** A request that wraps: the checks pass and the heap would end at address zero. */
  lemma GrowthWrapExample()
    ensures var start, end, max, nb := 0x0100_0000, 0x0110_0000, 0x0800_0000, 0xFEF0_0000;
            && Bounds(0x1000, start, end, max)
            && (end - start + nb) % W32 > end - start
            && (start + AlignUp((end - start + nb) % W32, PAGE)) % W32 == 0 <= max < start + RoundUp(end - start + nb)
  {
    hide AlignUp;
    AlignPage(0xFF00_0000);
  }

  /** With no 32-bit wrap, growing by `nb` really adds at least `nb` bytes, in whole pages. */
  lemma GrowthSums(start: int, end: int, nb: int)
    requires 0 < start < end && start % PAGE == 0 && end % PAGE == 0 && MIN_CHUNK <= nb && end + nb <= W32 - PAGE
    ensures (end - start + nb) % W32 == end - start + nb && AlignUp(end - start + nb, PAGE) == RoundUp(end - start + nb)
    ensures var e := start + AlignUp(end - start + nb, PAGE);
            e % W32 == e && e % PAGE == 0 && end + nb <= e && end + PAGE <= e
  {
    hide AlignUp, RoundUp;
    var x := end - start + nb;
    AlignPage(x);
    EndFits(start, end, nb);
    AlignUpPage(x);
    PageMultiples(AlignUp(x, PAGE), start);
    GapOfPage(start + AlignUp(x, PAGE), end);
  }

  /** Growth moves no foot, so consistent feet stay consistent. */
  lemma GrownFeet(m: Words, m': Words, cs: seq<Chunk>, end: int, end': int)
    requires cs != [] && forall i :: 0 <= i < |cs| ==> Load(m', cs[i].addr) == Load(m, cs[i].addr)
    ensures Feet(m, cs) ==> Feet(m', Grown(cs, end, end'))
  {
  }

  // ---- release -----------------------------------------------------------------------------------

  /** prevFoot of chunk i holds the size of the chunk before it, if that one is free. */
  ghost predicate FootOf(m: Words, cs: seq<Chunk>, i: int)
    requires 0 <= i < |cs|
  {
    i > 0 && !cs[i - 1].used ==> Load(m, cs[i].addr) == cs[i - 1].size
  }

  /** free joins chunk i with the one in front exactly when PINUSE of chunk i is clear. */
  ghost predicate Backwards(m: Words, cs: seq<Chunk>, i: int)
    requires 0 <= i < |cs|
  {
    !PInuse(Load(m, cs[i].addr + 4))
  }

  lemma BackJoins(m: Words, cs: seq<Chunk>, i: int)
    requires Heads(m, cs) && 0 <= i < |cs| && cs[i].used
    ensures Joinable(cs, i, Backwards(m, cs, i))
  {
  }

  lemma SliceFreeNodes(cs: seq<Chunk>, lo: int, hi: int)
    requires 0 <= lo <= hi <= |cs| && hi <= lo + 1
    ensures FreeNodes(cs[lo..hi]) == if lo < hi && !cs[lo].used then {cs[lo].addr + 8} else {}
  {
  }

  /** What free reads from the header of the block it is given. */
  lemma UsedFacts(m: Words, h: int, start: int, end: int, max: int, cs: seq<Chunk>, nodes: seq<int>, i: int)
    requires HeapTags(m, h, start, end, max, cs, nodes) && 0 <= i < |cs| && cs[i].used
    ensures ChunkSize(Load(m, cs[i].addr + 4)) == cs[i].size
    ensures CInuse(Load(m, cs[i].addr + 4)) && (PrevUsed(cs, i) ==> PInuse(Load(m, cs[i].addr + 4)))
    ensures start < cs[i].addr + 8 < end && 0 < start
    ensures i > 0 && !cs[i - 1].used ==>
              cs[i - 1].addr == cs[i].addr - cs[i - 1].size && start <= cs[i - 1].addr < end
                && cs[i - 1].addr + 8 in nodes
  {
    hide Tiles, Heads, HeadOk, ListOk, FreeNodes, HeadWord, ChunkSize, CInuse, PInuse;
    HeadAt(m, cs, i);
    TileAt(cs, start, end, i);
    HeadFields(cs[i].size, true, PInuse(Load(m, cs[i].addr + 4)));
    if i > 0 && !cs[i - 1].used {
      HoleFacts(m, h, start, end, max, cs, nodes, i - 1);
      TileAt(cs, start, end, i - 1);
    }
  }

  lemma StepsKept(m: Words, m': Words, h: int, start: int, end: int, max: int, cs: seq<Chunk>, touched: set<int>)
    requires Bounds(h, start, end, max) && Tiles(cs, start, end)
    requires m' == m || OnlyLinks(m, m', touched)
    requires touched <= FreeNodes(cs) + {h}
    ensures HeadersKept(m, m', cs, {}) && PayloadsKept(m, m', UsedChunks(cs))
  {
    if m' != m { StepKept(m, m', h, start, end, max, cs, touched); }
  }

  /** What free reads from the header behind the block. */
  lemma NextFacts(m: Words, h: int, start: int, end: int, max: int, cs: seq<Chunk>, nodes: seq<int>, i: int, back: bool)
    requires Bounds(h, start, end, max) && Tiles(cs, start, end) && Heads(m, cs) && Joinable(cs, i, back)
    requires Elements(nodes) == FreeNodes(cs) - FreeNodes(cs[Lo(i, back)..i])
    ensures start <= cs[i].End() < end <==> i + 1 < |cs|
    ensures i + 1 < |cs| ==>
              var w := Load(m, cs[i + 1].addr + 4);
              && cs[i + 1].addr == cs[i].End() && w == HeadWord(cs[i + 1].size, cs[i + 1].used, true)
              && PInuse(w) && (CInuse(w) <==> cs[i + 1].used) && ChunkSize(w) == cs[i + 1].size
              && cs[i + 1].End() <= end && (!cs[i + 1].used ==> cs[i + 1].addr + 8 in nodes)
    ensures i + 1 == |cs| ==> Hi(cs, i) == |cs| && cs[i].End() == end
    ensures FreeNodes(cs[Lo(i, back)..Hi(cs, i)]) ==
            FreeNodes(cs[Lo(i, back)..i]) + if i + 1 < |cs| && !cs[i + 1].used then {cs[i + 1].addr + 8} else {}
  {
    hide Heads, HeadOk, Tiles, FreeNodes, ChunkSize, PInuse, CInuse, HeadWord;
    TileAt(cs, start, end, i);
    LastEndsHeap(cs, start, end, i);
    PartNodes(cs, i, back);
    SliceFreeNodes(cs, Lo(i, back), i);
    if i + 1 < |cs| {
      TileAt(cs, start, end, i + 1);
      HeadAt(m, cs, i + 1);
      HeadFields(cs[i + 1].size, cs[i + 1].used, true);
      DistinctAddr(cs, start, end, Lo(i, back), i + 1);
      if !cs[i + 1].used {
        FreeNodeOf(cs, i + 1);
        assert cs[i + 1].addr + 8 in Elements(nodes);
      }
    }
  }

  lemma PartNodes(cs: seq<Chunk>, i: int, back: bool)
    requires Joinable(cs, i, back)
    ensures FreeNodes(cs[Lo(i, back)..Hi(cs, i)]) ==
            FreeNodes(cs[Lo(i, back)..i]) + if i + 1 < |cs| && !cs[i + 1].used then {cs[i + 1].addr + 8} else {}
  {
  }

  lemma NextTold(m: Words, h: int, start: int, end: int, max: int, cs: seq<Chunk>, nodes: seq<int>, i: int)
    requires Bounds(h, start, end, max) && Tiles(cs, start, end) && ListOk(m, h, nodes)
    requires 0 <= i < |cs| - 1 && cs[i].used && cs[i + 1].used
    requires Load(m, cs[i + 1].addr + 4) == HeadWord(cs[i + 1].size, true, true)
    requires Elements(nodes) <= FreeNodes(cs)
    ensures var m' := m[cs[i + 1].addr + 4 := Load(m, cs[i + 1].addr + 4) - 1];
            && ListOk(m', h, nodes) && HeadersKept(m, m', cs, {cs[i + 1].addr})
            && PayloadsKept(m, m', UsedChunks(cs))
            && Load(m', cs[i + 1].addr + 4) == HeadWord(cs[i + 1].size, true, false)
  {
    hide Tiles, Bounds, ListOk, FreeNodes, UsedChunks, PayloadsKept;
    var a, w := cs[i + 1].addr, Load(m, cs[i + 1].addr + 4) - 1;
    TileClear(cs, h, start, end, max, i + 1, a);
    ClearSubset(a, h, FreeNodes(cs), Elements(nodes));
    assert a + 8 !in Elements(nodes);
    HeadStoreSparesList(m, h, nodes, a, w);
    HeadStoreKept(m, start, end, cs, i + 1, w);
  }

  lemma HeadStoreKept(m: Words, start: int, end: int, cs: seq<Chunk>, j: int, w: int)
    requires Tiles(cs, start, end) && 0 <= j < |cs|
    ensures HeadersKept(m, m[cs[j].addr + 4 := w], cs, {cs[j].addr})
    ensures PayloadsKept(m, m[cs[j].addr + 4 := w], UsedChunks(cs))
  {
  }

  lemma PayloadsSame(m: Words, used: set<Chunk>)
    ensures PayloadsKept(m, m, used)
  {
  }

  lemma FewerPayloads(m: Words, m': Words, used: set<Chunk>, used': set<Chunk>)
    requires PayloadsKept(m, m', used) && used' <= used
    ensures PayloadsKept(m, m', used')
  {
  }

  lemma HeadsKept(m: Words, m': Words, cs: seq<Chunk>)
    requires Heads(m, cs) && HeadersKept(m, m', cs, {})
    ensures Heads(m', cs)
  {
  }

  /** contract_unlocked would be asked for at least the size the heap already has. */
  ghost predicate OverContracts(cs: seq<Chunk>, start: int, end: int, i: int, back: bool)
    requires 0 <= i < |cs| && (back ==> i > 0)
  {
    Merged(cs, i, back).End() == end && Wanted(start, Merged(cs, i, back).addr) >= end - start
  }

  /** That happens for one shape only: the merged block is the smallest chunk at the very end. */
  lemma OverContractsWhen(cs: seq<Chunk>, start: int, end: int, i: int, back: bool)
    requires Tiles(cs, start, end) && Joinable(cs, i, back) && start % PAGE == 0 && end % PAGE == 0
    ensures OverContracts(cs, start, end, i, back) <==> i == |cs| - 1 && cs[i].size == MIN_CHUNK && !back
  {
    hide Tiles;
    var lo, hi, b := Lo(i, back), Hi(cs, i), Merged(cs, i, back);
    TopMerged(cs, start, end, i, back);
    TileAt(cs, start, end, i);
    if lo < i { TileAt(cs, start, end, lo); }
    if i + 1 < |cs| { TileAt(cs, start, end, i + 1); }
    MergedTile(cs, start, end, i, back);
    WantedBounds(start, b.addr);
    if hi == |cs| && b.size == MIN_CHUNK { LastSixteen(start, end); }
  }

  /** A heap whose last 16 bytes are a block of their own behind a block in use. */
  lemma OverContractsExample()
    ensures var cs := [Chunk(0x0100_0000, 0x10_0FF0, true), Chunk(0x0110_0FF0, 16, true)];
            Tiles(cs, 0x0100_0000, 0x0110_1000) && OverContracts(cs, 0x0100_0000, 0x0110_1000, 1, false)
  {
  }

  lemma LastSixteen(start: int, end: int)
    requires start % PAGE == 0 && end % PAGE == 0
    ensures (end - MIN_CHUNK - start) % PAGE != 0
  {
  }

  /**
   The header behind the merged block afterwards: a chunk in use loses PINUSE, another one was already behind a free
   one.
   */
  ghost function HeadBehind(w: int, cs: seq<Chunk>, i: int): int
    requires 0 <= i < |cs|
  {
    if Hi(cs, i) == i + 1 < |cs| then HeadWord(cs[i + 1].size, true, false) else w
  }

  /** The header behind the merged block has been told, and no other has changed. */
  ghost predicate Told(m: Words, m': Words, cs: seq<Chunk>, i: int, end: int)
    requires 0 <= i < |cs|
  {
    var hi := Hi(cs, i);
    && HeadersKept(m, m', cs, {Edge(cs, hi, end)})
    && (hi < |cs| ==> Load(m', cs[hi].addr + 4) == HeadBehind(Load(m, cs[hi].addr + 4), cs, i))
  }

  /** State of the headers once both neighbours have been dealt with. */
  ghost predicate Joined(m0: Words, m: Words, cs: seq<Chunk>, i: int, end: int)
    requires 0 <= i < |cs|
  {
    Heads(m0, cs) && Told(m0, m, cs, i, end)
  }

  lemma ToldUsed(m: Words, m': Words, cs: seq<Chunk>, i: int, end: int)
    requires 0 <= i < |cs| - 1 && cs[i + 1].used && HeadersKept(m, m', cs, {cs[i + 1].addr})
    requires Load(m', cs[i + 1].addr + 4) == HeadWord(cs[i + 1].size, true, false)
    ensures Told(m, m', cs, i, end)
  {
  }

  lemma ToldFree(m: Words, m': Words, cs: seq<Chunk>, i: int, end: int)
    requires 0 <= i < |cs| - 1 && !cs[i + 1].used && HeadersKept(m, m', cs, {})
    ensures Told(m, m', cs, i, end)
  {
  }

  lemma ToldEnd(m: Words, cs: seq<Chunk>, i: int, end: int)
    requires 0 <= i == |cs| - 1
    ensures Told(m, m, cs, i, end)
  {
  }

  lemma JoinedSoFar(m0: Words, m1: Words, m2: Words, cs: seq<Chunk>, i: int, end: int)
    requires 0 <= i < |cs| && Heads(m0, cs) && HeadersKept(m0, m1, cs, {})
    requires Told(m1, m2, cs, i, end)
    ensures Joined(m0, m2, cs, i, end)
  {
    hide Heads, HeadWord;
  }

  lemma ReleasedShape(h: int, max: int, cs: seq<Chunk>, start: int, end: int, i: int, back: bool)
    requires Tiles(cs, start, end) && Joinable(cs, i, back) && Bounds(h, start, end, max)
    requires !OverContracts(cs, start, end, i, back)
    ensures UsedChunks(Freed(cs, start, end, i, back)) == UsedChunks(cs) - {cs[i]}
    ensures FreeBytes(Freed(cs, start, end, i, back)) ==
            FreeBytes(cs) + cs[i].size - (end - FreedEnd(cs, start, end, i, back))
    ensures FreedEnd(cs, start, end, i, back) <= end
  {
    hide Tiles, NoAdjacentFree, UsedChunks, FreeBytes, Freed, FreedEnd;
    FreedShape(cs, start, end, i, back);
  }

  /** Contraction gives back the whole merged block: it reaches the end and starts a page, above the minimum size. */
  predicate Swallowed(b: Chunk, start: int, end: int)
  {
    b.End() == end && (b.addr - start) % PAGE == 0 && b.addr - start >= HEAP_MIN_SIZE
  }

  lemma NothingRemainsWhen(h: int, max: int, cs: seq<Chunk>, start: int, end: int, i: int, back: bool)
    requires Tiles(cs, start, end) && Joinable(cs, i, back) && Bounds(h, start, end, max)
    requires !OverContracts(cs, start, end, i, back)
    ensures Remains(cs, start, end, i, back) == [] <==> Swallowed(Merged(cs, i, back), start, end)
    ensures Remains(cs, start, end, i, back) == [] ==> Hi(cs, i) == |cs| && Lo(i, back) > 0
  {
    hide Tiles, ContractedSize, Wanted;
    var b := Merged(cs, i, back);
    TopMerged(cs, start, end, i, back);
    StartsHeap(cs, start, end);
    if b.End() == end {
      WantedBounds(start, b.addr);
      ContractionFits(start, end, b.addr);
      SwallowedWhen(start, end, b.addr);
    }
  }

  lemma StartsHeap(cs: seq<Chunk>, start: int, end: int)
    requires Tiles(cs, start, end) && cs != []
    ensures cs[0].addr == start
  {
  }

  lemma SwallowedWhen(start: int, end: int, block: int)
    requires 0 < start && start % PAGE == 0 && end % PAGE == 0 && end - start >= HEAP_MIN_SIZE
    requires start <= block && block % 8 == 0 && Wanted(start, block) < end - start && end < W32 - PAGE
    ensures start + ContractedSize(Wanted(start, block)) <= block <==>
              (block - start) % PAGE == 0 && block - start >= HEAP_MIN_SIZE
  {
    hide AlignUp;
    AlignUpPage(Wanted(start, block));
  }

  /**
   After a free every payload lies inside the heap exactly when a free chunk ends it: what is left of the block, or the
   chunk that ended it before, or, if nothing is left, a free chunk in front.
   */
  lemma FreedInsideWhen(h: int, max: int, cs: seq<Chunk>, start: int, end: int, i: int, back: bool)
    requires Tiles(cs, start, end) && Joinable(cs, i, back) && Bounds(h, start, end, max)
    requires !OverContracts(cs, start, end, i, back)
    ensures PayloadsInside(Freed(cs, start, end, i, back), FreedEnd(cs, start, end, i, back)) <==>
              if Swallowed(Merged(cs, i, back), start, end) then !PrevUsed(cs, Lo(i, back))
              else Hi(cs, i) == |cs| || !cs[|cs| - 1].used
    ensures CleanAround(cs, i, back) && PayloadsInside(cs, end) ==>
              (PayloadsInside(Freed(cs, start, end, i, back), FreedEnd(cs, start, end, i, back)) <==>
                 !Swallowed(Merged(cs, i, back), start, end))
  {
    hide Tiles, FreedEnd, Merged, PayloadsInside, Swallowed, NoAdjacentFree;
    var s, lo, hi := Freed(cs, start, end, i, back), Lo(i, back), Hi(cs, i);
    FreedShape(cs, start, end, i, back);
    NothingRemainsWhen(h, max, cs, start, end, i, back);
    RemainsOne(cs, start, end, i, back);
    InsideWhen(s, start, FreedEnd(cs, start, end, i, back));
    InsideWhen(cs, start, end);
    hide Remains;
    if hi < |cs| { assert s[|s| - 1] == cs[|cs| - 1]; }
    if CleanAround(cs, i, back) { CleanFront(cs, i, back); }
  }

  /** No two free chunks touch, and the backward merge was not skipped. */
  ghost predicate CleanAround(cs: seq<Chunk>, i: int, back: bool)
    requires 0 <= i < |cs|
  {
    NoAdjacentFree(cs) && (back || PrevUsed(cs, i))
  }

  lemma CleanFront(cs: seq<Chunk>, i: int, back: bool)
    requires Joinable(cs, i, back) && CleanAround(cs, i, back)
    ensures PrevUsed(cs, Lo(i, back))
  {
  }

  lemma InsideWhen(cs: seq<Chunk>, start: int, end: int)
    requires Tiles(cs, start, end) && start < end
    ensures cs != [] && (PayloadsInside(cs, end) <==> !cs[|cs| - 1].used)
  {
    PayloadsInsideWhen(cs, start, end);
  }

  /** Headers outside the merged block are as they were, and the one behind it knows what it follows. */
  ghost predicate Settled(m0: Words, m: Words, cs: seq<Chunk>, start: int, end: int, i: int, back: bool)
    requires 0 <= i < |cs| && (back ==> i > 0)
  {
    var lo, hi := Lo(i, back), Hi(cs, i);
    && (forall j :: 0 <= j < |cs| && (j < lo || j > hi) ==>
          Load(m, cs[j].addr) == Load(m0, cs[j].addr) && Load(m, cs[j].addr + 4) == Load(m0, cs[j].addr + 4))
    && (Remains(cs, start, end, i, back) != [] ==> Load(m, cs[lo].addr) == Load(m0, cs[lo].addr))
    && (hi < |cs| ==>
          && Load(m, cs[hi].addr) == Merged(cs, i, back).size
          && Load(m, cs[hi].addr + 4) == HeadBehind(Load(m0, cs[hi].addr + 4), cs, i))
  }

  /** Everything free knows after contraction or the foot store, before the list insertion. */
  lemma SettledShape(m0: Words, m2: Words, m3: Words, h: int, start: int, end: int, max: int, cs: seq<Chunk>,
                     nodes: seq<int>, i: int, back: bool, block: int, size: int)
    requires Bounds(h, start, end, max) && Tiles(cs, start, end) && Joinable(cs, i, back)
    requires ListOk(m2, h, nodes) && Joined(m0, m2, cs, i, end)
    requires Elements(nodes) == FreeNodes(cs) - FreeNodes(cs[Lo(i, back)..Hi(cs, i)])
    requires !OverContracts(cs, start, end, i, back)
    requires var b, e := Merged(cs, i, back), FreedEnd(cs, start, end, i, back);
             && m3 == (if b.End() != end then m2[b.End() := b.size] else Filled(m2, GONE, e, end))
             && (if b.End() != end then block == b.addr && size == b.size
                 else if b.size > end - e then block == b.addr && size == b.size - (end - e)
                 else block == 0 && size == 0)
    ensures var e, cs' := FreedEnd(cs, start, end, i, back), Freed(cs, start, end, i, back);
            var rest := Remains(cs, start, end, i, back);
            && Bounds(h, start, e, max) && Tiles(cs', start, e)
            && FreeNodes(cs') == Elements(nodes) + FreeNodes(rest)
            && UsedChunks(cs') == UsedChunks(cs) - {cs[i]}
            && (if block != 0 && size != 0 then rest == [Chunk(block, size, false)] && block + 8 !in nodes
               else rest == [])
            && Lo(i, back) + |rest| <= |cs'| && (rest != [] ==> cs'[Lo(i, back)] == rest[0])
            && (rest == [] ==> Hi(cs, i) == |cs|)
    ensures ListOk(m3, h, nodes) && Settled(m0, m3, cs, start, end, i, back) && Heads(m0, cs)
    ensures PayloadsBelow(m2, m3, UsedChunks(Freed(cs, start, end, i, back)), FreedEnd(cs, start, end, i, back))
  {
    hide Tiles, NoAdjacentFree, Heads, ListOk, FreeNodes, UsedChunks, FreeBytes, PayloadsKept, Settled, HeadersKept;
    hide PayloadsBelow, Filled;
    hide ContractedSize, Wanted;
    FreedShape(cs, start, end, i, back);
    TopMerged(cs, start, end, i, back);
    MergedTile(cs, start, end, i, back);
    TileAt(cs, start, end, i);
    FreedBounds(cs, start, end, i, back);
    NotListed(cs, start, end, i, back);
    PageMultiples(FreedEnd(cs, start, end, i, back) - start, start);
    if Merged(cs, i, back).End() != end {
      FootStored(m0, m2, h, start, end, max, cs, nodes, i, back);
      BelowKept(m2, m3, UsedChunks(Freed(cs, start, end, i, back)), FreedEnd(cs, start, end, i, back));
    } else {
      var e := FreedEnd(cs, start, end, i, back);
      ContractionFits(start, end, Merged(cs, i, back).addr);
      TopSettled(m0, m2, cs, start, end, i, back);
      TopNodes(cs, start, end, i, back);
      assert forall n :: n in nodes ==> n in Elements(nodes);
      FilledSparesList(m2, GONE, e, end, h, nodes);
      FilledBelow(m2, GONE, e, end, UsedChunks(Freed(cs, start, end, i, back)));
    }
  }

  lemma FreedBounds(cs: seq<Chunk>, start: int, end: int, i: int, back: bool)
    requires Tiles(cs, start, end) && 0 <= i < |cs| && (back ==> i > 0)
    ensures Merged(cs, i, back).size >= MIN_CHUNK && 0 <= Lo(i, back) <= i < Hi(cs, i) <= |cs|
    ensures Lo(i, back) + |Remains(cs, start, end, i, back)| <= |Freed(cs, start, end, i, back)|
  {
  }

  lemma NotListed(cs: seq<Chunk>, start: int, end: int, i: int, back: bool)
    requires Tiles(cs, start, end) && Joinable(cs, i, back)
    ensures Merged(cs, i, back).addr + 8 !in FreeNodes(cs) - FreeNodes(cs[Lo(i, back)..Hi(cs, i)])
  {
  }

  lemma TopSettled(m0: Words, m: Words, cs: seq<Chunk>, start: int, end: int, i: int, back: bool)
    requires Tiles(cs, start, end) && 0 <= i < |cs| && (back ==> i > 0) && Joined(m0, m, cs, i, end)
    requires Hi(cs, i) == |cs| && Merged(cs, i, back).addr <= FreedEnd(cs, start, end, i, back)
    ensures Settled(m0, Filled(m, GONE, FreedEnd(cs, start, end, i, back), end), cs, start, end, i, back)
  {
    hide Filled, Heads, Tiles, HeadWord, FreedEnd;
    var e, lo := FreedEnd(cs, start, end, i, back), Lo(i, back);
    FilledLoad(m, GONE, e, end);
    TopMerged(cs, start, end, i, back);
    forall j | 0 <= j < lo ensures cs[j].addr + 16 <= cs[lo].addr { InFrontOf(cs, start, end, j, lo); }
    if lo < |cs| { TileAt(cs, start, end, lo); }
  }

  lemma InFrontOf(cs: seq<Chunk>, start: int, end: int, j: int, k: int)
    requires Tiles(cs, start, end) && 0 <= j < k < |cs|
    ensures cs[j].addr + 16 <= cs[k].addr
  {
  }

  /** Once the merged block reaches the end, all other free nodes are in front of it. */
  lemma TopNodes(cs: seq<Chunk>, start: int, end: int, i: int, back: bool)
    requires Tiles(cs, start, end) && Joinable(cs, i, back) && Hi(cs, i) == |cs|
    ensures forall n :: n in FreeNodes(cs) - FreeNodes(cs[Lo(i, back)..Hi(cs, i)]) ==>
              n + 8 <= Merged(cs, i, back).addr
  {
    var lo := Lo(i, back);
    forall j | lo <= j < |cs| && !cs[j].used ensures cs[j].addr + 8 in FreeNodes(cs[lo..|cs|]) {
      assert cs[lo..|cs|][j - lo] == cs[j];
    }
    forall n | n in FreeNodes(cs) && n !in FreeNodes(cs[lo..|cs|]) ensures n + 8 <= cs[lo].addr {
      var j :| 0 <= j < |cs| && !cs[j].used && cs[j].addr + 8 == n;
      assert j < lo;
    }
  }

  lemma FootStored(m0: Words, m: Words, h: int, start: int, end: int, max: int, cs: seq<Chunk>, nodes: seq<int>,
                   i: int, back: bool)
    requires Bounds(h, start, end, max) && Tiles(cs, start, end) && Joinable(cs, i, back)
    requires ListOk(m, h, nodes) && Joined(m0, m, cs, i, end) && Hi(cs, i) < |cs|
    requires Elements(nodes) <= FreeNodes(cs)
    ensures var b := Merged(cs, i, back); var m' := m[b.End() := b.size];
            && ListOk(m', h, nodes) && Settled(m0, m', cs, start, end, i, back)
            && PayloadsKept(m, m', UsedChunks(cs) - {cs[i]})
  {
    hide Heads, ListOk, HeadWord, Bounds, FreeNodes, NoAdjacentFree, Tiles, PayloadsKept, UsedChunks, Settled;
    var b, hi := Merged(cs, i, back), Hi(cs, i);
    TileAt(cs, start, end, hi - 1);
    TileClear(cs, h, start, end, max, hi, cs[hi].addr);
    ClearSubset(cs[hi].addr, h, FreeNodes(cs), Elements(nodes));
    FootStoreSparesList(m, h, nodes, cs[hi].addr, b.size);
    FootSettles(m0, m, start, end, cs, i, back);
    FootSparesPayloads(m, start, end, cs, i, back);
  }

  lemma FootSettles(m0: Words, m: Words, start: int, end: int, cs: seq<Chunk>, i: int, back: bool)
    requires Tiles(cs, start, end) && 0 <= i < |cs| && (back ==> i > 0) && Joined(m0, m, cs, i, end) && Hi(cs, i) < |cs|
    ensures Settled(m0, m[Merged(cs, i, back).End() := Merged(cs, i, back).size], cs, start, end, i, back)
  {
    hide Heads, HeadWord, Tiles;
    var b, hi := Merged(cs, i, back), Hi(cs, i);
    TileAt(cs, start, end, hi - 1);
    forall j | 0 <= j < |cs|
      ensures cs[j].addr + 4 != b.End() && (j != hi ==> cs[j].addr != b.End())
    {
      TileAt(cs, start, end, j);
      TileAt(cs, start, end, hi);
      OffByFour(cs[hi].addr, cs[j].addr);
      DistinctAddr(cs, start, end, j, hi);
    }
  }

  lemma FootSparesPayloads(m: Words, start: int, end: int, cs: seq<Chunk>, i: int, back: bool)
    requires Tiles(cs, start, end) && 0 <= i < |cs| && (back ==> i > 0) && Hi(cs, i) < |cs|
    ensures PayloadsKept(m, m[Merged(cs, i, back).End() := Merged(cs, i, back).size], UsedChunks(cs) - {cs[i]})
  {
  }

  lemma RemainsStored(m: Words, h: int, start: int, e: int, max: int, cs': seq<Chunk>, nodes: seq<int>, k: int)
    requires Bounds(h, start, e, max) && Tiles(cs', start, e) && ListOk(m, h, nodes)
    requires 0 <= k < |cs'| && !cs'[k].used && cs'[k].addr + 8 !in nodes
    requires Elements(nodes) <= FreeNodes(cs')
    ensures var r := cs'[k];
            && ListOk(m[r.addr + 4 := r.size + 1], h, nodes)
            && Apart(h, r.addr + 8) && h != 0 && forall n :: n in nodes ==> n != 0 && Apart(n, r.addr + 8)
  {
    hide Tiles, FreeNodes, ListOk;
    var r := cs'[k];
    TileClear(cs', h, start, e, max, k, r.addr);
    TileFrame(cs', h, start, e, max);
    assert forall n :: n in nodes ==> n in Elements(nodes);
    ClearSubset(r.addr, h, FreeNodes(cs'), Elements(nodes));
    HeadStoreSparesList(m, h, nodes, r.addr, r.size + 1);
  }

  /** Putting the remaining block on the list completes the invariant. */
  lemma RemainsListed(m0: Words, m2: Words, m3: Words, m5: Words, h: int, start: int, end: int, max: int,
                      cs: seq<Chunk>, nodes: seq<int>, i: int, back: bool)
    requires Tiles(cs, start, end) && Joinable(cs, i, back)
    requires Heads(m0, cs) && Settled(m0, m3, cs, start, end, i, back)
    requires var e, cs' := FreedEnd(cs, start, end, i, back), Freed(cs, start, end, i, back);
             var rest := Remains(cs, start, end, i, back);
             && Bounds(h, start, e, max) && Tiles(cs', start, e)
             && rest != [] && ListOk(m5, h, nodes) && Elements(nodes) == FreeNodes(cs')
             && PayloadsBelow(m2, m3, UsedChunks(cs'), e)
             && OnlyLinks(m3[rest[0].addr + 4 := rest[0].size + 1], m5, FreeNodes(cs') + {h})
    ensures HeapTags(m5, h, start, FreedEnd(cs, start, end, i, back), max, Freed(cs, start, end, i, back), nodes)
    ensures Settled(m0, m5, cs, start, end, i, back)
    ensures PayloadsBelow(m2, m5, UsedChunks(Freed(cs, start, end, i, back)), FreedEnd(cs, start, end, i, back))
    ensures Feet(m0, cs) ==> Feet(m5, Freed(cs, start, end, i, back))
  {
    hide Tiles, NoAdjacentFree, Heads, ListOk, FreeNodes, UsedChunks, PayloadsKept, Feet, OnlyLinks, Bounds;
    hide FreedEnd, Settled;
    var e, cs' := FreedEnd(cs, start, end, i, back), Freed(cs, start, end, i, back);
    var lo, rest := Lo(i, back), Remains(cs, start, end, i, back);
    var m4 := m3[rest[0].addr + 4 := rest[0].size + 1];
    assert cs'[lo] == rest[0];
    TopMerged(cs, start, end, i, back);
    HeadStoreKept(m3, start, e, cs', lo, rest[0].size + 1);
    StepKept(m4, m5, h, start, e, max, cs', FreeNodes(cs') + {h});
    PayloadsChain(m3, m4, m5, UsedChunks(cs'));
    BelowKept(m3, m5, UsedChunks(cs'), e);
    BelowChain(m2, m3, m5, UsedChunks(cs'), UsedChunks(cs'), e, e);
    forall j | 0 <= j < |cs'| && j != lo
      ensures Load(m5, cs'[j].addr) == Load(m3, cs'[j].addr) && Load(m5, cs'[j].addr + 4) == Load(m3, cs'[j].addr + 4)
    {
      DistinctAddr(cs', start, e, j, lo);
    }
    assert Load(m5, cs'[lo].addr) == Load(m3, cs'[lo].addr);
    TileAt(cs', start, e, lo);
    SettledStays(m0, m3, m5, cs, start, end, i, back);
    ReleasedTags(m0, m5, cs, start, end, i, back);
  }

  lemma NothingRemains(m0: Words, m3: Words, h: int, start: int, end: int, max: int, cs: seq<Chunk>, nodes: seq<int>,
                       i: int, back: bool)
    requires Tiles(cs, start, end) && Joinable(cs, i, back) && Heads(m0, cs) && Settled(m0, m3, cs, start, end, i, back)
    requires var e, cs' := FreedEnd(cs, start, end, i, back), Freed(cs, start, end, i, back);
             && Bounds(h, start, e, max) && Tiles(cs', start, e)
             && Remains(cs, start, end, i, back) == [] && ListOk(m3, h, nodes) && Elements(nodes) == FreeNodes(cs')
             && Hi(cs, i) == |cs|
    ensures HeapTags(m3, h, start, FreedEnd(cs, start, end, i, back), max, Freed(cs, start, end, i, back), nodes)
    ensures Feet(m0, cs) ==> Feet(m3, Freed(cs, start, end, i, back))
  {
    hide Tiles, NoAdjacentFree, Heads, ListOk, FreeNodes, Feet, Bounds, FreedEnd, Settled;
    ReleasedTags(m0, m3, cs, start, end, i, back);
  }

  lemma SettledStays(m0: Words, m3: Words, m5: Words, cs: seq<Chunk>, start: int, end: int, i: int, back: bool)
    requires 0 <= i < |cs| && (back ==> i > 0) && Settled(m0, m3, cs, start, end, i, back)
             && Remains(cs, start, end, i, back) != []
    requires var cs' := Freed(cs, start, end, i, back);
             forall j :: 0 <= j < |cs'| && j != Lo(i, back) ==>
               Load(m5, cs'[j].addr) == Load(m3, cs'[j].addr) && Load(m5, cs'[j].addr + 4) == Load(m3, cs'[j].addr + 4)
    requires Load(m5, cs[Lo(i, back)].addr) == Load(m3, cs[Lo(i, back)].addr)
    ensures Settled(m0, m5, cs, start, end, i, back)
  {
    hide Freed, Remains, Merged, HeadWord;
    var lo, hi := Lo(i, back), Hi(cs, i);
    forall j | 0 <= j < |cs| && (j < lo || j >= hi)
      ensures Load(m5, cs[j].addr) == Load(m3, cs[j].addr) && Load(m5, cs[j].addr + 4) == Load(m3, cs[j].addr + 4)
    {
      FreedAt(cs, start, end, i, back, j);
    }
  }

  lemma FreedAt(cs: seq<Chunk>, start: int, end: int, i: int, back: bool, j: int)
    requires 0 <= i < |cs| && (back ==> i > 0) && Remains(cs, start, end, i, back) != [] && 0 <= j < |cs|
             && (j < Lo(i, back) || j >= Hi(cs, i))
    ensures var s, k := Freed(cs, start, end, i, back), if j < Lo(i, back) then j else j - Hi(cs, i) + Lo(i, back) + 1;
            0 <= k < |s| && k != Lo(i, back) && s[k] == cs[j]
  {
  }

  /** Heads and feet of the released heap. */
  lemma ReleasedTags(m0: Words, m: Words, cs: seq<Chunk>, start: int, end: int, i: int, back: bool)
    requires Tiles(cs, start, end) && Joinable(cs, i, back) && Heads(m0, cs) && Settled(m0, m, cs, start, end, i, back)
    requires var rest := Remains(cs, start, end, i, back);
             if rest == [] then Hi(cs, i) == |cs|
             else
               && Load(m, rest[0].addr + 4) == rest[0].size + 1 && rest[0].size % 8 == 0
               && (Hi(cs, i) < |cs| ==> rest[0] == Merged(cs, i, back))
    ensures Heads(m, Freed(cs, start, end, i, back))
    ensures Feet(m0, cs) ==> Feet(m, Freed(cs, start, end, i, back))
  {
    hide HeadWord, HeadOk, Tiles, Feet, Remains, Merged, Heads;
    var lo, hi, rest, s := Lo(i, back), Hi(cs, i), Remains(cs, start, end, i, back), Freed(cs, start, end, i, back);
    RemainsOne(cs, start, end, i, back);
    var d := lo + |rest|;
    forall j | lo <= j < |s| && j <= d ensures HeadOk(Load(m, s[j].addr + 4), s[j], PrevUsed(s, j)) {
      if j < d {
        assert s[j] == rest[0];
        FreeHead(rest[0].size);
        HeadMade(rest[0], true, PrevUsed(s, j));
      } else {
        assert s[d] == cs[hi] && s[d - 1] == rest[0];
        BehindTold(m0, m, cs, start, end, i, back);
      }
    }
    SpliceHeads(m0, m, cs, lo, hi, rest);
    if Feet(m0, cs) { ReleasedFeet(m0, m, cs, start, end, i, back); }
  }

  lemma BehindTold(m0: Words, m: Words, cs: seq<Chunk>, start: int, end: int, i: int, back: bool)
    requires Tiles(cs, start, end) && Joinable(cs, i, back) && Heads(m0, cs) && Settled(m0, m, cs, start, end, i, back)
    requires Hi(cs, i) < |cs|
    ensures HeadOk(Load(m, cs[Hi(cs, i)].addr + 4), cs[Hi(cs, i)], false)
  {
    hide HeadWord, HeadOk, Tiles, Heads, Merged;
    var hi := Hi(cs, i);
    TileAt(cs, start, end, hi);
    HeadAt(m0, cs, hi);
    HeadStays(Load(m0, cs[hi].addr + 4), cs, hi);
    if hi == i + 1 { HeadMade(cs[hi], false, false); }
  }

  lemma HeadStays(w: int, cs: seq<Chunk>, hi: int)
    requires 0 < hi < |cs| && HeadOk(w, cs[hi], PrevUsed(cs, hi))
    ensures HeadOk(w, cs[hi], false)
  {
  }

  lemma ReleasedFeet(m0: Words, m: Words, cs: seq<Chunk>, start: int, end: int, i: int, back: bool)
    requires Joinable(cs, i, back) && Settled(m0, m, cs, start, end, i, back) && Feet(m0, cs)
    requires var rest := Remains(cs, start, end, i, back);
             if rest == [] then Hi(cs, i) == |cs| else (Hi(cs, i) < |cs| ==> rest[0] == Merged(cs, i, back))
    ensures Feet(m, Freed(cs, start, end, i, back))
  {
    hide HeadWord;
    var lo, hi, rest, s := Lo(i, back), Hi(cs, i), Remains(cs, start, end, i, back), Freed(cs, start, end, i, back);
    var d := lo + |rest|;
    assert rest != [] ==> rest[0].addr == cs[lo].addr;
    forall p, q {:trigger s[p], s[q]} | 0 <= p && q == p + 1 < |s| && !s[p].used
      ensures Load(m, s[q].addr) == s[p].size
    {
      if q < lo {
        assert s[p] == cs[p] && s[q] == cs[q];
      } else if q == lo {
        assert s[p] == cs[lo - 1];
      } else if p >= d {
        assert s[p] == cs[p - d + hi] && s[q] == cs[q - d + hi];
      } else {
        assert s[p] == rest[0] && s[q] == cs[hi];
      }
    }
  }

  /** Freeing a block leaves a clean heap clean, up to a stale bit of a chunk k in front of the block. */
  lemma ReleasedClean(m0: Words, m: Words, cs: seq<Chunk>, start: int, end: int, i: int, back: bool, k: int)
    requires Tiles(cs, start, end) && Joinable(cs, i, back) && k < Lo(i, back) && CleanBut(m0, cs, k)
    requires Settled(m0, m, cs, start, end, i, back) && back == Backwards(m0, cs, i)
    requires Remains(cs, start, end, i, back) == [] ==> Hi(cs, i) == |cs|
    ensures CleanBut(m, Freed(cs, start, end, i, back), k)
  {
    hide Remains, Merged, Tiles, HeadWord, PInuse;
    var lo, hi, s := Lo(i, back), Hi(cs, i), Freed(cs, start, end, i, back);
    var rest := Remains(cs, start, end, i, back);
    RemainsOne(cs, start, end, i, back);
    assert !StaleAt(m0, cs, i);
    FreedAdjacentWhen(cs, start, end, i, back);
    var d := lo + |rest|;
    forall j | 0 <= j < |s| && j != k ensures !StaleAt(m, s, j) {
      if j < lo {
        assert s[j] == cs[j] && !StaleAt(m0, cs, j);
      } else if j < d {
        assert PrevUsed(s, j) == PrevUsed(cs, lo);
      } else if j == d {
        assert s[d] == cs[hi] && !StaleAt(m0, cs, hi);
        TileAt(cs, start, end, hi);
        HeadFields(cs[hi].size, true, false);
      } else {
        assert s[j] == cs[j - d + hi] && s[j - 1] == cs[j - d + hi - 1] && !StaleAt(m0, cs, j - d + hi);
      }
    }
  }

  /** For a chunk whose PINUSE bit decides: the two free chunks touch because that bit was stale. */
  lemma ReleasedAdjacent(m: Words, cs: seq<Chunk>, start: int, end: int, i: int)
    requires Heads(m, cs) && 0 <= i < |cs| && cs[i].used
    ensures var back := Backwards(m, cs, i);
            && Joinable(cs, i, back)
            && (NoAdjacentFree(cs) ==>
                  (NoAdjacentFree(Freed(cs, start, end, i, back)) <==>
                     !StaleAt(m, cs, i) || Remains(cs, start, end, i, back) == []))
  {
    hide NoAdjacentFree, Freed, Remains, Heads;
    BackJoins(m, cs, i);
    if NoAdjacentFree(cs) { FreedAdjacentWhen(cs, start, end, i, Backwards(m, cs, i)); }
  }

  lemma RemainsOne(cs: seq<Chunk>, start: int, end: int, i: int, back: bool)
    requires 0 <= i < |cs| && (back ==> i > 0)
    ensures var rest := Remains(cs, start, end, i, back);
            |rest| <= 1 && (rest != [] ==> !rest[0].used && rest[0].addr == cs[Lo(i, back)].addr)
  {
  }

  lemma NextJoined(m: Words, m': Words, h: int, start: int, end: int, max: int, cs: seq<Chunk>, i: int, back: bool)
    requires Bounds(h, start, end, max) && Tiles(cs, start, end) && (back ==> i > 0)
    requires 0 <= i < |cs| - 1 && !cs[i + 1].used
    requires OnlyLinks(m, m', {h} + (FreeNodes(cs) - FreeNodes(cs[Lo(i, back)..i])) - {cs[i + 1].addr + 8})
    ensures HeadersKept(m, m', cs, {}) && PayloadsKept(m, m', UsedChunks(cs))
  {
    var touched := {h} + (FreeNodes(cs) - FreeNodes(cs[Lo(i, back)..i])) - {cs[i + 1].addr + 8};
    StepKept(m, m', h, start, end, max, cs, touched);
  }

  // ---- page alignment ------------------------------------------------------------------------------

  ghost function LeadPieces(c: Chunk, pos: int): seq<Chunk>
  {
    [Chunk(c.addr, pos - c.addr, false), Chunk(pos, c.End() - pos, true)]
  }

  /** Memory after the three header stores of the lead split. */
  ghost function LeadStored(m: Words, c: Chunk, pos: int): Words
  {
    InUse(m, pos, c.End() - pos)[c.addr + 4 := pos - c.addr + 1][pos := pos - c.addr]
  }

  lemma LeadFacts(m: Words, h: int, start: int, end: int, max: int, cs: seq<Chunk>, nodes: seq<int>, at: int, pos: int)
    requires HeapTags(m, h, start, end, max, cs, nodes) && 0 <= at < |cs| - 1 && cs[at].used
    requires cs[at].addr + MIN_CHUNK <= pos <= cs[at].End() - MIN_CHUNK && pos % 8 == 0
    ensures ChunkSize(Load(m, cs[at].addr + 4)) == cs[at].size
    ensures ListOk(LeadStored(m, cs[at], pos), h, nodes) && h != 0
    ensures Apart(h, cs[at].addr + 8) && forall n :: n in nodes ==> n != 0 && Apart(n, cs[at].addr + 8)
  {
    hide Tiles, NoAdjacentFree, Heads, ListOk, FreeNodes, WithPinuse;
    UsedFacts(m, h, start, end, max, cs, nodes, at);
    var c := cs[at];
    TileAt(cs, start, end, at);
    TileAt(cs, start, end, at + 1);
    TileClear(cs, h, start, end, max, at, c.addr);
    TileClear(cs, h, start, end, max, at, pos);
    TileClear(cs, h, start, end, max, at + 1, c.End());
    TileFrame(cs, h, start, end, max);
    assert forall n :: n in nodes <==> n in FreeNodes(cs) by {
      assert forall n :: n in nodes <==> n in Elements(nodes);
    }
    var w := Load(m, pos + 4) % 2 + 2 + (c.End() - pos);
    HeadStoreSparesList(m, h, nodes, pos, w);
    var m1 := m[pos + 4 := w];
    WithPinuseSize(Load(m1, c.End() + 4));
    HeadStoreSparesList(m1, h, nodes, c.End(), WithPinuse(Load(m1, c.End() + 4)));
    var m2 := InUse(m, pos, c.End() - pos);
    HeadStoreSparesList(m2, h, nodes, c.addr, pos - c.addr + 1);
    FootStoreSparesList(m2[c.addr + 4 := pos - c.addr + 1], h, nodes, pos, pos - c.addr);
  }

  /** Load-level effect of the lead stores: the header behind the block already had PINUSE set. */
  lemma LeadWords(m: Words, start: int, end: int, cs: seq<Chunk>, at: int, pos: int)
    requires Tiles(cs, start, end) && Heads(m, cs) && 0 <= at < |cs| - 1 && cs[at].used
    requires cs[at].addr + MIN_CHUNK <= pos <= cs[at].End() - MIN_CHUNK && pos % 8 == 0
    ensures var m', c := LeadStored(m, cs[at], pos), cs[at];
            && Load(m', pos + 4) == Load(m, pos + 4) % 2 + 2 + (c.End() - pos)
            && Load(m', c.addr + 4) == pos - c.addr + 1 && Load(m', pos) == pos - c.addr
            && forall x :: x != pos + 4 && x != c.addr + 4 && x != pos ==> Load(m', x) == Load(m, x)
  {
    hide Heads, HeadOk, InUse, Tiles, HeadWord;
    TileAt(cs, start, end, at);
    TileAt(cs, start, end, at + 1);
    HeadAt(m, cs, at + 1);
    HeadFields(cs[at + 1].size, cs[at + 1].used, true);
    InUseWords(m, pos, cs[at].End() - pos);
    OffByFour(pos, cs[at].addr);
  }

  lemma LeadShape(cs: seq<Chunk>, start: int, end: int, at: int, pos: int)
    requires Tiles(cs, start, end) && 0 <= at < |cs| && cs[at].used
    requires cs[at].addr + MIN_CHUNK <= pos <= cs[at].End() - MIN_CHUNK && pos % 8 == 0
    ensures var s := Splice(cs, at, at + 1, LeadPieces(cs[at], pos));
            && Tiles(s, start, end) && (NoAdjacentFree(cs) && PrevUsed(cs, at) ==> NoAdjacentFree(s))
            && FreeNodes(s) == FreeNodes(cs) + {cs[at].addr + 8}
            && UsedChunks(s) == UsedChunks(cs) - {cs[at]} + {LeadPieces(cs[at], pos)[1]}
            && LeadPieces(cs[at], pos)[1] !in UsedChunks(cs)
            && FreeBytes(s) == FreeBytes(cs) + pos - cs[at].addr
  {
    hide Tiles, NoAdjacentFree, FreeNodes, UsedChunks, FreeBytes;
    LeadNew(cs, start, end, at, pos);
    var c, p := cs[at], LeadPieces(cs[at], pos);
    TileAt(cs, start, end, at);
    Multiples(pos, c.addr);
    Multiples(c.addr, c.size);
    Multiples(c.End(), pos);
    OneTile(p[0]);
    OneTile(p[1]);
    assert p == [p[0]] + [p[1]];
    JoinTiles([p[0]], [p[1]], c.addr, pos, c.End());
    SpliceTiles(cs, start, end, at, at + 1, p);
    SpliceFree(cs, start, end, at, at + 1, p);
    assert cs[at..at + 1] == [c];
    OneFreeNode(c); OneUsed(c);
    OneFreeNode(p[0]); OneUsed(p[0]);
    OneFreeNode(p[1]); OneUsed(p[1]);
    FreeNodesJoin([p[0]], [p[1]]);
    UsedJoin([p[0]], [p[1]]);
    FreeBytesJoin([p[0]], [p[1]]);
    SpliceBytes(cs, at, at + 1, p);
    if NoAdjacentFree(cs) && PrevUsed(cs, at) { LeadNoAdjacent(cs, at, p); }
  }

  lemma LeadNew(cs: seq<Chunk>, start: int, end: int, at: int, pos: int)
    requires Tiles(cs, start, end) && 0 <= at < |cs| && cs[at].addr < pos < cs[at].End()
    ensures LeadPieces(cs[at], pos)[1] !in UsedChunks(cs)
  {
  }

  lemma WholePages(h: int, start: int, end: int, max: int)
    requires Bounds(h, start, end, max)
    ensures start % PAGE == 0 && end % PAGE == 0
  {
  }

  lemma LeadNoAdjacent(cs: seq<Chunk>, at: int, p: seq<Chunk>)
    requires NoAdjacentFree(cs) && 0 <= at < |cs| && PrevUsed(cs, at) && |p| == 2 && p[1].used
    ensures NoAdjacentFree(Splice(cs, at, at + 1, p))
  {
  }

  lemma LeadListed(m: Words, m3: Words, m4: Words, h: int, start: int, end: int, max: int, cs: seq<Chunk>,
                   nodes: seq<int>, at: int, pos: int)
    requires Bounds(h, start, end, max) && Tiles(cs, start, end) && Heads(m, cs) && 0 <= at < |cs| - 1 && cs[at].used
    requires cs[at].addr + MIN_CHUNK <= pos <= cs[at].End() - MIN_CHUNK && pos % 8 == 0
    requires m3 == LeadStored(m, cs[at], pos)
    requires OnlyLinks(m3, m4, {h, cs[at].addr + 8} + FreeNodes(cs))
    requires ListOk(m4, h, nodes) && Elements(nodes) == FreeNodes(cs) + {cs[at].addr + 8}
    ensures var s := Splice(cs, at, at + 1, LeadPieces(cs[at], pos));
            && HeapTags(m4, h, start, end, max, s, nodes)
            && PayloadsKept(m, m4, UsedChunks(cs) - {cs[at]})
            && (Feet(m, cs) ==> Feet(m4, s))
            && ChunkSize(Load(m4, pos + 4)) == cs[at].End() - pos
            && (Clean(m, cs) && PrevUsed(cs, at) ==> CleanBut(m4, s, at + 1))
            && (StaleAt(m4, s, at + 1) <==> PInuse(Load(m, pos + 4)))
  {
    hide Bounds, Tiles, NoAdjacentFree, Heads, ListOk, FreeNodes, UsedChunks, PayloadsKept, Feet, OnlyLinks, LeadStored;
    hide Clean, CleanBut, StaleAt, HeadOk;
    var c, p := cs[at], LeadPieces(cs[at], pos);
    var s := Splice(cs, at, at + 1, p);
    LeadShape(cs, start, end, at, pos);
    StepKept(m3, m4, h, start, end, max, s, {h, c.addr + 8} + FreeNodes(cs));
    LeadWords(m, start, end, cs, at, pos);
    LeadPayloads(m, m3, start, end, cs, at, pos);
    FewerPayloads(m3, m4, UsedChunks(s), UsedChunks(cs) - {c});
    PayloadsChain(m, m3, m4, UsedChunks(cs) - {c});
    assert s[at] == p[0] && s[at + 1] == p[1];
    assert Load(m4, pos + 4) == Load(m, pos + 4) % 2 + 2 + (c.End() - pos);
    TileAt(s, start, end, at);
    TileAt(s, start, end, at + 1);
    forall i | 0 <= i < |s| && i != at && i != at + 1
      ensures Load(m4, s[i].addr) == Load(m, s[i].addr) && Load(m4, s[i].addr + 4) == Load(m, s[i].addr + 4)
    {
      TileAt(s, start, end, i);
      OffByFour(s[i].addr, pos);
      OffByFour(s[i].addr, c.addr);
      OffByFour(pos, s[i].addr);
      DistinctAddr(s, start, end, i, at);
      DistinctAddr(s, start, end, i, at + 1);
    }
    LeadHeadWord(c.End() - pos, Load(m, pos + 4));
    LeadHeads(m, m4, start, end, cs, at, pos);
    assert Load(m4, s[at].addr) == Load(m, s[at].addr) by { OffByFour(c.addr, pos); }
    if Feet(m, cs) { LeadFeet(m, m4, cs, at, pos); }
    LeadClean(m, m4, start, end, cs, at, pos);
  }

  lemma LeadHeadWord(size: int, w: int)
    requires size % 8 == 0
    ensures ChunkSize(w % 2 + 2 + size) == size
    ensures w % 2 + 2 + size == HeadWord(size, true, PInuse(w))
  {
  }

  lemma LeadPayloads(m: Words, m3: Words, start: int, end: int, cs: seq<Chunk>, at: int, pos: int)
    requires Tiles(cs, start, end) && 0 <= at < |cs| && cs[at].used
    requires cs[at].addr + MIN_CHUNK <= pos <= cs[at].End() - MIN_CHUNK
    requires forall x :: x != pos + 4 && x != cs[at].addr + 4 && x != pos ==> Load(m3, x) == Load(m, x)
    ensures PayloadsKept(m, m3, UsedChunks(cs) - {cs[at]})
  {
  }

  lemma LeadHeads(m: Words, m4: Words, start: int, end: int, cs: seq<Chunk>, at: int, pos: int)
    requires Tiles(cs, start, end) && Heads(m, cs) && 0 <= at < |cs| - 1 && cs[at].used
    requires cs[at].addr + MIN_CHUNK <= pos <= cs[at].End() - MIN_CHUNK && pos % 8 == 0
    requires var c, s := cs[at], Splice(cs, at, at + 1, LeadPieces(cs[at], pos));
             && (forall i :: 0 <= i < |s| && i != at && i != at + 1 ==>
                   Load(m4, s[i].addr + 4) == Load(m, s[i].addr + 4))
             && Load(m4, c.addr + 4) == pos - c.addr + 1
             && Load(m4, pos + 4) == HeadWord(c.End() - pos, true, PInuse(Load(m, pos + 4)))
    ensures Heads(m4, Splice(cs, at, at + 1, LeadPieces(cs[at], pos)))
  {
    hide HeadWord, HeadOk, Heads, Tiles, PInuse;
    var c, p := cs[at], LeadPieces(cs[at], pos);
    var s := Splice(cs, at, at + 1, p);
    TileAt(cs, start, end, at);
    Multiples(pos, c.addr);
    Multiples(c.addr, c.size);
    Multiples(c.End(), pos);
    forall i | 0 <= i < |cs| && i != at ensures Load(m4, cs[i].addr + 4) == Load(m, cs[i].addr + 4) {
      assert cs[i] == if i < at then s[i] else s[i + 1];
    }
    FreeHead(pos - c.addr);
    forall i | at <= i <= at + 2 ensures HeadOk(Load(m4, s[i].addr + 4), s[i], PrevUsed(s, i)) {
      if i == at {
        assert s[i] == p[0];
        HeadMade(p[0], true, PrevUsed(s, i));
      } else if i == at + 1 {
        assert s[i] == p[1] && !PrevUsed(s, i);
        HeadMade(p[1], PInuse(Load(m, pos + 4)), false);
      } else {
        assert s[i] == cs[at + 1] && PrevUsed(s, i) && PrevUsed(cs, at + 1);
        HeadAt(m, cs, at + 1);
      }
    }
    SpliceHeads(m, m4, cs, at, at + 1, p);
  }

  lemma LeadClean(m: Words, m4: Words, start: int, end: int, cs: seq<Chunk>, at: int, pos: int)
    requires Tiles(cs, start, end) && 0 <= at < |cs| - 1 && cs[at].used
    requires cs[at].addr + MIN_CHUNK <= pos <= cs[at].End() - MIN_CHUNK && pos % 8 == 0
    requires var c, s := cs[at], Splice(cs, at, at + 1, LeadPieces(cs[at], pos));
             && (forall i :: 0 <= i < |s| && i != at && i != at + 1 ==>
                   Load(m4, s[i].addr + 4) == Load(m, s[i].addr + 4))
             && Load(m4, pos + 4) == HeadWord(c.End() - pos, true, PInuse(Load(m, pos + 4)))
    ensures var s := Splice(cs, at, at + 1, LeadPieces(cs[at], pos));
            && |s| == |cs| + 1 && (Clean(m, cs) && PrevUsed(cs, at) ==> CleanBut(m4, s, at + 1))
            && (StaleAt(m4, s, at + 1) <==> PInuse(Load(m, pos + 4)))
  {
    hide HeadWord, Tiles, PInuse;
    var c, p := cs[at], LeadPieces(cs[at], pos);
    var s := Splice(cs, at, at + 1, p);
    TileAt(cs, start, end, at);
    Multiples(c.addr, c.size);
    Multiples(c.End(), pos);
    HeadFields(c.End() - pos, true, PInuse(Load(m, pos + 4)));
    assert s[at + 1] == p[1] && s[at] == p[0];
    if Clean(m, cs) && PrevUsed(cs, at) {
      LeadNoAdjacent(cs, at, p);
      forall i | 0 <= i < |s| && i != at + 1 ensures !StaleAt(m4, s, i) {
        if i < at { assert s[i] == cs[i] && !StaleAt(m, cs, i); }
        else if i > at + 1 {
          assert s[i] == cs[i - 1] && (i > at + 2 ==> s[i - 1] == cs[i - 2]) && !StaleAt(m, cs, i - 1);
        }
      }
    }
  }

  /**
   The over-allocation is one page and one smallest chunk more than the padded request exactly when the 32-bit sums
   do not wrap.
   */
  lemma PaddedRequest(nb: int)
    requires nb % 8 == 0 && MIN_CHUNK <= nb < W32
    ensures Request2Size((nb + 4108) % W32) == nb + 4112 <==> nb + 4108 < 0xFFFF_FFF5
  {
  }

  /** palignedAlloc(0xFFFFF000): the inner request wraps to 20 bytes, and a usual lead does not fit its chunk. */
  lemma PaddedWrapExample(chunk: int)
    requires chunk == 0x0100_0000
    ensures var nb := Request2Size(0xFFFF_F000);
            && nb == 0xFFFF_F008 && (nb + 4108) % W32 == 20 && Request2Size(20) == 24
            && (chunk + 8) % PAGE != 0 && LeadEnd(chunk) - chunk > 24
  {
  }

  /** Where the header of the aligned block goes: 8 bytes below a page boundary, at least MIN_CHUNK after `chunk`. */
  function LeadEnd(chunk: int): int
  {
    var br := (chunk + 8) / PAGE * PAGE + PAGE - 8;
    if br - chunk >= MIN_CHUNK then br else br + PAGE
  }

  /** Where the block that palignedAlloc returns starts. */
  function AlignedStart(chunk: int): int { if (chunk + 8) % PAGE != 0 then LeadEnd(chunk) else chunk }

  /**
   Cutting the block at index k down to nb bytes from its aligned start leaves it the last chunk of the heap: more than
   a smallest chunk is cut off, only a free chunk follows, and the block ends a page above the minimum size.
   */
  ghost predicate LosesTail(cs: seq<Chunk>, start: int, k: int, nb: int)
    requires 0 <= k < |cs|
  {
    var pos := AlignedStart(cs[k].addr);
    && cs[k].End() - pos > nb + MIN_CHUNK && k + 2 == |cs| && !cs[k + 1].used
    && (pos + nb - start) % PAGE == 0 && pos + nb - start >= HEAP_MIN_SIZE
  }

  lemma TailLostWhen(cs: seq<Chunk>, k: int, cs': seq<Chunk>, at: int, start: int, nb: int)
    requires 0 <= k < |cs| - 1 && 0 <= at < |cs'| - 1 && |cs'| - at == |cs| - k && cs'[at + 1] == cs[k + 1]
    requires cs'[at].addr == AlignedStart(cs[k].addr) && cs'[at].End() == cs[k].End()
    ensures LosesTail(cs, start, k, nb) <==>
              && cs'[at].size > nb + MIN_CHUNK && at + 2 == |cs'| && !cs'[at + 1].used
              && (cs'[at].addr + nb - start) % PAGE == 0 && cs'[at].addr + nb - start >= HEAP_MIN_SIZE
  {
    hide AlignedStart;
  }

  /** For every unaligned start the lead is between 16 and 4104 bytes, and what is left still fits. */
  lemma LeadFits(chunk: int, csize: int, nb: int)
    requires chunk % 8 == 0 && (chunk + 8) % PAGE != 0 && csize >= nb + 4112 && nb >= MIN_CHUNK
    ensures var pos := LeadEnd(chunk);
            && 16 <= pos - chunk <= 4104 && pos % 8 == 0 && (pos + 8) % PAGE == 0
            && csize - (pos - chunk) >= nb + 8
  {
    var q, r := (chunk + 8) / 4096, (chunk + 8) % 4096;
    PagePast(chunk, q, r);
  }

  lemma PagePast(chunk: int, q: int, r: int)
    requires chunk % 8 == 0 && chunk + 8 == 4096 * q + r && 0 < r < 4096
    ensures 8 <= r <= 4088 && r % 8 == 0
    ensures forall br :: br == 4096 * q + 4096 - 8 || br == 4096 * q + 8192 - 8 ==> br % 8 == 0 && (br + 8) % PAGE == 0
  {
    PageTimes(q);
    PageTimes(q + 1);
    PageTimes(q + 2);
    Multiples(chunk, 8);
    Multiples(chunk + 8, 4096 * q);
    Multiples(4096 * (q + 1), 8);
    Multiples(4096 * (q + 2), 8);
    assert r == chunk + 8 - 4096 * q;
  }

  ghost function TailPieces(c: Chunk, nb: int): seq<Chunk>
  {
    [Chunk(c.addr, nb, true), Chunk(c.addr + nb, c.size - nb, true)]
  }

  lemma TailShape(cs: seq<Chunk>, start: int, end: int, k: int, nb: int)
    requires Tiles(cs, start, end) && 0 <= k < |cs| && cs[k].used
    requires MIN_CHUNK <= nb <= cs[k].size - MIN_CHUNK && nb % 8 == 0
    ensures var s, p := Splice(cs, k, k + 1, TailPieces(cs[k], nb)), TailPieces(cs[k], nb);
            && Tiles(s, start, end) && (NoAdjacentFree(cs) ==> NoAdjacentFree(s)) && FreeNodes(s) == FreeNodes(cs)
            && UsedChunks(s) == UsedChunks(cs) - {cs[k]} + {p[0], p[1]} && FreeBytes(s) == FreeBytes(cs)
  {
    hide Tiles, NoAdjacentFree, FreeNodes, UsedChunks, FreeBytes;
    var c, p := cs[k], TailPieces(cs[k], nb);
    TileAt(cs, start, end, k);
    Multiples(c.addr, nb);
    Multiples(c.size, nb);
    OneTile(p[0]);
    OneTile(p[1]);
    assert p == [p[0]] + [p[1]];
    JoinTiles([p[0]], [p[1]], c.addr, c.addr + nb, c.End());
    SpliceTiles(cs, start, end, k, k + 1, p);
    SpliceFree(cs, start, end, k, k + 1, p);
    assert cs[k..k + 1] == [c];
    OneFreeNode(c); OneUsed(c);
    OneFreeNode(p[0]); OneUsed(p[0]);
    OneFreeNode(p[1]); OneUsed(p[1]);
    FreeNodesJoin([p[0]], [p[1]]);
    UsedJoin([p[0]], [p[1]]);
    FreeBytesJoin([p[0]], [p[1]]);
    SpliceBytes(cs, k, k + 1, p);
    NodeOfUsed(cs, start, end, k);
    if NoAdjacentFree(cs) { TailNoAdjacent(cs, k, p); }
  }

  lemma NodeOfUsed(cs: seq<Chunk>, start: int, end: int, k: int)
    requires Tiles(cs, start, end) && 0 <= k < |cs| && cs[k].used
    ensures cs[k].addr + 8 !in FreeNodes(cs)
  {
  }

  lemma TailNoAdjacent(cs: seq<Chunk>, k: int, p: seq<Chunk>)
    requires NoAdjacentFree(cs) && 0 <= k < |cs| && |p| == 2 && p[0].used && p[1].used
    ensures NoAdjacentFree(Splice(cs, k, k + 1, p))
  {
  }

  /** Both set_inuse calls together: two heads change, and nothing else does. */
  lemma TailWords(m: Words, start: int, end: int, cs: seq<Chunk>, k: int, nb: int)
    requires Tiles(cs, start, end) && Heads(m, cs) && 0 <= k < |cs| - 1 && cs[k].used
    requires MIN_CHUNK <= nb <= cs[k].size - MIN_CHUNK && nb % 8 == 0
    ensures var c := cs[k]; var m' := InUse(InUse(m, c.addr, nb), c.addr + nb, c.size - nb);
            && Load(m', c.addr + 4) == HeadWord(nb, true, PInuse(Load(m, c.addr + 4)))
            && Load(m', c.addr + nb + 4) == HeadWord(c.size - nb, true, true)
            && forall x :: x != c.addr + 4 && x != c.addr + nb + 4 ==> Load(m', x) == Load(m, x)
  {
    hide Heads, HeadOk, InUse, Tiles, WithPinuse;
    var c := cs[k];
    TileAt(cs, start, end, k);
    TileAt(cs, start, end, k + 1);
    HeadAt(m, cs, k);
    HeadAt(m, cs, k + 1);
    HeadFields(c.size, true, PInuse(Load(m, c.addr + 4)));
    WithPinuseFields(cs[k + 1].size, cs[k + 1].used, true);
    var m1 := InUse(m, c.addr, nb);
    InUseWords(m, c.addr, nb);
    InUseWords(m1, c.addr + nb, c.size - nb);
    WithPinuseOdd(Load(m, c.addr + nb + 4));
  }

  lemma WithPinuseOdd(w: int)
    ensures WithPinuse(w) % 2 == 1
  {
  }

  lemma TailOk(m: Words, h: int, start: int, end: int, max: int, cs: seq<Chunk>, nodes: seq<int>, k: int, nb: int)
    requires HeapTags(m, h, start, end, max, cs, nodes) && 0 <= k < |cs| - 1 && cs[k].used
    requires MIN_CHUNK <= nb <= cs[k].size - MIN_CHUNK && nb % 8 == 0
    ensures var c, s := cs[k], Splice(cs, k, k + 1, TailPieces(cs[k], nb));
            var m' := InUse(InUse(m, c.addr, nb), c.addr + nb, c.size - nb);
            && HeapTags(m', h, start, end, max, s, nodes) && PayloadsKept(m, m', UsedChunks(cs) - {c})
            && (Feet(m, cs) ==> Feet(m', s))
            && (CleanBut(m, cs, k) ==> CleanBut(m', s, k)) && (StaleAt(m', s, k) <==> StaleAt(m, cs, k))
  {
    hide Tiles, NoAdjacentFree, Heads, ListOk, FreeNodes, UsedChunks, PayloadsKept, Feet, InUse, HeadWord;
    hide CleanBut, StaleAt, HeadOk;
    var c, s := cs[k], Splice(cs, k, k + 1, TailPieces(cs[k], nb));
    var m' := InUse(InUse(m, c.addr, nb), c.addr + nb, c.size - nb);
    TailShape(cs, start, end, k, nb);
    TailWords(m, start, end, cs, k, nb);
    TailList(m, m', h, start, end, max, cs, nodes, k, nb);
    TailPayloads(m, m', start, end, cs, k, nb);
    forall i | 0 <= i < |s| && i != k && i != k + 1
      ensures Load(m', s[i].addr + 4) == Load(m, s[i].addr + 4)
    {
      DistinctAddr(s, start, end, i, k);
      DistinctAddr(s, start, end, i, k + 1);
    }
    forall i | 0 <= i < |s| ensures Load(m', s[i].addr) == Load(m, s[i].addr) {
      TileAt(s, start, end, i);
      TileAt(s, start, end, k);
      TileAt(s, start, end, k + 1);
      OffByFour(s[i].addr, s[k].addr);
      OffByFour(s[i].addr, s[k + 1].addr);
    }
    TailHeads(m, m', start, end, cs, k, nb);
    TailClean(m, m', start, end, cs, k, nb);
    if Feet(m, cs) { TailFeet(m, m', cs, k, nb); }
  }

  lemma TailList(m: Words, m': Words, h: int, start: int, end: int, max: int, cs: seq<Chunk>, nodes: seq<int>, k: int,
                 nb: int)
    requires Bounds(h, start, end, max) && Tiles(cs, start, end) && ListOk(m, h, nodes)
             && Elements(nodes) == FreeNodes(cs)
    requires 0 <= k < |cs| && cs[k].used && MIN_CHUNK <= nb <= cs[k].size - MIN_CHUNK
    requires forall x :: x != cs[k].addr + 4 && x != cs[k].addr + nb + 4 ==> Load(m', x) == Load(m, x)
    ensures ListOk(m', h, nodes)
  {
    hide Tiles, FreeNodes, Bounds;
    TileClear(cs, h, start, end, max, k, cs[k].addr);
    TileClear(cs, h, start, end, max, k, cs[k].addr + nb);
    forall n | n in nodes
      ensures Load(m', n) == Load(m, n) && Load(m', n + 4) == Load(m, n + 4) && SizeOf(m', n) == SizeOf(m, n)
    {
      assert n in Elements(nodes);
    }
    RingFrame(m, m', h, nodes);
  }

  lemma TailPayloads(m: Words, m': Words, start: int, end: int, cs: seq<Chunk>, k: int, nb: int)
    requires Tiles(cs, start, end) && 0 <= k < |cs| && MIN_CHUNK <= nb <= cs[k].size - MIN_CHUNK
    requires forall x :: x != cs[k].addr + 4 && x != cs[k].addr + nb + 4 ==> Load(m', x) == Load(m, x)
    ensures PayloadsKept(m, m', UsedChunks(cs) - {cs[k]})
  {
  }

  /** The two heads written by the cut, and all others as before. */
  ghost predicate TailStored(m: Words, m': Words, cs: seq<Chunk>, k: int, nb: int)
    requires 0 <= k < |cs|
  {
    var c, s := cs[k], Splice(cs, k, k + 1, TailPieces(cs[k], nb));
    && (forall i :: 0 <= i < |s| && i != k && i != k + 1 ==> Load(m', s[i].addr + 4) == Load(m, s[i].addr + 4))
    && Load(m', c.addr + 4) == HeadWord(nb, true, PInuse(Load(m, c.addr + 4)))
    && Load(m', c.addr + nb + 4) == HeadWord(c.size - nb, true, true)
  }

  lemma TailHeads(m: Words, m': Words, start: int, end: int, cs: seq<Chunk>, k: int, nb: int)
    requires Tiles(cs, start, end) && Heads(m, cs) && 0 <= k < |cs| - 1 && cs[k].used && nb % 8 == 0
    requires TailStored(m, m', cs, k, nb)
    ensures Heads(m', Splice(cs, k, k + 1, TailPieces(cs[k], nb)))
  {
    hide HeadWord, HeadOk, Heads, Tiles, PInuse;
    var c, p := cs[k], TailPieces(cs[k], nb);
    var s := Splice(cs, k, k + 1, p);
    TileAt(cs, start, end, k);
    Multiples(c.size, nb);
    forall i | 0 <= i < |cs| && i != k ensures Load(m', cs[i].addr + 4) == Load(m, cs[i].addr + 4) {
      assert cs[i] == if i < k then s[i] else s[i + 1];
    }
    HeadAt(m, cs, k);
    HeadTag(Load(m, c.addr + 4), c, PrevUsed(cs, k));
    forall i | k <= i <= k + 2 ensures HeadOk(Load(m', s[i].addr + 4), s[i], PrevUsed(s, i)) {
      if i == k {
        assert s[i] == p[0] && PrevUsed(s, i) == PrevUsed(cs, k);
        HeadMade(p[0], PInuse(Load(m, c.addr + 4)), PrevUsed(cs, k));
      } else if i == k + 1 {
        assert s[i] == p[1] && PrevUsed(s, i);
        HeadMade(p[1], true, true);
      } else {
        assert s[i] == cs[k + 1] && PrevUsed(s, i) && PrevUsed(cs, k + 1);
        HeadAt(m, cs, k + 1);
      }
    }
    SpliceHeads(m, m', cs, k, k + 1, p);
  }

  lemma HeadTag(w: int, c: Chunk, prevUsed: bool)
    requires HeadOk(w, c, prevUsed)
    ensures prevUsed ==> PInuse(w)
  {
  }

  lemma TailClean(m: Words, m': Words, start: int, end: int, cs: seq<Chunk>, k: int, nb: int)
    requires Tiles(cs, start, end) && 0 <= k < |cs| - 1 && cs[k].used && nb % 8 == 0
    requires TailStored(m, m', cs, k, nb)
    ensures var s := Splice(cs, k, k + 1, TailPieces(cs[k], nb));
            && |s| == |cs| + 1 && (CleanBut(m, cs, k) ==> CleanBut(m', s, k))
            && (StaleAt(m', s, k) <==> StaleAt(m, cs, k))
  {
    hide HeadWord, Tiles, PInuse;
    var c, p := cs[k], TailPieces(cs[k], nb);
    var s := Splice(cs, k, k + 1, p);
    HeadFields(nb, true, PInuse(Load(m, c.addr + 4)));
    assert s[k] == p[0] && s[k + 1] == p[1] && PrevUsed(s, k) == PrevUsed(cs, k);
    if CleanBut(m, cs, k) {
      TailNoAdjacent(cs, k, p);
      forall i | 0 <= i < |s| && i != k ensures !StaleAt(m', s, i) {
        if i < k { assert s[i] == cs[i] && !StaleAt(m, cs, i); }
        else if i > k + 1 {
          assert s[i] == cs[i - 1] && (i > k + 2 ==> s[i - 1] == cs[i - 2]) && !StaleAt(m, cs, i - 1);
        }
      }
    }
  }

  lemma TailFeet(m: Words, m': Words, cs: seq<Chunk>, k: int, nb: int)
    requires Feet(m, cs) && 0 <= k < |cs| - 1 && cs[k].used
    requires var s := Splice(cs, k, k + 1, TailPieces(cs[k], nb));
             forall i :: 0 <= i < |s| ==> Load(m', s[i].addr) == Load(m, s[i].addr)
    ensures Feet(m', Splice(cs, k, k + 1, TailPieces(cs[k], nb)))
  {
  }

  lemma LeadAt(cs: seq<Chunk>, at: int, pos: int)
    requires 0 <= at < |cs| - 1
    ensures var s := Splice(cs, at, at + 1, LeadPieces(cs[at], pos));
            |s| == |cs| + 1 && s[at + 1] == LeadPieces(cs[at], pos)[1] && s[at + 2] == cs[at + 1]
  {
  }

  /** The tail block is not last, follows a block in use, and is the only new one besides the front. */
  lemma TailAt(cs: seq<Chunk>, start: int, end: int, k: int, nb: int)
    requires Tiles(cs, start, end) && 0 <= k < |cs| - 1 && cs[k].used && start % PAGE == 0
             && end % PAGE == 0
    requires MIN_CHUNK <= nb <= cs[k].size - MIN_CHUNK && nb % 8 == 0
    ensures var s, p := Splice(cs, k, k + 1, TailPieces(cs[k], nb)), TailPieces(cs[k], nb);
            && |s| == |cs| + 1 && s[k] == p[0] && s[k + 1] == p[1] && PrevUsed(s, k + 1)
            && !OverContracts(s, start, end, k + 1, false)
            && UsedChunks(s) == UsedChunks(cs) - {cs[k]} + {p[0], p[1]}
            && p[0] !in UsedChunks(cs) && p[1] !in UsedChunks(cs) && FreeBytes(s) == FreeBytes(cs)
  {
    hide UsedChunks, OverContracts, FreeBytes;
    var s, p := Splice(cs, k, k + 1, TailPieces(cs[k], nb)), TailPieces(cs[k], nb);
    assert s[k] == p[0] && s[k + 1] == p[1];
    TailShape(cs, start, end, k, nb);
    OverContractsWhen(s, start, end, k + 1, false);
    TailNew(cs, start, end, k, nb);
  }

  lemma TailNew(cs: seq<Chunk>, start: int, end: int, k: int, nb: int)
    requires Tiles(cs, start, end) && 0 <= k < |cs| && MIN_CHUNK <= nb <= cs[k].size - MIN_CHUNK
    ensures TailPieces(cs[k], nb)[0] !in UsedChunks(cs) && TailPieces(cs[k], nb)[1] !in UsedChunks(cs)
  {
  }

  lemma StaleWhen(m: Words, cs: seq<Chunk>, k: int)
    requires 0 <= k < |cs|
    ensures PInuse(Load(m, cs[k].addr + 4)) ==> (StaleAt(m, cs, k) <==> !PrevUsed(cs, k))
  {
  }

  lemma CleanApart(m: Words, cs: seq<Chunk>)
    ensures Clean(m, cs) ==> NoAdjacentFree(cs)
  {
  }

  lemma CleanWhen(m: Words, cs: seq<Chunk>, k: int)
    requires CleanBut(m, cs, k) && 0 <= k < |cs|
    ensures Clean(m, cs) <==> !StaleAt(m, cs, k)
  {
  }

  /** Freeing the chunk behind block k, which is in use, leaves block k where it is. */
  lemma FreedBehind(cs: seq<Chunk>, start: int, end: int, k: int)
    requires 0 <= k < |cs| - 1 && cs[k].used
    ensures var s := Freed(cs, start, end, k + 1, false); k < |s| && s[..k + 1] == cs[..k + 1]
  {
    assert Lo(k + 1, false) == k + 1;
  }

  lemma BehindStays(m: Words, m': Words, cs: seq<Chunk>, start: int, end: int, k: int)
    requires 0 <= k < |cs| - 1 && cs[k].used && Settled(m, m', cs, start, end, k + 1, false)
    ensures var s := Freed(cs, start, end, k + 1, false);
            k < |s| && s[k] == cs[k] && (StaleAt(m', s, k) <==> StaleAt(m, cs, k))
  {
    hide Freed, PInuse, Merged;
    FreedBehind(cs, start, end, k);
    var s := Freed(cs, start, end, k + 1, false);
    assert s[..k + 1][k] == cs[k] && (k > 0 ==> s[..k + 1][k - 1] == cs[k - 1]);
  }

  /** The block in front of the trimmed part ends the heap exactly when contraction gives all of that part back. */
  lemma TrimmedLast(h: int, max: int, cs: seq<Chunk>, start: int, end: int, k: int, nb: int)
    requires Tiles(cs, start, end) && Bounds(h, start, end, max) && 0 <= k < |cs| - 1 && cs[k].used
    requires MIN_CHUNK <= nb <= cs[k].size - MIN_CHUNK && nb % 8 == 0
    requires var s := Splice(cs, k, k + 1, TailPieces(cs[k], nb));
             |s| == |cs| + 1 && s[k + 1].used && !OverContracts(s, start, end, k + 1, false)
    ensures var s := Splice(cs, k, k + 1, TailPieces(cs[k], nb));
            |Freed(s, start, end, k + 1, false)| == k + 1 <==>
              && k + 2 == |cs| && !cs[k + 1].used
              && (cs[k].addr + nb - start) % PAGE == 0 && cs[k].addr + nb - start >= HEAP_MIN_SIZE
  {
    hide Tiles, OverContracts, Remains;
    var s := Splice(cs, k, k + 1, TailPieces(cs[k], nb));
    assert s[k + 1] == TailPieces(cs[k], nb)[1] && s[k + 2] == cs[k + 1];
    TailShape(cs, start, end, k, nb);
    NothingRemainsWhen(h, max, s, start, end, k + 1, false);
    TopMerged(s, start, end, k + 1, false);
  }

  /** The word whose PINUSE bit the carved header takes over was not touched by the allocation. */
  lemma InsideWord(m: Words, m': Words, start: int, end: int, cs: seq<Chunk>, at: int, nb: int)
    requires Tiles(cs, start, end) && 0 <= at < |cs| && cs[at].size >= nb + 4112 && nb >= MIN_CHUNK
    requires InsideKept(m, m', cs[at])
    ensures (cs[at].addr + 8) % PAGE != 0 ==> Load(m', LeadEnd(cs[at].addr) + 4) == Load(m, LeadEnd(cs[at].addr) + 4)
  {
    hide Tiles, LeadEnd;
    TileAt(cs, start, end, at);
    if (cs[at].addr + 8) % PAGE != 0 { LeadFits(cs[at].addr, cs[at].size, nb); }
  }

  lemma InUseMember(cs: seq<Chunk>, k: int)
    requires 0 <= k < |cs| && cs[k].used
    ensures cs[k] in UsedChunks(cs)
  {
  }

  lemma LeadFeet(m: Words, m4: Words, cs: seq<Chunk>, at: int, pos: int)
    requires Feet(m, cs) && 0 <= at < |cs| - 1 && cs[at].used
    requires var s := Splice(cs, at, at + 1, LeadPieces(cs[at], pos));
             && (forall i :: 0 <= i < |s| && i != at + 1 ==> Load(m4, s[i].addr) == Load(m, s[i].addr))
             && Load(m4, pos) == pos - cs[at].addr
    ensures Feet(m4, Splice(cs, at, at + 1, LeadPieces(cs[at], pos)))
  {
    var s := Splice(cs, at, at + 1, LeadPieces(cs[at], pos));
    forall i, j {:trigger s[i], s[j]} | 0 <= i && j == i + 1 < |s| && !s[i].used
      ensures Load(m4, s[j].addr) == s[i].size
    {
      if i < at { assert s[i] == cs[i] && s[j].addr == cs[j].addr; }
      else if i > at { assert i > at + 1 && s[i] == cs[i - 1] && s[j] == cs[j - 1]; }
    }
  }

  // ---- growth ------------------------------------------------------------------------------------

  lemma LinksSoFar(m: Words, m': Words, ns: set<int>, ns': set<int>)
    requires m' == m || OnlyLinks(m, m', ns)
    requires ns <= ns'
    ensures OnlyLinks(m, m', ns')
  {
  }

  lemma TopFacts(m: Words, h: int, start: int, end: int, max: int, cs: seq<Chunk>, nodes: seq<int>, end': int)
    requires HeapTags(m, h, start, end, max, cs, nodes)
    requires end + PAGE <= end' <= max && end' % PAGE == 0
    ensures cs != [] && h != 0 && (forall n :: n in nodes ==> n > 8)
    ensures Bounds(h, start, end', max)
  {
    TileFrame(cs, h, start, end, max);
    assert forall n :: n in nodes ==> n in Elements(nodes);
  }

  /** The highest free node belongs to the last chunk exactly when that chunk is free. */
  lemma HighestChunk(m: Words, h: int, start: int, end: int, max: int, cs: seq<Chunk>, nodes: seq<int>, tmp: int)
    requires HeapTags(m, h, start, end, max, cs, nodes) && cs != []
    requires tmp in nodes && forall n :: n in nodes ==> n <= tmp
    ensures tmp - 8 + ChunkSize(Load(m, tmp - 4)) == end <==> !cs[|cs| - 1].used
    ensures !cs[|cs| - 1].used ==> tmp - 8 == cs[|cs| - 1].addr
    ensures !CInuse(Load(m, tmp - 4))
  {
    hide Tiles, NoAdjacentFree, Heads, ListOk, FreeNodes, Bounds, ChunkSize, CInuse, HeadWord;
    var n := |cs|;
    var j := ListedChunk(m, h, start, end, max, cs, nodes, tmp);
    LastEndsHeap(cs, start, end, j);
    if !cs[n - 1].used { HoleFacts(m, h, start, end, max, cs, nodes, n - 1); }
    HoleFacts(m, h, start, end, max, cs, nodes, j);
    HeadFields(cs[j].size, false, true);
    HighestIsLast(cs, start, end, j);
  }

  lemma ListedChunk(m: Words, h: int, start: int, end: int, max: int, cs: seq<Chunk>, nodes: seq<int>, n: int)
    returns (j: int)
    requires HeapTags(m, h, start, end, max, cs, nodes) && n in nodes
    ensures 0 <= j < |cs| && !cs[j].used && cs[j].addr + 8 == n && ChunkSize(Load(m, n - 4)) == cs[j].size
  {
    hide Tiles, NoAdjacentFree, Heads, ListOk, Bounds, ChunkSize;
    assert n in Elements(nodes);
    j :| 0 <= j < |cs| && !cs[j].used && cs[j].addr + 8 == n;
    HoleFacts(m, h, start, end, max, cs, nodes, j);
  }

  lemma HighestIsLast(cs: seq<Chunk>, start: int, end: int, j: int)
    requires Tiles(cs, start, end) && 0 <= j < |cs|
    ensures cs[|cs| - 1].addr <= cs[j].addr <==> j == |cs| - 1
  {
  }

  lemma NoTopListed(cs: seq<Chunk>, start: int, end: int, nodes: seq<int>, tmp: int)
    requires Tiles(cs, start, end) && cs != [] && Elements(nodes) == FreeNodes(cs)
    requires nodes == [] || cs[|cs| - 1].used
    ensures cs[|cs| - 1].used && end + 8 !in FreeNodes(cs)
  {
    FreeNodeOf(cs, |cs| - 1);
    if nodes == [] { assert Elements(nodes) == {}; }
    FreeNodesRange(cs, start, end);
  }

  /** Shape of the grown heap, and of the words the growth path may store to. */
  lemma GrownFrame(h: int, start: int, end: int, max: int, cs: seq<Chunk>, end': int)
    requires Bounds(h, start, end, max) && Tiles(cs, start, end) && cs != []
    requires end + PAGE <= end' <= max && end' % PAGE == 0
    ensures var cs', top := Grown(cs, end, end'), Top(cs, end, end');
            && Bounds(h, start, end', max) && Tiles(cs', start, end') && (NoAdjacentFree(cs) ==> NoAdjacentFree(cs'))
            && cs'[|cs'| - 1] == top && UsedChunks(cs') == UsedChunks(cs)
            && FreeNodes(cs') == FreeNodes(cs) + {top.addr + 8}
            && Shaped(top) && Clear(top.addr, h, FreeNodes(cs'))
            && (forall n :: n in FreeNodes(cs') ==> n > 8)
            && (forall c :: c in UsedChunks(cs) ==> c.End() <= top.addr)
  {
    hide Tiles, NoAdjacentFree, FreeNodes, UsedChunks, FreeBytes;
    var cs', top := Grown(cs, end, end'), Top(cs, end, end');
    PageMultiples(end, end');
    GrownShape(cs, start, end, end', MIN_CHUNK);
    GrownSets(cs, start, end, end');
    GrownParts(cs, end, end');
    TileAt(cs', start, end', |cs'| - 1);
    TileClear(cs', h, start, end', max, |cs'| - 1, top.addr);
    TileFrame(cs', h, start, end', max);
    UsedBelowTop(cs', start, end');
  }

  lemma UsedBelowTop(cs: seq<Chunk>, start: int, end: int)
    requires Tiles(cs, start, end) && cs != [] && !cs[|cs| - 1].used
    ensures forall c :: c in UsedChunks(cs) ==> c.End() <= cs[|cs| - 1].addr
  {
  }

  lemma TopStored(m: Words, h: int, start: int, end: int, max: int, cs: seq<Chunk>, nodes: seq<int>, end': int, w: int)
    requires Bounds(h, start, end, max) && Tiles(cs, start, end) && cs != []
    requires end + PAGE <= end' <= max && end' % PAGE == 0
    requires ListOk(m, h, nodes) && Elements(nodes) == FreeNodes(cs) - {Top(cs, end, end').addr + 8}
    ensures var top := Top(cs, end, end');
            && ListOk(m[top.addr + 4 := w], h, nodes)
            && Apart(h, top.addr + 8) && forall n :: n in nodes ==> n != 0 && Apart(n, top.addr + 8)
  {
    hide Tiles, NoAdjacentFree, FreeNodes, UsedChunks, ListOk;
    var top := Top(cs, end, end');
    GrownFrame(h, start, end, max, cs, end');
    assert forall n :: n in nodes <==> n in Elements(nodes);
    HeadStoreSparesList(m, h, nodes, top.addr, w);
  }

  lemma TopListed(m0: Words, m1: Words, m3: Words, h: int, start: int, end: int, max: int, cs: seq<Chunk>,
                  nodes: seq<int>, end': int)
    requires Bounds(h, start, end, max) && Tiles(cs, start, end) && Heads(m0, cs) && cs != []
    requires end + PAGE <= end' <= max && end' % PAGE == 0
    requires OnlyLinks(m0, m1, {h} + FreeNodes(cs))
    requires var top := Top(cs, end, end');
             && OnlyLinks(m1[top.addr + 4 := top.size + 1], m3, {h, top.addr + 8} + (FreeNodes(cs) - {top.addr + 8}))
             && ListOk(m3, h, nodes) && Elements(nodes) == FreeNodes(cs) + {top.addr + 8}
    ensures HeapTags(m3, h, start, end', max, Grown(cs, end, end'), nodes)
    ensures Clean(m0, cs) ==> Clean(m3, Grown(cs, end, end'))
    ensures forall i :: 0 <= i < |cs| ==> Load(m3, cs[i].addr) == Load(m0, cs[i].addr)
    ensures PayloadsKept(m0, m3, UsedChunks(cs))
  {
    hide Tiles, NoAdjacentFree, FreeNodes, UsedChunks, ListOk, OnlyLinks, PayloadsKept, Heads, Bounds, Clear;
    hide Clean, HeadOk;
    var cs', top := Grown(cs, end, end'), Top(cs, end, end');
    var m2 := m1[top.addr + 4 := top.size + 1];
    GrownFrame(h, start, end, max, cs, end');
    StepKept(m0, m1, h, start, end', max, cs', {h} + FreeNodes(cs));
    StepKept(m2, m3, h, start, end', max, cs', {h, top.addr + 8} + (FreeNodes(cs) - {top.addr + 8}));
    HeadStoreSparesPayloads(m1, top.addr, top.size + 1, UsedChunks(cs));
    PayloadsChain(m0, m1, m2, UsedChunks(cs));
    PayloadsChain(m0, m2, m3, UsedChunks(cs));
    GrownParts(cs, end, end');
    forall i | 0 <= i < |cs'|
      ensures Load(m3, cs'[i].addr) == Load(m0, cs'[i].addr)
      ensures i < |cs'| - 1 ==> Load(m3, cs'[i].addr + 4) == Load(m0, cs'[i].addr + 4)
    {
      TileAt(cs', start, end', i);
      OffByFour(cs'[i].addr, top.addr);
      DistinctAddr(cs', start, end', i, |cs'| - 1);
    }
    forall i | 0 <= i < |cs| ensures Load(m3, cs[i].addr) == Load(m0, cs[i].addr) {
      assert cs'[i].addr == cs[i].addr;
    }
    assert Load(m3, cs'[|cs'| - 1].addr + 4) == top.size + 1;
    GrownHeads(m0, m3, end, cs, end');
    CleanApart(m0, cs);
    if Clean(m0, cs) { GrownClean(m0, m3, end, cs, end'); }
  }

  /** Growth writes nothing in the inner part of any chunk of the grown heap. */
  lemma GrownInside(m0: Words, m1: Words, m3: Words, h: int, start: int, end: int, max: int, cs: seq<Chunk>, end': int)
    requires Bounds(h, start, end, max) && Tiles(cs, start, end) && cs != []
    requires end + PAGE <= end' <= max && end' % PAGE == 0
    requires OnlyLinks(m0, m1, {h} + FreeNodes(cs))
    requires var top := Top(cs, end, end');
             OnlyLinks(m1[top.addr + 4 := top.size + 1], m3, {h, top.addr + 8} + (FreeNodes(cs) - {top.addr + 8}))
    ensures forall i :: 0 <= i < |Grown(cs, end, end')| ==> InsideKept(m0, m3, Grown(cs, end, end')[i])
  {
    hide Tiles, NoAdjacentFree, FreeNodes, UsedChunks, OnlyLinks, Bounds, Clear, InsideKept;
    var cs', top := Grown(cs, end, end'), Top(cs, end, end');
    GrownFrame(h, start, end, max, cs, end');
    forall i | 0 <= i < |cs'| ensures InsideKept(m0, m3, cs'[i]) {
      TopInside(m0, m1, m3, h, start, end', max, cs, cs', i, top);
    }
  }

  lemma TopInside(m0: Words, m1: Words, m3: Words, h: int, start: int, end: int, max: int, cs: seq<Chunk>,
                  cs': seq<Chunk>, i: int, top: Chunk)
    requires Bounds(h, start, end, max) && Tiles(cs', start, end) && 0 <= i < |cs'| && cs'[|cs'| - 1] == top
    requires FreeNodes(cs') == FreeNodes(cs) + {top.addr + 8}
    requires OnlyLinks(m0, m1, {h} + FreeNodes(cs))
    requires OnlyLinks(m1[top.addr + 4 := top.size + 1], m3, {h, top.addr + 8} + (FreeNodes(cs) - {top.addr + 8}))
    ensures InsideKept(m0, m3, cs'[i])
  {
    hide Bounds, FreeNodes, InsideKept, OnlyLinks;
    var c, m2 := cs'[i], m1[top.addr + 4 := top.size + 1];
    TilesAway(cs', h, start, end, max, i, c);
    LinksSpareInside(m0, m1, {h} + FreeNodes(cs), c);
    if i < |cs'| - 1 { assert c.End() <= top.addr; }
    HeadSparesInside(m1, top.addr + 4, top.size + 1, c);
    LinksSpareInside(m2, m3, {h, top.addr + 8} + (FreeNodes(cs) - {top.addr + 8}), c);
    InsideChain(m0, m1, m2, c, c);
    InsideChain(m0, m2, m3, c, c);
  }

  lemma DistinctAddr(cs: seq<Chunk>, start: int, end: int, i: int, j: int)
    requires Tiles(cs, start, end) && 0 <= i < |cs| && 0 <= j < |cs|
    ensures cs[i].addr == cs[j].addr <==> i == j
  {
  }

  lemma GrownHeads(m: Words, m': Words, end: int, cs: seq<Chunk>, end': int)
    requires Heads(m, cs) && cs != []
    requires var g := Grown(cs, end, end');
             && (forall i :: 0 <= i < |g| - 1 ==> Load(m', g[i].addr + 4) == Load(m, g[i].addr + 4))
             && Load(m', g[|g| - 1].addr + 4) == g[|g| - 1].size + 1 && g[|g| - 1].size % 8 == 0
    ensures Heads(m', Grown(cs, end, end'))
  {
    hide HeadWord, HeadOk, PInuse, Heads;
    var g, top, lo := Grown(cs, end, end'), Top(cs, end, end'), |BelowTop(cs)|;
    GrownAsSplice(cs, end, end');
    hide Grown, BelowTop;
    assert g[lo] == top;
    forall i | 0 <= i < lo ensures Load(m', cs[i].addr + 4) == Load(m, cs[i].addr + 4) { assert g[i] == cs[i]; }
    FreeHead(top.size);
    HeadMade(top, true, PrevUsed(g, lo));
    SpliceHeads(m, m', cs, lo, |cs|, [top]);
  }

  lemma GrownAsSplice(cs: seq<Chunk>, end: int, end': int)
    requires cs != []
    ensures var lo := |BelowTop(cs)|; lo <= |cs| && Grown(cs, end, end') == Splice(cs, lo, |cs|, [Top(cs, end, end')])
  {
  }

  lemma GrownClean(m: Words, m': Words, end: int, cs: seq<Chunk>, end': int)
    requires Clean(m, cs) && cs != []
    requires var g := Grown(cs, end, end');
             && NoAdjacentFree(g)
             && (forall i :: 0 <= i < |g| - 1 ==> Load(m', g[i].addr + 4) == Load(m, g[i].addr + 4))
    ensures Clean(m', Grown(cs, end, end'))
  {
    hide PInuse;
    var g := Grown(cs, end, end');
    var l := |g| - 1;
    forall i | 0 <= i < |g| ensures !StaleAt(m', g, i) {
      if i < l {
        assert g[i] == cs[i] && PrevUsed(g, i) == PrevUsed(cs, i) && !StaleAt(m, cs, i);
      } else {
        assert PrevUsed(g, l) by { if l > 0 { assert g[l - 1] == cs[l - 1]; } }
      }
    }
  }

  lemma FreeHead(size: int)
    ensures HeadWord(size, false, true) == size + 1
  {
  }

  lemma FreshList(m: Words, h: int, start: int)
    requires IsRing(m, h, [])
    ensures ListOk(m, h, []) && Elements([]) == {} && (Apart(h, start + 8) ==> Clear(start, h, {}))
  {
  }

  lemma SingleFoot(m: Words, c: Chunk)
    ensures Feet(m, [c])
  {
  }

  lemma OneChunkOk(m: Words, m': Words, h: int, start: int, size: int, max: int, nodes: seq<int>)
    requires Window(h, start, start + size, max) && Load(m, start + 4) == HeadWord(size, false, true)
    requires ListOk(m', h, nodes) && Elements(nodes) == {start + 8} && OnlyLinks(m, m', {h, start + 8})
    ensures var cs := [Chunk(start, size, false)];
            && Tiles(cs, start, start + size) && Clean(m', cs) && Heads(m', cs)
            && Elements(nodes) == FreeNodes(cs)
            && (HeapOk(m', h, start, start + size, max, cs, nodes) <==> size >= HEAP_MIN_SIZE)
  {
    hide Tiles, Clean, Heads, ListOk, FreeNodes, OnlyLinks, HeadWord;
    var c := Chunk(start, size, false);
    OneTiling(start, size);
    OneFreeNode(c);
    assert {h, start + 8} == {start + 8} + {h};
    LinksSpareHeader(m, m', h, {start + 8}, start);
    OneHead(m', c);
  }

  lemma OneTiling(start: int, size: int)
    requires start % PAGE == 0 && (start + size) % PAGE == 0 && size > 0
    ensures size % 8 == 0 && Tiles([Chunk(start, size, false)], start, start + size)
  {
    hide Tiles;
    PageMultiples(start + size, start);
    OneTile(Chunk(start, size, false));
  }

  lemma OneHead(m: Words, c: Chunk)
    requires !c.used && c.size % 8 == 0 && Load(m, c.addr + 4) == HeadWord(c.size, false, true)
    ensures Heads(m, [c]) && Clean(m, [c])
  {
    HeadMade(c, true, true);
  }

  lemma WidenLinks(m: Words, m': Words, ns: set<int>, ns': set<int>)
    requires OnlyLinks(m, m', ns) && ns <= ns'
    ensures OnlyLinks(m, m', ns')
  {
  }

  /** Sizes are read from words that link stores never touch. */
  lemma SizesKept(m: Words, m': Words, h: int, ns: set<int>, n: int)
    requires OnlyLinks(m, m', ns + {h}) && Apart(h, n) && forall x :: x in ns ==> SameOrApart(x, n)
    ensures SizeOf(m', n) == SizeOf(m, n)
  {
    LinksSpareHeader(m, m', h, ns, n - 8);
  }

  lemma InsertKeepsSorted(m: Words, m': Words, h: int, nodes: seq<int>, k: int, node: int)
    requires ListOk(m, h, nodes) && 0 <= k <= |nodes|
    requires Apart(h, node) && forall n :: n in nodes ==> Apart(n, node)
    requires OnlyLinks(m, m', {h, node} + Elements(nodes))
    requires forall i :: 0 <= i < k ==> SizeOf(m, nodes[i]) < SizeOf(m, node)
    requires k < |nodes| ==> SizeOf(m, node) <= SizeOf(m, nodes[k])
    ensures SortedBySize(m', InsertAt(nodes, k, node))
  {
    InsertKeepsSizes(m, m', h, nodes, node);
    hide IsRing, OnlyLinks, SizeOf, Apart;
    var r := InsertAt(nodes, k, node);
    forall i, j | 0 <= i < j < |r| ensures SizeOf(m', r[i]) <= SizeOf(m', r[j]) {
      InsertedAt(nodes, k, node, i);
      InsertedAt(nodes, k, node, j);
      hide InsertAt;
      if i == k && k < |nodes| { assert SizeOf(m, nodes[k]) <= SizeOf(m, nodes[j - 1]); }
    }
  }

  lemma InsertedAt(nodes: seq<int>, k: int, node: int, i: int)
    requires 0 <= k <= |nodes| && 0 <= i <= |nodes|
    ensures |InsertAt(nodes, k, node)| == |nodes| + 1
    ensures InsertAt(nodes, k, node)[i] == if i < k then nodes[i] else if i == k then node else nodes[i - 1]
  {
  }

  lemma InsertKeepsSizes(m: Words, m': Words, h: int, nodes: seq<int>, node: int)
    requires IsRing(m, h, nodes) && Apart(h, node) && forall n :: n in nodes ==> Apart(n, node)
    requires OnlyLinks(m, m', {h, node} + Elements(nodes))
    ensures forall n :: n in nodes || n == node ==> SizeOf(m', n) == SizeOf(m, n)
  {
    hide OnlyLinks, SizeOf;
    var all := Elements(nodes) + {node};
    assert {h, node} + Elements(nodes) == all + {h};
    forall n | n in nodes || n == node ensures SizeOf(m', n) == SizeOf(m, n) {
      forall x | x in all ensures SameOrApart(x, n) { NodesApart(h, nodes, x, n); }
      SizesKept(m, m', h, all, n);
    }
  }

  lemma NodesApart(h: int, nodes: seq<int>, x: int, y: int)
    requires Spaced(h, nodes)
    ensures x in nodes ==> Apart(h, x)
    ensures x in nodes && y in nodes ==> SameOrApart(x, y)
  {
  }

  lemma RemoveKeepsSorted(m: Words, m': Words, h: int, nodes: seq<int>, k: int)
    requires ListOk(m, h, nodes) && 0 <= k < |nodes|
    requires OnlyLinks(m, m', {h} + Elements(nodes) - {nodes[k]})
    ensures SortedBySize(m', RemoveAt(nodes, k))
  {
    WidenLinks(m, m', {h} + Elements(nodes) - {nodes[k]}, Elements(nodes) + {h});
    forall n | n in nodes ensures SizeOf(m', n) == SizeOf(m, n) {
      forall x | x in Elements(nodes) ensures SameOrApart(x, n) { NodesApart(h, nodes, x, n); }
      NodesApart(h, nodes, n, n);
      SizesKept(m, m', h, Elements(nodes), n);
    }
    var r := RemoveAt(nodes, k);
    forall i, j | 0 <= i < j < |r| ensures SizeOf(m', r[i]) <= SizeOf(m', r[j]) {
      assert r[i] == (if i < k then nodes[i] else nodes[i + 1]) && r[j] == (if j < k then nodes[j] else nodes[j + 1]);
    }
  }

  // ---- what the layout means for callers ------------------------------------------------------------

  /**
   A caller may store any word into its own payload: no tag, link or live foot is hit. Only the last word of a block
   that ends the heap is outside it.
   */
  lemma PayloadStoreHarmless(m: Words, h: int, start: int, end: int, max: int, cs: seq<Chunk>, nodes: seq<int>,
                             i: int, x: int, w: int)
    requires HeapTags(m, h, start, end, max, cs, nodes) && 0 <= i < |cs| && cs[i].used
    requires cs[i].addr + 8 <= x < cs[i].End() + 4 && x % 4 == 0
    ensures HeapTags(m[x := w], h, start, end, max, cs, nodes) && (Clean(m, cs) ==> Clean(m[x := w], cs))
    ensures x >= end <==> i == |cs| - 1 && x == cs[i].End()
    ensures Feet(m, cs) ==> Feet(m[x := w], cs)
  {
    hide Tiles, NoAdjacentFree, ListOk, FreeNodes, HeadWord, HeadOk, Clean;
    var m' := m[x := w];
    forall j | 0 <= j < |cs|
      ensures x != cs[j].addr + 4 && (j > 0 && !cs[j - 1].used ==> x != cs[j].addr)
      ensures !cs[j].used ==> x != cs[j].addr + 8 && x != cs[j].addr + 12
    {
      PayloadIsolated(cs, start, end, i, j);
    }
    TileAt(cs, start, end, i);
    LastWordOutside(cs, start, end, i, x);
    ListSparesPayload(m, h, start, end, max, cs, nodes, x, w);
    if Clean(m, cs) { CleanKept(m, m', cs); }
  }

  lemma LastWordOutside(cs: seq<Chunk>, start: int, end: int, i: int, x: int)
    requires Tiles(cs, start, end) && 0 <= i < |cs| && cs[i].addr + 8 <= x < cs[i].End() + 4 && x % 4 == 0
    ensures x >= end <==> i == |cs| - 1 && x == cs[i].End()
  {
    hide Tiles;
    TileAt(cs, start, end, i);
    LastEndsHeap(cs, start, end, i);
    if i + 1 < |cs| { TileAt(cs, start, end, i + 1); }
  }

  lemma CleanKept(m: Words, m': Words, cs: seq<Chunk>)
    requires Clean(m, cs) && forall i :: 0 <= i < |cs| ==> Load(m', cs[i].addr + 4) == Load(m, cs[i].addr + 4)
    ensures Clean(m', cs)
  {
    forall i | 0 <= i < |cs| ensures !StaleAt(m', cs, i) {
      assert !StaleAt(m, cs, i);
    }
  }

  lemma ListSparesPayload(m: Words, h: int, start: int, end: int, max: int, cs: seq<Chunk>, nodes: seq<int>, x: int,
                          w: int)
    requires HeapTags(m, h, start, end, max, cs, nodes) && start <= x < end + 4
    requires forall j :: 0 <= j < |cs| ==> x != cs[j].addr + 4
    requires forall j :: 0 <= j < |cs| && !cs[j].used ==> x != cs[j].addr + 8 && x != cs[j].addr + 12
    ensures ListOk(m[x := w], h, nodes)
  {
    hide Tiles, NoAdjacentFree, Heads;
    var m' := m[x := w];
    forall n | n in nodes
      ensures Load(m', n) == Load(m, n) && Load(m', n + 4) == Load(m, n + 4) && SizeOf(m', n) == SizeOf(m, n)
    {
      assert n in Elements(nodes);
    }
    RingFrame(m, m', h, nodes);
  }

  /**
   The foot left stale by a cut: after alloc has cut hole k of a heap with consistent feet, freeing the chunk
   behind the remainder would compute the address of the block just handed out and take it for a free chunk.
   */
  lemma StaleFootNamesTheBlock(m: Words, m': Words, cs: seq<Chunk>, start: int, end: int, k: int, nb: int)
    requires Tiles(cs, start, end) && NoAdjacentFree(cs) && Feet(m, cs)
    requires 0 <= k < |cs| - 1 && !cs[k].used && Cut(cs, k, nb) && nb >= MIN_CHUNK
    requires forall i :: 0 <= i < |cs| ==> Load(m', cs[i].addr) == Load(m, cs[i].addr)
    ensures var s := Allocated(cs, k, nb);
            && k + 2 < |s| && s[k].used && !s[k + 1].used && !FootOf(m', s, k + 2)
            && s[k + 2].addr - Load(m', s[k + 2].addr) == s[k].addr
  {
  }

  /** Freeing what was just allocated gives the same chunks back, below the top of the heap. */
  lemma AllocFreeRoundTrip(cs: seq<Chunk>, start: int, end: int, k: int, nb: int)
    requires Tiles(cs, start, end) && NoAdjacentFree(cs)
    requires 0 <= k < |cs| - 1 && !cs[k].used && cs[k].size >= nb >= MIN_CHUNK && nb % 8 == 0
    ensures k < |Allocated(cs, k, nb)| && Freed(Allocated(cs, k, nb), start, end, k, false) == cs
  {
    hide Tiles, NoAdjacentFree;
    var s := Allocated(cs, k, nb);
    HoleNeighbours(cs, k);
    TileAt(cs, start, end, k);
    LastEndsHeap(cs, start, end, k);
    RoundTripParts(cs, k, nb);
    assert cs == cs[..k] + [cs[k]] + cs[k + 1..];
  }

  lemma HoleNeighbours(cs: seq<Chunk>, k: int)
    requires NoAdjacentFree(cs) && 0 <= k < |cs| - 1 && !cs[k].used
    ensures PrevUsed(cs, k) && cs[k + 1].used
  {
  }

  lemma RoundTripParts(cs: seq<Chunk>, k: int, nb: int)
    requires 0 <= k < |cs| - 1 && !cs[k].used && cs[k + 1].used
    ensures var s := Allocated(cs, k, nb);
            && k < |s| && Merged(s, k, false) == cs[k] && s[..k] == cs[..k] && s[Hi(s, k)..] == cs[k + 1..]
  {
  }

  /** Contraction never enlarges the heap if and only if the heap has at least the minimum size. */
  lemma ContractsDownWhen(span: int)
    requires 0 < span <= W32 - PAGE && span % PAGE == 0
    ensures (forall w :: 0 <= w < span ==> ContractedSize(w) <= span) <==> span >= HEAP_MIN_SIZE
  {
    hide AlignUp;
    forall w | 0 <= w < span && span >= HEAP_MIN_SIZE ensures ContractedSize(w) <= span { ContractedAligned(w, span); }
    AlignUpPage(0);
    assert ContractedSize(0) == HEAP_MIN_SIZE;
  }

  /** In a heap of one page, contraction to nothing asks for 256 pages. */
  lemma ContractionGrowsExample()
    ensures 0x1000 % PAGE == 0 && ContractedSize(0) == 0x0010_0000 > 0x1000
  {
    hide AlignUp;
    AlignUpPage(0);
  }
}

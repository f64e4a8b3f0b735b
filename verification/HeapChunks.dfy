/**
 The chunk layout of kernel/src/mm/heap.cpp as values: a heap window is tiled by chunks, each with a
 boundary tag. Everything here is pure; the allocator that edits memory is in Heap.dfy.
 */
module HeapChunks {
  import opened Machine
  import opened CircularList

  const MIN_CHUNK := 16
  const HEAP_MIN_SIZE := 0x0010_0000

  /** request2size: 4 bytes of overhead, rounded up to 8, never below the smallest chunk; 32-bit sum. */
  function Request2Size(req: int): int
  {
    if req < 11 then MIN_CHUNK else (req + 11) % W32 / 8 * 8
  }

  /**
   A chunk of that size gives the caller `size - 4` bytes; the request fits exactly below the wrap, and then no smaller
   multiple of 8 would do.
   */
  lemma RequestFits(req: int)
    requires 0 <= req < W32
    ensures Request2Size(req) % 8 == 0 && 0 <= Request2Size(req) < W32
    ensures Request2Size(req) - 4 >= req <==> req < 0xFFFF_FFF5
    ensures req < 0xFFFF_FFF5 ==> MIN_CHUNK <= Request2Size(req) <= req + 16
    ensures Request2Size(req) == MIN_CHUNK || Request2Size(req) - 8 < req + 4
  {
  }

  /** The first request past the bound gets a chunk size of zero. */
  lemma RequestWrapExample()
    ensures Request2Size(0xFFFF_FFF4) == 0xFFFF_FFF8 && Request2Size(0xFFFF_FFF5) == 0
  {
  }

  datatype Chunk = Chunk(addr: int, size: int, used: bool) {
    function End(): int { addr + size }
  }

  predicate Shaped(c: Chunk)
  {
    c.size >= MIN_CHUNK && c.size % 8 == 0 && c.addr % 8 == 0
  }

  /** The chunks lie end to end from `a` to `b`, 8-aligned, none below the smallest size. */
  ghost predicate Tiles(cs: seq<Chunk>, a: int, b: int)
  {
    && (if cs == [] then a == b else cs[0].addr == a && cs[|cs| - 1].End() == b)
    && (forall i :: 0 <= i < |cs| ==>
          Shaped(cs[i]) && a <= cs[i].addr && cs[i].addr + MIN_CHUNK <= cs[i].End() <= b)
    && (forall i, j {:trigger cs[i], cs[j]} :: 0 <= i < j < |cs| ==> cs[i].End() <= cs[j].addr)
    && (forall i, j {:trigger cs[i], cs[j]} :: 0 <= i && j == i + 1 < |cs| ==> cs[j].addr == cs[i].End())
  }

  ghost predicate NoAdjacentFree(cs: seq<Chunk>)
  {
    forall i, j {:trigger cs[i], cs[j]} :: 0 <= i && j == i + 1 < |cs| ==> cs[i].used || cs[j].used
  }

  /** Where chunk i starts, or the end of the heap for i == |cs|. */
  ghost function Edge(cs: seq<Chunk>, i: int, end: int): int
    requires 0 <= i <= |cs|
  {
    if i < |cs| then cs[i].addr else end
  }

  ghost function Splice(cs: seq<Chunk>, lo: int, hi: int, repl: seq<Chunk>): seq<Chunk>
    requires 0 <= lo <= hi <= |cs|
  {
    cs[..lo] + repl + cs[hi..]
  }

  lemma SpliceTiles(cs: seq<Chunk>, a: int, b: int, lo: int, hi: int, repl: seq<Chunk>)
    requires Tiles(cs, a, b) && 0 <= lo <= hi <= |cs|
    requires Tiles(repl, Edge(cs, lo, b), Edge(cs, hi, b))
    ensures Tiles(Splice(cs, lo, hi, repl), a, b)
  {
    hide Tiles;
    EndSlicesTile(cs, a, b, lo);
    EndSlicesTile(cs, a, b, hi);
    JoinTiles(cs[..lo], repl, a, Edge(cs, lo, b), Edge(cs, hi, b));
    JoinTiles(cs[..lo] + repl, cs[hi..], a, Edge(cs, hi, b), b);
  }

  lemma JoinTiles(s: seq<Chunk>, t: seq<Chunk>, a: int, b: int, c: int)
    requires Tiles(s, a, b) && Tiles(t, b, c)
    ensures Tiles(s + t, a, c)
  {
    assert a <= b <= c by {
      if s != [] { assert s[0].End() <= b; }
      if t != [] { assert t[0].End() <= c; }
    }
  }

  // ---- what is free, what is in use -------------------------------------------------------------

  /** List-node addresses of the free chunks. */
  ghost function FreeNodes(cs: seq<Chunk>): set<int>
  {
    set i | 0 <= i < |cs| && !cs[i].used :: cs[i].addr + 8
  }

  ghost function UsedChunks(cs: seq<Chunk>): set<Chunk>
  {
    set c | c in cs && c.used
  }

  ghost function FreeBytes(cs: seq<Chunk>): int
  {
    if cs == [] then 0 else (if cs[0].used then 0 else cs[0].size) + FreeBytes(cs[1..])
  }

  lemma {:induction false} FreeBytesJoin(s: seq<Chunk>, t: seq<Chunk>)
    ensures FreeBytes(s + t) == FreeBytes(s) + FreeBytes(t)
  {
    if s == [] {
      assert s + t == t;
    } else {
      assert (s + t)[1..] == s[1..] + t;
      FreeBytesJoin(s[1..], t);
    }
  }

  lemma FreeNodesJoin(s: seq<Chunk>, t: seq<Chunk>)
    ensures FreeNodes(s + t) == FreeNodes(s) + FreeNodes(t)
  {
    forall x | x in FreeNodes(s) ensures x in FreeNodes(s + t) {
      var i :| 0 <= i < |s| && !s[i].used && s[i].addr + 8 == x;
      assert (s + t)[i] == s[i];
    }
    forall x | x in FreeNodes(t) ensures x in FreeNodes(s + t) {
      var i :| 0 <= i < |t| && !t[i].used && t[i].addr + 8 == x;
      assert (s + t)[|s| + i] == t[i];
    }
  }

  lemma FreeNodesRange(cs: seq<Chunk>, a: int, b: int)
    requires Tiles(cs, a, b)
    ensures forall n :: n in FreeNodes(cs) ==> a + 8 <= n <= b - 8
    ensures forall i :: 0 <= i < |cs| && cs[i].used ==> cs[i].addr + 8 !in FreeNodes(cs)
  {
  }

  lemma FreeNodeOf(cs: seq<Chunk>, i: int)
    requires 0 <= i < |cs|
    ensures !cs[i].used ==> cs[i].addr + 8 in FreeNodes(cs)
  {
  }

  lemma UsedJoin(s: seq<Chunk>, t: seq<Chunk>)
    ensures UsedChunks(s + t) == UsedChunks(s) + UsedChunks(t)
  {
  }

  lemma SliceTiles(cs: seq<Chunk>, a: int, b: int, lo: int, hi: int)
    requires Tiles(cs, a, b) && 0 <= lo <= hi <= |cs|
    ensures Tiles(cs[lo..hi], Edge(cs, lo, b), Edge(cs, hi, b))
  {
    var s := cs[lo..hi];
    assert forall i :: 0 <= i < |s| ==> s[i] == cs[lo + i];
  }

  lemma TileAt(cs: seq<Chunk>, a: int, b: int, k: int)
    requires Tiles(cs, a, b) && 0 <= k < |cs|
    ensures Shaped(cs[k]) && Edge(cs, k, b) == cs[k].addr && Edge(cs, k + 1, b) == cs[k].End()
    ensures a <= cs[k].addr && cs[k].End() <= b
  {
  }

  lemma OneTile(c: Chunk)
    requires Shaped(c)
    ensures Tiles([c], c.addr, c.End())
  {
  }

  lemma PrefixTiles(cs: seq<Chunk>, a: int, b: int, k: int)
    requires Tiles(cs, a, b) && 0 <= k <= |cs|
    ensures Tiles(cs[..k], a, Edge(cs, k, b))
  {
  }

  lemma EndSlicesTile(cs: seq<Chunk>, a: int, b: int, k: int)
    requires Tiles(cs, a, b) && 0 <= k <= |cs|
    ensures Tiles(cs[..k], a, Edge(cs, k, b)) && Tiles(cs[k..], Edge(cs, k, b), b)
  {
    hide Tiles;
    assert cs[k..] == cs[k..|cs|];
    SliceTiles(cs, a, b, k, |cs|);
    PrefixTiles(cs, a, b, k);
  }

  /** Chunks on different sides of an edge are different chunks. */
  lemma SidesDiffer(s: seq<Chunk>, t: seq<Chunk>, a: int, b: int, c: int)
    requires Tiles(s, a, b) && Tiles(t, b, c)
    ensures FreeNodes(s) !! FreeNodes(t) && UsedChunks(s) !! UsedChunks(t)
  {
  }

  /** Effect of a splice on the free bytes. */
  lemma SpliceBytes(cs: seq<Chunk>, lo: int, hi: int, repl: seq<Chunk>)
    requires 0 <= lo <= hi <= |cs|
    ensures FreeBytes(Splice(cs, lo, hi, repl)) == FreeBytes(cs) - FreeBytes(cs[lo..hi]) + FreeBytes(repl)
  {
    var x, y, z := cs[..lo], cs[lo..hi], cs[hi..];
    assert cs == x + y + z;
    FreeBytesJoin(x, y);
    FreeBytesJoin(x + y, z);
    FreeBytesJoin(x, repl);
    FreeBytesJoin(x + repl, z);
  }

  /** Effect of a splice on the free nodes and on the chunks in use. */
  lemma SpliceFree(cs: seq<Chunk>, a: int, b: int, lo: int, hi: int, repl: seq<Chunk>)
    requires Tiles(cs, a, b) && 0 <= lo <= hi <= |cs|
    ensures FreeNodes(Splice(cs, lo, hi, repl)) == FreeNodes(cs) - FreeNodes(cs[lo..hi]) + FreeNodes(repl)
    ensures UsedChunks(Splice(cs, lo, hi, repl)) == UsedChunks(cs) - UsedChunks(cs[lo..hi]) + UsedChunks(repl)
  {
    hide Tiles, FreeNodes, UsedChunks;
    var x, y, z := cs[..lo], cs[lo..hi], cs[hi..];
    assert FreeNodes(x) !! FreeNodes(y) && UsedChunks(x) !! UsedChunks(y) by {
      EndSlicesTile(cs, a, b, lo);
      SliceTiles(cs, a, b, lo, hi);
      SidesDiffer(x, y, a, Edge(cs, lo, b), Edge(cs, hi, b));
    }
    assert FreeNodes(y) !! FreeNodes(z) && UsedChunks(y) !! UsedChunks(z) by {
      SliceTiles(cs, a, b, lo, hi);
      EndSlicesTile(cs, a, b, hi);
      SidesDiffer(y, z, Edge(cs, lo, b), Edge(cs, hi, b), b);
    }
    SetsOfThree(x, repl, z);
    assert cs == x + y + z;
    SetsOfThree(x, y, z);
  }

  lemma SetsOfThree(x: seq<Chunk>, y: seq<Chunk>, z: seq<Chunk>)
    ensures FreeNodes(x + y + z) == FreeNodes(x) + FreeNodes(y) + FreeNodes(z)
    ensures UsedChunks(x + y + z) == UsedChunks(x) + UsedChunks(y) + UsedChunks(z)
  {
    FreeNodesJoin(x, y);
    FreeNodesJoin(x + y, z);
    UsedJoin(x, y);
    UsedJoin(x + y, z);
  }

  // ---- boundary tags ----------------------------------------------------------------------------

  /** head: size | CINUSE (2) | PINUSE (1) */
  function HeadWord(size: int, used: bool, prevUsed: bool): int
  {
    size + (if used then 2 else 0) + (if prevUsed then 1 else 0)
  }

  function ChunkSize(head: int): int { head - head % 8 }

  predicate PInuse(head: int) { head % 2 == 1 }

  predicate CInuse(head: int) { head / 2 % 2 == 1 }

  lemma HeadFields(size: int, used: bool, prevUsed: bool)
    requires size % 8 == 0
    ensures ChunkSize(HeadWord(size, used, prevUsed)) == size
    ensures CInuse(HeadWord(size, used, prevUsed)) == used && PInuse(HeadWord(size, used, prevUsed)) == prevUsed
  {
  }

  ghost function PrevUsed(cs: seq<Chunk>, i: int): bool
    requires 0 <= i <= |cs|
  {
    i == 0 || cs[i - 1].used
  }

  /**
   The head word of c: size and CINUSE are right, and PINUSE is set if the chunk in front is in use, and in every free
   chunk. PINUSE may also be set where it should not be.
   */
  ghost predicate HeadOk(w: int, c: Chunk, prevUsed: bool)
  {
    w == HeadWord(c.size, c.used, PInuse(w)) && (prevUsed || !c.used ==> PInuse(w))
  }

  ghost predicate Heads(m: Words, cs: seq<Chunk>)
  {
    forall i :: 0 <= i < |cs| ==> HeadOk(Load(m, cs[i].addr + 4), cs[i], PrevUsed(cs, i))
  }

  /** PINUSE of chunk i is set although the chunk in front is free. */
  ghost predicate StaleAt(m: Words, cs: seq<Chunk>, i: int)
    requires 0 <= i < |cs|
  {
    !PrevUsed(cs, i) && PInuse(Load(m, cs[i].addr + 4))
  }

  /** No two free chunks touch, and no PINUSE bit is stale. */
  ghost predicate Clean(m: Words, cs: seq<Chunk>) { CleanBut(m, cs, -1) }

  /** The same, except for the PINUSE bit of chunk k. */
  ghost predicate CleanBut(m: Words, cs: seq<Chunk>, k: int)
  {
    NoAdjacentFree(cs) && forall i :: 0 <= i < |cs| && i != k ==> !StaleAt(m, cs, i)
  }

  /** prevFoot of the chunk after each free chunk holds that free chunk's size. */
  ghost predicate Feet(m: Words, cs: seq<Chunk>)
  {
    forall i, j {:trigger cs[i], cs[j]} :: 0 <= i && j == i + 1 < |cs| && !cs[i].used ==>
      Load(m, cs[j].addr) == cs[i].size
  }

  /** Rebuilds the head invariant after a splice, from the words that had to change. */
  lemma SpliceHeads(m: Words, m': Words, cs: seq<Chunk>, lo: int, hi: int, repl: seq<Chunk>)
    requires Heads(m, cs) && 0 <= lo <= hi <= |cs|
    requires forall i :: 0 <= i < lo ==> Load(m', cs[i].addr + 4) == Load(m, cs[i].addr + 4)
    requires forall i :: hi < i < |cs| ==> Load(m', cs[i].addr + 4) == Load(m, cs[i].addr + 4)
    requires var s := Splice(cs, lo, hi, repl);
             forall i :: lo <= i < |s| && i <= lo + |repl| ==>
               HeadOk(Load(m', s[i].addr + 4), s[i], PrevUsed(s, i))
    ensures Heads(m', Splice(cs, lo, hi, repl))
  {
    hide HeadOk;
    var s := Splice(cs, lo, hi, repl);
    forall i | 0 <= i < |s|
      ensures HeadOk(Load(m', s[i].addr + 4), s[i], PrevUsed(s, i))
    {
      if i < lo {
        assert s[i] == cs[i] && PrevUsed(s, i) == PrevUsed(cs, i);
      } else if i > lo + |repl| {
        var k := i - lo - |repl| + hi;
        assert s[i] == cs[k] && s[i - 1] == cs[k - 1];
      }
    }
  }

  // ---- allocation -------------------------------------------------------------------------------

  /** The heap after growing from `end` to `end'`: the top free chunk is stretched, or a new one appended. */
  ghost function Grown(cs: seq<Chunk>, end: int, end': int): seq<Chunk>
    requires cs != []
  {
    var last := cs[|cs| - 1];
    if last.used then cs + [Chunk(end, end' - end, false)]
    else cs[|cs| - 1 := Chunk(last.addr, end' - last.addr, false)]
  }

  /** Whether chunk k is cut in two for a request of `nb` bytes. */
  predicate Cut(cs: seq<Chunk>, k: int, nb: int)
    requires 0 <= k < |cs|
  {
    cs[k].size >= nb + MIN_CHUNK
  }

  /** The part of a hole that is handed out. */
  function Front(c: Chunk, nb: int): Chunk
  {
    if c.size >= nb + MIN_CHUNK then Chunk(c.addr, nb, true) else c.(used := true)
  }

  ghost function Pieces(c: Chunk, nb: int): seq<Chunk>
  {
    if c.size >= nb + MIN_CHUNK then [Front(c, nb), Chunk(c.addr + nb, c.size - nb, false)] else [Front(c, nb)]
  }

  ghost function Allocated(cs: seq<Chunk>, k: int, nb: int): seq<Chunk>
    requires 0 <= k < |cs|
  {
    Splice(cs, k, k + 1, Pieces(cs[k], nb))
  }

  ghost predicate Fits(cs: seq<Chunk>, nb: int)
  {
    exists i :: 0 <= i < |cs| && !cs[i].used && cs[i].size >= nb
  }

  /** A smallest free chunk among those that fit. */
  ghost predicate BestFit(cs: seq<Chunk>, k: int, nb: int)
  {
    && 0 <= k < |cs| && !cs[k].used && cs[k].size >= nb
    && forall j :: 0 <= j < |cs| && !cs[j].used && cs[j].size >= nb ==> cs[k].size <= cs[j].size
  }

  ghost function Top(cs: seq<Chunk>, end: int, end': int): Chunk
    requires cs != []
  {
    var last := cs[|cs| - 1];
    if last.used then Chunk(end, end' - end, false) else Chunk(last.addr, end' - last.addr, false)
  }

  ghost function BelowTop(cs: seq<Chunk>): seq<Chunk>
    requires cs != []
  {
    if cs[|cs| - 1].used then cs else cs[..|cs| - 1]
  }

  lemma GrownParts(cs: seq<Chunk>, end: int, end': int)
    requires cs != []
    ensures Grown(cs, end, end') == BelowTop(cs) + [Top(cs, end, end')]
    ensures !cs[|cs| - 1].used ==> cs == BelowTop(cs) + [cs[|cs| - 1]]
  {
  }

  /** Growth keeps the tiling and every chunk in use, and leaves a chunk that fits. */
  lemma GrownShape(cs: seq<Chunk>, start: int, end: int, end': int, nb: int)
    requires Tiles(cs, start, end) && cs != []
    requires end + nb <= end' && end % 8 == 0 && end' % 8 == 0 && nb >= MIN_CHUNK
    ensures Tiles(Grown(cs, end, end'), start, end')
    ensures NoAdjacentFree(cs) ==> NoAdjacentFree(Grown(cs, end, end'))
    ensures Fits(Grown(cs, end, end'), nb)
  {
    hide Tiles;
    var top, g, n := Top(cs, end, end'), Grown(cs, end, end'), |cs|;
    GrownParts(cs, end, end');
    TileAt(cs, start, end, n - 1);
    Multiples(end', end);
    Multiples(end', cs[n - 1].addr);
    OneTile(top);
    EndSlicesTile(cs, start, end, n - 1);
    JoinTiles(BelowTop(cs), [top], start, top.addr, end');
    assert g[|g| - 1] == top && top.size >= nb;
    if NoAdjacentFree(cs) {
      forall i, j {:trigger g[i], g[j]} | 0 <= i && j == i + 1 < |g| ensures g[i].used || g[j].used {
        assert g[i] == cs[i] && (j < n ==> g[j].used == cs[j].used);
      }
    }
  }

  lemma GrownSets(cs: seq<Chunk>, start: int, end: int, end': int)
    requires Tiles(cs, start, end) && cs != []
    ensures UsedChunks(Grown(cs, end, end')) == UsedChunks(cs)
    ensures FreeBytes(Grown(cs, end, end')) == FreeBytes(cs) + end' - end
    ensures FreeNodes(Grown(cs, end, end')) == FreeNodes(cs) + {Top(cs, end, end').addr + 8}
  {
    hide Tiles, FreeNodes, UsedChunks, FreeBytes, Grown;
    var last, top := cs[|cs| - 1], Top(cs, end, end');
    GrownParts(cs, end, end');
    TileAt(cs, start, end, |cs| - 1);
    JoinOne(BelowTop(cs), top);
    JoinOne(BelowTop(cs), last);
  }

  lemma JoinOne(s: seq<Chunk>, c: Chunk)
    ensures FreeBytes(s + [c]) == FreeBytes(s) + if c.used then 0 else c.size
    ensures FreeNodes(s + [c]) == FreeNodes(s) + if c.used then {} else {c.addr + 8}
    ensures UsedChunks(s + [c]) == UsedChunks(s) + if c.used then {c} else {}
  {
    hide FreeNodes, UsedChunks, FreeBytes;
    OneFreeNode(c);
    OneUsed(c);
    FreeBytesJoin(s, [c]);
    FreeNodesJoin(s, [c]);
    UsedJoin(s, [c]);
  }

  lemma PiecesShape(c: Chunk, nb: int)
    requires !c.used && c.size >= nb >= MIN_CHUNK && nb % 8 == 0 && c.size % 8 == 0 && c.addr % 8 == 0
    ensures Tiles(Pieces(c, nb), c.addr, c.End())
    ensures UsedChunks(Pieces(c, nb)) == {Front(c, nb)}
    ensures FreeBytes(Pieces(c, nb)) == c.size - Front(c, nb).size
    ensures FreeNodes(Pieces(c, nb)) == if c.size >= nb + MIN_CHUNK then {c.addr + nb + 8} else {}
  {
    hide Tiles, FreeNodes, UsedChunks, FreeBytes;
    var p := Pieces(c, nb);
    OneFreeNode(p[0]);
    OneUsed(p[0]);
    OneTile(p[0]);
    if c.size >= nb + MIN_CHUNK {
      assert p == [p[0]] + [p[1]];
      Multiples(c.addr, nb);
      Multiples(c.size, nb);
      OneTile(p[1]);
      JoinTiles([p[0]], [p[1]], c.addr, c.addr + nb, c.End());
      OneFreeNode(p[1]);
      OneUsed(p[1]);
      FreeBytesJoin([p[0]], [p[1]]);
      FreeNodesJoin([p[0]], [p[1]]);
      UsedJoin([p[0]], [p[1]]);
    }
  }

  /** Allocation keeps the tiling, adds exactly one chunk in use and takes its bytes from the free ones. */
  lemma AllocatedShape(cs: seq<Chunk>, start: int, end: int, k: int, nb: int)
    requires Tiles(cs, start, end)
    requires 0 <= k < |cs| && !cs[k].used && cs[k].size >= nb >= MIN_CHUNK && nb % 8 == 0
    ensures Tiles(Allocated(cs, k, nb), start, end)
    ensures NoAdjacentFree(cs) ==> NoAdjacentFree(Allocated(cs, k, nb))
    ensures UsedChunks(Allocated(cs, k, nb)) == UsedChunks(cs) + {Front(cs[k], nb)}
    ensures Front(cs[k], nb) !in UsedChunks(cs)
    ensures FreeBytes(Allocated(cs, k, nb)) == FreeBytes(cs) - Front(cs[k], nb).size
    ensures FreeNodes(Allocated(cs, k, nb)) ==
            FreeNodes(cs) - {cs[k].addr + 8} + (if Cut(cs, k, nb) then {cs[k].addr + nb + 8} else {})
  {
    hide FreeNodes, UsedChunks, FreeBytes, NoAdjacentFree, Pieces, Tiles;
    var repl := Pieces(cs[k], nb);
    TileAt(cs, start, end, k);
    AllocatedFresh(cs, start, end, k, nb);
    PiecesShape(cs[k], nb);
    SpliceTiles(cs, start, end, k, k + 1, repl);
    SpliceBytes(cs, k, k + 1, repl);
    SpliceFree(cs, start, end, k, k + 1, repl);
    assert cs[k..k + 1] == [cs[k]];
    OneFreeNode(cs[k]);
    OneUsed(cs[k]);
    if NoAdjacentFree(cs) { AllocatedNoAdjacent(cs, k, nb); }
  }

  lemma AllocatedFresh(cs: seq<Chunk>, start: int, end: int, k: int, nb: int)
    requires Tiles(cs, start, end) && 0 <= k < |cs| && !cs[k].used
    ensures Front(cs[k], nb) !in UsedChunks(cs)
  {
  }

  lemma NoChunks()
    ensures UsedChunks([]) == {} && FreeNodes([]) == {} && FreeBytes([]) == 0
  {
  }

  lemma OneUsed(c: Chunk)
    ensures UsedChunks([c]) == if c.used then {c} else {}
  {
  }

  lemma AllocatedNoAdjacent(cs: seq<Chunk>, k: int, nb: int)
    requires NoAdjacentFree(cs) && 0 <= k < |cs| && !cs[k].used
    ensures NoAdjacentFree(Allocated(cs, k, nb))
  {
  }

  lemma OneFreeNode(c: Chunk)
    ensures FreeNodes([c]) == if c.used then {} else {c.addr + 8}
    ensures FreeBytes([c]) == if c.used then 0 else c.size
  {
  }

  /**
   alloc never rewrites prevFoot of the chunk behind the remainder. So if no foot word moves, the feet
   stay consistent exactly when the chosen hole is not cut, or is the top chunk.
   */
  lemma FeetAfterAlloc(m: Words, m': Words, cs: seq<Chunk>, start: int, end: int, k: int, nb: int)
    requires Tiles(cs, start, end) && Feet(m, cs)
    requires 0 <= k < |cs| && !cs[k].used && cs[k].size >= nb >= MIN_CHUNK && nb % 8 == 0
    requires forall i :: 0 <= i < |cs| ==> Load(m', cs[i].addr) == Load(m, cs[i].addr)
    ensures Feet(m', Allocated(cs, k, nb)) <==> (k == |cs| - 1 || !Cut(cs, k, nb))
  {
    var s, repl := Allocated(cs, k, nb), Pieces(cs[k], nb);
    var d := |repl| - 1;
    if Cut(cs, k, nb) && k < |cs| - 1 {
      assert s[k + 1] == repl[1] && s[k + 2] == cs[k + 1];
      assert Load(m', cs[k + 1].addr) == cs[k].size;
      assert Load(m', s[k + 2].addr) != s[k + 1].size;
    } else {
      forall i, j {:trigger s[i], s[j]} | 0 <= i && j == i + 1 < |s| && !s[i].used
        ensures Load(m', s[j].addr) == s[i].size
      {
        if i < k { assert s[i] == cs[i] && s[j].addr == cs[j].addr; }
        else { assert s[i] == cs[i - d] && s[j] == cs[j - d]; }
      }
    }
  }

  // ---- release ----------------------------------------------------------------------------------

  /** Chunk i is in use and, if it is joined backwards, follows a free chunk. */
  ghost predicate Joinable(cs: seq<Chunk>, i: int, back: bool)
  {
    0 <= i < |cs| && cs[i].used && (back ==> i > 0 && !cs[i - 1].used)
  }

  /** First chunk of the merged block; `back` says that PINUSE of chunk i is clear. */
  ghost function Lo(i: int, back: bool): int { if back then i - 1 else i }

  ghost function Hi(cs: seq<Chunk>, i: int): int
    requires 0 <= i < |cs|
  {
    if i + 1 < |cs| && !cs[i + 1].used then i + 2 else i + 1
  }

  /** Chunk i together with the free neighbours on either side. */
  ghost function Merged(cs: seq<Chunk>, i: int, back: bool): Chunk
    requires 0 <= i < |cs| && (back ==> i > 0)
  {
    var a := cs[Lo(i, back)].addr;
    Chunk(a, cs[Hi(cs, i) - 1].End() - a, false)
  }

  /** Size that free asks contract for, when the merged block reaches the end of the heap. */
  function Wanted(start: int, block: int): int
  {
    if (block - start) % PAGE != 0 then block - start + MIN_CHUNK else block - start
  }

  function ContractedSize(newSize: int): int
  {
    if AlignUp(newSize, PAGE) < HEAP_MIN_SIZE then HEAP_MIN_SIZE else AlignUp(newSize, PAGE)
  }

  /** End of the heap after freeing chunk i. */
  ghost function FreedEnd(cs: seq<Chunk>, start: int, end: int, i: int, back: bool): int
    requires 0 <= i < |cs| && (back ==> i > 0)
  {
    if Merged(cs, i, back).End() == end then start + ContractedSize(Wanted(start, Merged(cs, i, back).addr)) else end
  }

  /** What is left of the merged block: all of it, its part below the new end, or nothing. */
  ghost function Remains(cs: seq<Chunk>, start: int, end: int, i: int, back: bool): seq<Chunk>
    requires 0 <= i < |cs| && (back ==> i > 0)
  {
    var b := Merged(cs, i, back);
    var e := FreedEnd(cs, start, end, i, back);
    if b.End() != end then [b] else if e > b.addr then [Chunk(b.addr, e - b.addr, false)] else []
  }

  ghost function Freed(cs: seq<Chunk>, start: int, end: int, i: int, back: bool): seq<Chunk>
    requires 0 <= i < |cs| && (back ==> i > 0)
  {
    Splice(cs, Lo(i, back), Hi(cs, i), Remains(cs, start, end, i, back))
  }

  /** Page arithmetic of contraction: the new end lies between the block and the old end. */
  lemma ContractionFits(start: int, end: int, block: int)
    requires 0 < start && start % PAGE == 0 && end % PAGE == 0 && end - start >= HEAP_MIN_SIZE
    requires start <= block && block % 8 == 0 && Wanted(start, block) < end - start && end < W32 - PAGE
    ensures var e := start + ContractedSize(Wanted(start, block));
            && start < e <= end && (e - start) % PAGE == 0 && e - start >= HEAP_MIN_SIZE
            && (e == block || e >= block + MIN_CHUNK) && (e - block) % 8 == 0
  {
    hide ContractedSize, Wanted;
    var w, d := Wanted(start, block), block - start;
    var c := ContractedSize(w);
    WantedBounds(start, block);
    PageMultiples(end, start);
    ContractedAligned(w, end - start);
    PageMultiples(c, start);
    assert (start + c - block) % 8 == 0 by { Multiples(c, start); Multiples(start + c, block); }
    if w == d { GapOfPage(c, d); }
  }

  lemma WantedBounds(start: int, block: int)
    ensures var w, d := Wanted(start, block), block - start; w == d + MIN_CHUNK || (w == d && d % PAGE == 0)
  {
  }

  lemma ContractedAligned(w: int, span: int)
    requires 0 <= w <= span <= W32 - PAGE && span % PAGE == 0 && span >= HEAP_MIN_SIZE
    ensures ContractedSize(w) % PAGE == 0 && HEAP_MIN_SIZE <= ContractedSize(w) <= span && w <= ContractedSize(w)
  {
    hide AlignUp;
    AlignUpPage(w);
    PageMultiples(AlignUp(w, PAGE), span);
  }

  /**
   Freeing chunk i: the chunks tile the (possibly shorter) heap again, exactly chunk i left the set in use, and the
   free bytes grew by its size minus what contraction gave back.
   */
  lemma FreedShape(cs: seq<Chunk>, start: int, end: int, i: int, back: bool)
    requires Tiles(cs, start, end) && Joinable(cs, i, back)
    requires 0 < start && start % PAGE == 0 && end % PAGE == 0 && end - start >= HEAP_MIN_SIZE && end < W32 - PAGE
    requires Merged(cs, i, back).End() == end ==> Wanted(start, Merged(cs, i, back).addr) < end - start
    ensures var e, s := FreedEnd(cs, start, end, i, back), Freed(cs, start, end, i, back);
            && Tiles(s, start, e)
            && start < e <= end && (e - start) % PAGE == 0 && e - start >= HEAP_MIN_SIZE
            && UsedChunks(s) == UsedChunks(cs) - {cs[i]}
            && FreeBytes(s) == FreeBytes(cs) + cs[i].size - (end - e)
    ensures FreeNodes(Freed(cs, start, end, i, back)) ==
            FreeNodes(cs) - FreeNodes(cs[Lo(i, back)..Hi(cs, i)]) + FreeNodes(Remains(cs, start, end, i, back))
  {
    hide Tiles, FreeNodes, UsedChunks, FreeBytes, NoAdjacentFree;
    var lo, hi, b, e := Lo(i, back), Hi(cs, i), Merged(cs, i, back), FreedEnd(cs, start, end, i, back);
    var repl := Remains(cs, start, end, i, back);
    Contiguous(cs, start, end);
    MergedParts(cs, i, back);
    SpliceBytes(cs, lo, hi, repl);
    SpliceFree(cs, start, end, lo, hi, repl);
    FreedTiles(cs, start, end, i, back);
    if repl != [] { OneFreeNode(repl[0]); OneUsed(repl[0]); } else { NoChunks(); }
  }

  lemma FreedTiles(cs: seq<Chunk>, start: int, end: int, i: int, back: bool)
    requires Tiles(cs, start, end) && Joinable(cs, i, back)
    requires 0 < start && start % PAGE == 0 && end % PAGE == 0 && end - start >= HEAP_MIN_SIZE && end < W32 - PAGE
    requires Merged(cs, i, back).End() == end ==> Wanted(start, Merged(cs, i, back).addr) < end - start
    ensures var e := FreedEnd(cs, start, end, i, back);
            && Tiles(Freed(cs, start, end, i, back), start, e)
            && start < e <= end && (e - start) % PAGE == 0 && e - start >= HEAP_MIN_SIZE
            && FreeBytes(Remains(cs, start, end, i, back)) == Merged(cs, i, back).size - (end - e)
  {
    hide Tiles, NoAdjacentFree, FreeBytes, Wanted, ContractedSize, Lo, Hi, Merged;
    if Merged(cs, i, back).End() == end {
      FreedTopTiles(cs, start, end, i, back);
    } else {
      assert Remains(cs, start, end, i, back) == [Merged(cs, i, back)];
      OneFreeNode(Merged(cs, i, back));
      MergedNotUsed(cs, i, back);
      MergedTile(cs, start, end, i, back);
      SpliceTiles(cs, start, end, Lo(i, back), Hi(cs, i), [Merged(cs, i, back)]);
    }
  }

  lemma MergedNotUsed(cs: seq<Chunk>, i: int, back: bool)
    requires 0 <= i < |cs| && (back ==> i > 0)
    ensures !Merged(cs, i, back).used && 0 <= Lo(i, back) <= i < Hi(cs, i) <= |cs|
  {
  }

  lemma FreedTopTiles(cs: seq<Chunk>, start: int, end: int, i: int, back: bool)
    requires Tiles(cs, start, end) && 0 <= i < |cs| && (back ==> i > 0) && Merged(cs, i, back).End() == end
    requires 0 < start && start % PAGE == 0 && end % PAGE == 0 && end - start >= HEAP_MIN_SIZE && end < W32 - PAGE
    requires Wanted(start, Merged(cs, i, back).addr) < end - start
    ensures var e := FreedEnd(cs, start, end, i, back);
            && Tiles(Freed(cs, start, end, i, back), start, e)
            && start < e <= end && (e - start) % PAGE == 0 && e - start >= HEAP_MIN_SIZE
            && FreeBytes(Remains(cs, start, end, i, back)) == Merged(cs, i, back).size - (end - e)
  {
    hide Tiles, Wanted, ContractedSize, FreeBytes;
    var lo, b, e := Lo(i, back), Merged(cs, i, back), FreedEnd(cs, start, end, i, back);
    var repl := Remains(cs, start, end, i, back);
    TopMerged(cs, start, end, i, back);
    ContractionFits(start, end, b.addr);
    EndSlicesTile(cs, start, end, lo);
    if repl != [] {
      OneTile(repl[0]);
      OneFreeNode(repl[0]);
    } else {
      NoTiles(e);
      NoChunks();
    }
    JoinTiles(cs[..lo], repl, start, b.addr, e);
    assert Freed(cs, start, end, i, back) == cs[..lo] + repl;
  }

  lemma NoTiles(e: int)
    ensures Tiles([], e, e)
  {
  }

  lemma TopMerged(cs: seq<Chunk>, start: int, end: int, i: int, back: bool)
    requires Tiles(cs, start, end) && 0 <= i < |cs| && (back ==> i > 0)
    ensures Merged(cs, i, back).End() == end <==> Hi(cs, i) == |cs|
    ensures start <= Merged(cs, i, back).addr && Merged(cs, i, back).addr % 8 == 0
  {
  }

  lemma MergedTile(cs: seq<Chunk>, start: int, end: int, i: int, back: bool)
    requires Tiles(cs, start, end) && 0 <= i < |cs| && (back ==> i > 0)
    ensures Tiles([Merged(cs, i, back)], Edge(cs, Lo(i, back), end), Edge(cs, Hi(cs, i), end))
  {
    var lo, hi := Lo(i, back), Hi(cs, i);
    assert Shaped(cs[lo]) && Shaped(cs[i]) && Shaped(cs[hi - 1]);
    assert lo < i ==> cs[i].addr == cs[lo].End();
    assert i < hi - 1 ==> cs[hi - 1].addr == cs[i].End();
    assert Edge(cs, hi, end) == cs[hi - 1].End();
    hide Tiles;
    Multiples(cs[hi - 1].addr, cs[hi - 1].size);
    Multiples(cs[hi - 1].End(), cs[lo].addr);
    OneTile(Merged(cs, i, back));
  }

  lemma Contiguous(cs: seq<Chunk>, start: int, end: int)
    requires Tiles(cs, start, end)
    ensures forall i, j {:trigger cs[i], cs[j]} :: 0 <= i && j == i + 1 < |cs| ==> cs[j].addr == cs[i].End()
  {
  }

  lemma MergedParts(cs: seq<Chunk>, i: int, back: bool)
    requires Joinable(cs, i, back)
    requires forall i, j {:trigger cs[i], cs[j]} :: 0 <= i && j == i + 1 < |cs| ==> cs[j].addr == cs[i].End()
    ensures var part := cs[Lo(i, back)..Hi(cs, i)];
            UsedChunks(part) == {cs[i]} && FreeBytes(part) == Merged(cs, i, back).size - cs[i].size
  {
    hide FreeNodes, UsedChunks, FreeBytes;
    var lo, hi := Lo(i, back), Hi(cs, i);
    var x, y, z := cs[lo..i], cs[i..i + 1], cs[i + 1..hi];
    assert cs[lo..hi] == x + y + z && y == [cs[i]];
    FreeBytesJoin(x, y);
    FreeBytesJoin(x + y, z);
    SetsOfThree(x, y, z);
    NoChunks();
    if lo < i { assert x == [cs[lo]]; OneFreeNode(cs[lo]); OneUsed(cs[lo]); }
    if i + 1 < hi { assert z == [cs[i + 1]]; OneFreeNode(cs[i + 1]); OneUsed(cs[i + 1]); }
    OneFreeNode(cs[i]);
    OneUsed(cs[i]);
  }

  /**
   Two free chunks touch after a free exactly when something is left of the block and the chunk in front of it is free:
   that is, when a stale PINUSE bit has hidden that chunk from the backward merge.
   */
  lemma FreedAdjacentWhen(cs: seq<Chunk>, start: int, end: int, i: int, back: bool)
    requires NoAdjacentFree(cs) && Joinable(cs, i, back)
    ensures NoAdjacentFree(Freed(cs, start, end, i, back)) <==>
              back || PrevUsed(cs, i) || Remains(cs, start, end, i, back) == []
  {
    var lo, hi := Lo(i, back), Hi(cs, i);
    var repl, s := Remains(cs, start, end, i, back), Freed(cs, start, end, i, back);
    assert back ==> PrevUsed(cs, lo);
    assert hi < |cs| ==> cs[hi].used;
    if PrevUsed(cs, lo) || repl == [] {
      assert repl == [] ==> hi == |cs| || cs[hi].used;
      forall p, q {:trigger s[p], s[q]} | 0 <= p && q == p + 1 < |s| ensures s[p].used || s[q].used {
        if q < lo { assert s[p] == cs[p] && s[q] == cs[q]; }
        else if p >= lo + |repl| { assert s[p] == cs[p - lo - |repl| + hi] && s[q] == cs[q - lo - |repl| + hi]; }
        else if q == lo { assert s[p] == cs[lo - 1]; }
        else { assert q == lo + |repl| && s[q] == cs[hi]; }
      }
    } else {
      assert s[lo - 1] == cs[lo - 1] && s[lo] == repl[0];
    }
  }

  // ---- payloads ---------------------------------------------------------------------------------

  ghost predicate Disjoint(a: int, b: int, c: int, d: int)
  {
    b <= c || d <= a
  }

  /**
   The payload [addr+8, End()+4) of a chunk in use meets no other payload, no head word of any chunk, no
   list links of a free chunk and no foot that still counts.
   */
  lemma PayloadIsolated(cs: seq<Chunk>, a: int, b: int, i: int, j: int)
    requires Tiles(cs, a, b) && 0 <= i < |cs| && 0 <= j < |cs| && cs[i].used
    ensures Disjoint(cs[i].addr + 8, cs[i].End() + 4, cs[j].addr + 4, cs[j].addr + 8)
    ensures !cs[j].used ==> Disjoint(cs[i].addr + 8, cs[i].End() + 4, cs[j].addr + 8, cs[j].addr + 16)
    ensures i != j ==> Disjoint(cs[i].addr + 8, cs[i].End() + 4, cs[j].addr + 8, cs[j].End() + 4)
    ensures j > 0 && !cs[j - 1].used ==> Disjoint(cs[i].addr + 8, cs[i].End() + 4, cs[j].addr, cs[j].addr + 4)
  {
  }

  /** Every payload ends at or below the end of the heap. */
  ghost predicate PayloadsInside(cs: seq<Chunk>, end: int)
  {
    forall c :: c in UsedChunks(cs) ==> c.End() + 4 <= end
  }

  /** The last word of a payload is the prevFoot word of the next chunk, so it needs a next chunk. */
  lemma PayloadsInsideWhen(cs: seq<Chunk>, a: int, b: int)
    requires Tiles(cs, a, b) && a < b
    ensures cs != [] && (PayloadsInside(cs, b) <==> !cs[|cs| - 1].used)
    ensures forall i :: 0 <= i < |cs| ==> (cs[i].End() + 4 <= b <==> i < |cs| - 1)
  {
    var n := |cs|;
    assert n > 0;
    forall i | 0 <= i < n ensures cs[i].End() + 4 <= b <==> i < n - 1 {
      if i < n - 1 { assert cs[i].End() <= cs[n - 1].addr; }
    }
    if cs[n - 1].used { assert cs[n - 1] in UsedChunks(cs); }
  }
}

/**
 Heaps, given word by word, on which kernel/src/mm/heap.cpp does what one might not expect. The list head is at 0x1000,
 the heap starts at 0x01000000, and its limit is 0x08000000.
 */
module HeapExamples {
  import opened Machine
  import opened CircularList
  import opened HeapChunks
  import opened HeapMemory

  const HEAD := 0x1000
  const START := 0x0100_0000
  const LIMIT := 0x0800_0000

  /** A clean heap with these chunks, ending at `end`, whose only free chunk has its list node at n. */
  ghost predicate CleanHeap(m: Words, end: int, cs: seq<Chunk>, n: int)
  {
    HeapTags(m, HEAD, START, end, LIMIT, cs, [n]) && Clean(m, cs)
  }

  ghost predicate Linked(m: Words, n: int)
  {
    Load(m, HEAD) == Load(m, HEAD + 4) == n && Load(m, n) == Load(m, n + 4) == HEAD
  }

  lemma OneNode(m: Words, end: int, cs: seq<Chunk>, n: int)
    requires Bounds(HEAD, START, end, LIMIT) && Tiles(cs, START, end) && Heads(m, cs) && FreeNodes(cs) == {n}
    requires Linked(m, n)
    ensures HeapTags(m, HEAD, START, end, LIMIT, cs, [n])
  {
    hide Tiles, Heads, FreeNodes;
    assert n in FreeNodes(cs);
    FreeNodesRange(cs, START, end);
    assert Elements([n]) == {n};
    assert forall i :: 0 <= i <= 1 ==> Arc(m, At(HEAD, [n], i), At(HEAD, [n], i + 1));
  }

  lemma TwoChunks(m: Words, end: int, a: Chunk, b: Chunk)
    requires Shaped(a) && Shaped(b) && a.addr == START && a.End() == b.addr && b.End() == end
    requires Load(m, a.addr + 4) == HeadWord(a.size, a.used, true)
             && Load(m, b.addr + 4) == HeadWord(b.size, b.used, a.used)
    requires a.used || b.used
    ensures Tiles([a, b], START, end) && Heads(m, [a, b]) && Clean(m, [a, b])
    ensures FreeNodes([a, b]) == Node(a) + Node(b)
  {
    hide Tiles, FreeNodes, Heads, Clean, HeadWord;
    assert [a] + [b] == [a, b];
    OneTile(a);
    OneTile(b);
    JoinTiles([a], [b], START, b.addr, end);
    FreeNodesJoin([a], [b]);
    OneFreeNode(a);
    OneFreeNode(b);
    TwoHeads(m, a, b);
  }

  ghost function Node(c: Chunk): set<int> { if c.used then {} else {c.addr + 8} }

  lemma TwoHeads(m: Words, a: Chunk, b: Chunk)
    requires a.size % 8 == 0 && b.size % 8 == 0 && (a.used || b.used)
    requires Load(m, a.addr + 4) == HeadWord(a.size, a.used, true)
             && Load(m, b.addr + 4) == HeadWord(b.size, b.used, a.used)
    ensures Heads(m, [a, b]) && Clean(m, [a, b])
  {
    HeadFields(a.size, a.used, true);
    HeadFields(b.size, b.used, a.used);
    hide HeadWord, PInuse;
  }

  lemma ThreeChunks(end: int, a: Chunk, b: Chunk, c: Chunk)
    requires Shaped(a) && Shaped(b) && Shaped(c) && a.addr == START
    requires a.End() == b.addr && b.End() == c.addr && c.End() == end
    ensures Tiles([a, b, c], START, end) && FreeNodes([a, b, c]) == Node(a) + Node(b) + Node(c)
  {
    hide Tiles, FreeNodes;
    OneTile(a);
    OneTile(b);
    OneTile(c);
    assert [a] + [b] + [c] == [a, b, c];
    JoinTiles([a], [b], START, b.addr, c.addr);
    JoinTiles([a] + [b], [c], START, c.addr, end);
    FreeNodesJoin([a], [b]);
    FreeNodesJoin([a] + [b], [c]);
    OneFreeNode(a);
    OneFreeNode(b);
    OneFreeNode(c);
  }

  lemma ThreeHeads(m: Words, a: Chunk, b: Chunk, c: Chunk)
    requires a.size % 8 == 0 && b.size % 8 == 0 && c.size % 8 == 0 && b.used && (a.used || c.used)
    requires Load(m, a.addr + 4) == HeadWord(a.size, a.used, true)
             && Load(m, b.addr + 4) == HeadWord(b.size, true, true)
    requires Load(m, c.addr + 4) == HeadWord(c.size, c.used, true)
    ensures Heads(m, [a, b, c]) && NoAdjacentFree([a, b, c])
    ensures (Clean(m, [a, b, c]) <==> a.used) && (StaleAt(m, [a, b, c], 1) <==> !a.used)
  {
    HeadFields(a.size, a.used, true);
    HeadFields(b.size, true, true);
    HeadFields(c.size, c.used, true);
    hide HeadWord, PInuse;
    var s := [a, b, c];
    assert s[0] == a && s[1] == b && s[2] == c;
    assert StaleAt(m, s, 1) <==> !a.used;
    assert !StaleAt(m, s, 0) && !StaleAt(m, s, 2);
  }

  // ---- the foot behind a remainder -----------------------------------------------------------------

  ghost function FootHeap(): seq<Chunk> { [Chunk(START, 64, false), Chunk(0x0100_0040, 0x0F_FFC0, true)] }

  const FOOT_WORDS: Words := map[
    HEAD := 0x0100_0008, HEAD + 4 := 0x0100_0008, START + 4 := 65, 0x0100_0008 := HEAD, 0x0100_000C := HEAD,
    0x0100_0040 := 64, 0x0100_0044 := 0x0F_FFC2]

  lemma FootHeapOk()
    ensures CleanHeap(FOOT_WORDS, 0x0110_0000, FootHeap(), 0x0100_0008) && Feet(FOOT_WORDS, FootHeap())
  {
    var a, b := Chunk(START, 64, false), Chunk(0x0100_0040, 0x0F_FFC0, true);
    TwoChunks(FOOT_WORDS, 0x0110_0000, a, b);
    OneNode(FOOT_WORDS, 0x0110_0000, [a, b], 0x0100_0008);
  }

  /** A 64-byte hole cut at 16 bytes: the chunk behind still names the whole hole, that is the block in use. */
  lemma StaleFootExample()
    ensures var s := Allocated(FootHeap(), 0, 16);
            && CleanHeap(FOOT_WORDS, 0x0110_0000, FootHeap(), 0x0100_0008) && Feet(FOOT_WORDS, FootHeap())
            && |s| == 3 && s[0].used && !s[1].used && !Feet(FOOT_WORDS, s)
            && s[2].addr - Load(FOOT_WORDS, s[2].addr) == s[0].addr
  {
    FootHeapOk();
    CutHole();
    hide Allocated, Tiles, NoAdjacentFree, Feet, CleanBut;
    CleanApart(FOOT_WORDS, FootHeap());
    StaleFootNamesTheBlock(FOOT_WORDS, FOOT_WORDS, FootHeap(), START, 0x0110_0000, 0, 16);
    FeetAfterAlloc(FOOT_WORDS, FOOT_WORDS, FootHeap(), START, 0x0110_0000, 0, 16);
  }

  lemma CutHole()
    ensures Allocated(FootHeap(), 0, 16) ==
            [Chunk(START, 16, true), Chunk(0x0100_0010, 48, false), Chunk(0x0100_0040, 0x0F_FFC0, true)]
  {
  }

  // ---- the PINUSE bit of a carved header --------------------------------------------------------------

  /** A block in use whose payload has bit 0 set where the aligned header will go, and the block behind it. */
  const CARVED: Chunk := Chunk(START, 0x2000, true)
  const BEHIND: Chunk := Chunk(0x0100_2000, 0x0F_E000, true)

  const PLAIN_WORDS: Words := map[
    HEAD := HEAD, HEAD + 4 := HEAD, START + 4 := 0x2003, 0x0100_0FFC := 1, 0x0100_2004 := 0x0F_E003]

  lemma PlainHeapOk()
    ensures HeapTags(PLAIN_WORDS, HEAD, START, 0x0110_0000, LIMIT, [CARVED, BEHIND], [])
    ensures Clean(PLAIN_WORDS, [CARVED, BEHIND])
  {
    TwoChunks(PLAIN_WORDS, 0x0110_0000, CARVED, BEHIND);
    hide Tiles, Heads, Clean, FreeNodes;
    FreshList(PLAIN_WORDS, HEAD, START);
  }

  /** What CarveLead leaves: the lead is free and listed. */
  ghost function StaleChunks(): seq<Chunk> { LeadPieces(CARVED, 0x0100_0FF8) + [BEHIND] }

  ghost function StaleWords(): Words
  {
    LeadStored(PLAIN_WORDS, CARVED, 0x0100_0FF8)[HEAD := START + 8][HEAD + 4 := START + 8][START + 8 := HEAD]
      [START + 12 := HEAD]
  }

  lemma StaleLoads()
    ensures var m := StaleWords();
            && Linked(m, START + 8) && Load(m, START + 4) == 0xFF9 && Load(m, 0x0100_0FFC) == 0x100B
            && Load(m, 0x0100_2004) == 0x0F_E003 && Load(m, 0x0100_0FF8) == 0xFF8
  {
  }

  lemma StaleShape()
    ensures StaleChunks() == [Chunk(START, 0xFF8, false), Chunk(0x0100_0FF8, 0x1008, true), BEHIND]
  {
  }

  /** The header of the carved block claims that the free lead in front of it is in use. */
  lemma StaleHeaderExample()
    ensures HeapTags(PLAIN_WORDS, HEAD, START, 0x0110_0000, LIMIT, [CARVED, BEHIND], [])
    ensures Clean(PLAIN_WORDS, [CARVED, BEHIND]) && AlignedStart(START) == 0x0100_0FF8
    ensures HeapTags(StaleWords(), HEAD, START, 0x0110_0000, LIMIT, StaleChunks(), [START + 8])
    ensures !StaleChunks()[0].used && StaleAt(StaleWords(), StaleChunks(), 1) && NoAdjacentFree(StaleChunks())
  {
    PlainHeapOk();
    StaleShape();
    StaleLoads();
    hide StaleWords, StaleChunks, FreeNodes, Tiles, Heads, Clean, StaleAt, NoAdjacentFree;
    var a, b := Chunk(START, 0xFF8, false), Chunk(0x0100_0FF8, 0x1008, true);
    ThreeChunks(0x0110_0000, a, b, BEHIND);
    ThreeHeads(StaleWords(), a, b, BEHIND);
    OneNode(StaleWords(), 0x0110_0000, StaleChunks(), START + 8);
  }

  /** Freeing that block leaves it beside its lead: two free chunks touch. */
  lemma StaleFreeExample()
    ensures HeapTags(StaleWords(), HEAD, START, 0x0110_0000, LIMIT, StaleChunks(), [START + 8])
    ensures NoAdjacentFree(StaleChunks()) && !Backwards(StaleWords(), StaleChunks(), 1)
    ensures !NoAdjacentFree(Freed(StaleChunks(), START, 0x0110_0000, 1, false))
  {
    StaleHeaderExample();
    StaleShape();
    hide StaleWords, StaleChunks, HeapTags, Tiles, NoAdjacentFree, Freed;
    FreedAdjacentWhen(StaleChunks(), START, 0x0110_0000, 1, false);
  }

  // ---- the last word of a block at the end of the heap ---------------------------------------------------

  /** After alloc(0x100FFC) and alloc(16) on a fresh heap of one megabyte. */
  const FIRST: Chunk := Chunk(START, 0x10_1000, true)
  const SMALL: Chunk := Chunk(0x0110_1000, 24, true)
  const REST: Chunk := Chunk(0x0110_1018, 0x0F_FFE8, false)

  const TAIL_WORDS: Words := map[
    HEAD := 0x0110_1020, HEAD + 4 := 0x0110_1020, START + 4 := 0x10_1003, 0x0110_1004 := 27, 0x0110_101C := 0x0F_FFE9,
    0x0110_1020 := HEAD, 0x0110_1024 := HEAD]

  lemma TailHeapOk()
    ensures CleanHeap(TAIL_WORDS, 0x0120_1000, [FIRST, SMALL, REST], 0x0110_1020)
  {
    hide Tiles, FreeNodes, Heads, Clean, StaleAt, NoAdjacentFree;
    ThreeChunks(0x0120_1000, FIRST, SMALL, REST);
    ThreeHeads(TAIL_WORDS, FIRST, SMALL, REST);
    OneNode(TAIL_WORDS, 0x0120_1000, [FIRST, SMALL, REST], 0x0110_1020);
  }

  /** Freeing the small block gives all of its pages back, and with them the last word the first caller asked for. */
  lemma SwallowedExample()
    ensures var cs := [FIRST, SMALL, REST];
            && Request2Size(0x10_0FFC) == FIRST.size && Request2Size(16) == SMALL.size
            && CleanHeap(TAIL_WORDS, 0x0120_1000, cs, 0x0110_1020) && PayloadsInside(cs, 0x0120_1000)
            && !OverContracts(cs, START, 0x0120_1000, 1, false)
            && !PayloadsInside(Freed(cs, START, 0x0120_1000, 1, false), FreedEnd(cs, START, 0x0120_1000, 1, false))
            && FIRST.addr + 8 + 0x10_0FFC == FIRST.End() + 4
  {
    var cs := [FIRST, SMALL, REST];
    TailHeapOk();
    assert Merged(cs, 1, false) == Chunk(0x0110_1000, 0x10_0000, false);
    assert Swallowed(Merged(cs, 1, false), START, 0x0120_1000);
    InsideWhen(cs, START, 0x0120_1000);
    OverContractsWhen(cs, START, 0x0120_1000, 1, false);
    hide CleanHeap, Tiles, Merged, Swallowed, OverContracts, Freed, FreedEnd, PayloadsInside;
    FreedInsideWhen(HEAD, LIMIT, cs, START, 0x0120_1000, 1, false);
  }

  /** After alloc(0x100FF4) on a fresh heap. */
  const BIG: Chunk := Chunk(START, 0x10_0FF8, true)
  const TOP: Chunk := Chunk(0x0110_0FF8, 0x10_0008, false)

  const TOP_WORDS: Words := map[
    HEAD := 0x0110_1000, HEAD + 4 := 0x0110_1000, START + 4 := 0x10_0FFB, 0x0110_0FFC := 0x10_0009,
    0x0110_1000 := HEAD, 0x0110_1004 := HEAD]

  /** palignedAlloc(0x1004) returns the block at 0x01101000 and gives back the page with its last word. */
  lemma TrimmedExample()
    ensures var cs, nb := [BIG, TOP], Request2Size(0x1004);
            && Request2Size(0x10_0FF4) == BIG.size && CleanHeap(TOP_WORDS, 0x0120_1000, cs, 0x0110_1000)
            && BestFit(cs, 1, nb + 4112) && |Allocated(cs, 1, nb + 4112)| == 3
            && LosesTail(Allocated(cs, 1, nb + 4112), START, 1, nb)
            && AlignedStart(TOP.addr) + 8 == 0x0110_1000 && 0x0110_1000 + 0x1004 == AlignedStart(TOP.addr) + nb + 4
  {
    TwoChunks(TOP_WORDS, 0x0120_1000, BIG, TOP);
    OneNode(TOP_WORDS, 0x0120_1000, [BIG, TOP], 0x0110_1000);
    var nb := Request2Size(0x1004);
    assert Allocated([BIG, TOP], 1, nb + 4112) ==
           [BIG, Chunk(0x0110_0FF8, 0x2018, true), Chunk(0x0110_3010, 0x0F_DFF0, false)];
  }
}

/**
 The boundary-tag allocator of kernel/src/mm/heap.cpp. Headers, feet and list links live in one word
 memory: prevFoot at +0, head at +4, list.next at +8, list.prev at +12 of a chunk.
 */
module Heap {
  import opened Machine
  import opened CircularList
  import opened HeapChunks
  import opened HeapMemory

  class KernelHeap {
    const ram: Ram
    const head: int
    var startAddr: int
    var endAddr: int
    var maxAddr: int
    ghost var chunks: seq<Chunk>
    ghost var nodes: seq<int>

    ghost predicate Valid()
      reads this, ram
    {
      HeapOk(ram.words, head, startAddr, endAddr, maxAddr, chunks, nodes)
    }

    /** The same, except that PINUSE bits may be stale and free chunks may touch. */
    ghost predicate Tagged()
      reads this, ram
    {
      HeapTags(ram.words, head, startAddr, endAddr, maxAddr, chunks, nodes)
    }

    /** One free chunk covers the whole window. */
    constructor (ram: Ram, head: int, start: int, size: int, max: int)
      requires Window(head, start, start + AlignUp(size, PAGE), max)
      modifies ram
      ensures this.ram == ram && this.head == head && (Valid() <==> AlignUp(size, PAGE) >= HEAP_MIN_SIZE)
      ensures Tiles(chunks, startAddr, endAddr) && Heads(ram.words, chunks)
      ensures ListOk(ram.words, head, nodes) && Elements(nodes) == FreeNodes(chunks)
      ensures startAddr == start && endAddr == start + AlignUp(size, PAGE) && maxAddr == max
      ensures chunks == [Chunk(start, AlignUp(size, PAGE), false)] && Feet(ram.words, chunks)
    {
      hide Tiles, NoAdjacentFree, Heads, FreeNodes, ListOk, IsRing, OnlyLinks, Clean, AlignUp, HeadWord, Feet, Clear;
      this.ram, this.head := ram, head;
      startAddr, endAddr, maxAddr := start, start + AlignUp(size, PAGE), max;
      nodes := [];
      chunks := [Chunk(start, AlignUp(size, PAGE), false)];
      new;
      InitListHead(ram, head);
      ghost var m0 := ram.words;
      FreshList(m0, head, start);
      ram.Store(start, 0);
      FootStoreSparesList(m0, head, nodes, start, 0);
      HeadStoreSparesList(ram.words, head, nodes, start, HeadWord(AlignUp(size, PAGE), false, true));
      ram.Store(start + 4, HeadWord(AlignUp(size, PAGE), false, true));
      ghost var m := ram.words;
      InsertChunk(start);
      SingleFoot(ram.words, chunks[0]);
      assert {head, start + 8} + {} == {head, start + 8};
      OneChunkOk(m, ram.words, head, start, AlignUp(size, PAGE), max, nodes);
    }

    /** findSmallestChunk: a smallest chunk that fits, or 0 exactly when none does. */
    method FindSmallestChunk(size: int) returns (r: int)
      requires ListOk(ram.words, head, nodes) && forall n :: n in nodes ==> n > 8
      ensures r == 0 <==> forall n :: n in nodes ==> SizeOf(ram.words, n) < size
      ensures r != 0 ==> r + 8 in nodes && SizeOf(ram.words, r + 8) >= size
      ensures r != 0 ==> forall n :: n in nodes && SizeOf(ram.words, n) >= size ==>
                           SizeOf(ram.words, r + 8) <= SizeOf(ram.words, n)
    {
      var tmp := 0;
      assert Arc(ram.words, At(head, nodes, 0), At(head, nodes, 1));
      var iter := Load(ram.words, head);
      ghost var k := 0;
      while iter != head
        invariant 0 <= k <= |nodes| && iter == At(head, nodes, k + 1)
        invariant forall i :: 0 <= i < k ==> SizeOf(ram.words, nodes[i]) < size
        decreases |nodes| - k
      {
        tmp := iter - 8;
        assert k < |nodes| && iter == nodes[k];
        if ChunkSize(Load(ram.words, tmp + 4)) >= size {
          break;
        }
        assert Arc(ram.words, At(head, nodes, k + 1), At(head, nodes, k + 2));
        iter := Load(ram.words, iter);
        k := k + 1;
      }
      if iter == head {
        return 0;
      }
      assert iter == nodes[k] && nodes[k] in nodes;
      return tmp;
    }

    /** The list position of the first member of at least `csize` bytes. */
    method FindSlot(csize: int) returns (pos: int, ghost k: int)
      requires ListOk(ram.words, head, nodes)
      ensures 0 <= k <= |nodes| && pos == At(head, nodes, k + 1)
      ensures forall i :: 0 <= i < k ==> SizeOf(ram.words, nodes[i]) < csize
      ensures k < |nodes| ==> csize <= SizeOf(ram.words, nodes[k])
    {
      k := 0;
      assert Arc(ram.words, At(head, nodes, 0), At(head, nodes, 1));
      pos := Load(ram.words, head);
      while pos != head
        invariant 0 <= k <= |nodes| && pos == At(head, nodes, k + 1)
        invariant forall i :: 0 <= i < k ==> SizeOf(ram.words, nodes[i]) < csize
        decreases |nodes| - k
      {
        assert k < |nodes| && pos == nodes[k];
        if ChunkSize(Load(ram.words, pos - 8 + 4)) >= csize {
          return;
        }
        assert Arc(ram.words, At(head, nodes, k + 1), At(head, nodes, k + 2));
        pos := Load(ram.words, pos);
        k := k + 1;
      }
    }

    /** insertChunk: before the first member that is at least as large. */
    method InsertChunk(chunk: int)
      requires ListOk(ram.words, head, nodes) && head != 0
      requires forall n :: n in nodes ==> n != 0 && Apart(n, chunk + 8)
      requires Apart(head, chunk + 8)
      modifies ram, this`nodes
      ensures ListOk(ram.words, head, nodes)
      ensures Elements(nodes) == old(Elements(nodes)) + {chunk + 8}
      ensures OnlyLinks(old(ram.words), ram.words, {head, chunk + 8} + old(Elements(nodes)))
    {
      hide OnlyLinks, IsRing, InsertAt, Arc;
      ghost var m, ns := ram.words, nodes;
      ghost var k := 0;
      var pos := head;
      var empty := ListEmpty(ram, head, nodes);
      if !empty {
        pos, k := FindSlot(ChunkSize(Load(ram.words, chunk + 4)));
      }
      assert forall i :: 0 <= i < |nodes| ==> nodes[i] in nodes;
      ListAddTail(ram, chunk + 8, pos, head, nodes, k);
      nodes := InsertAt(nodes, k, chunk + 8);
      InsertKeepsSorted(m, ram.words, head, ns, k, chunk + 8);
    }

    /** set_inuse: keeps PINUSE of `chunk`, and tells the header right behind it. */
    method SetInuse(chunk: int, size: int)
      modifies ram
      ensures ram.words == InUse(old(ram.words), chunk, size)
    {
      ram.Store(chunk + 4, Load(ram.words, chunk + 4) % 2 + 2 + size);
      ram.Store(chunk + size + 4, WithPinuse(Load(ram.words, chunk + size + 4)));
    }

    /** The part of alloc that takes the chosen hole (everything after the search). */
    method TakeHole(hole: int, request: int, ghost k: int) returns (mem: int)
      requires Tagged() && 0 <= k < |chunks| && !chunks[k].used && chunks[k].addr == hole
      requires chunks[k].size >= request >= MIN_CHUNK && request % 8 == 0
      requires k < |chunks| - 1 || Cut(chunks, k, request)
      modifies ram, this`nodes, this`chunks
      ensures Tagged() && mem == hole + 8 && (old(Clean(ram.words, chunks)) ==> Clean(ram.words, chunks))
      ensures chunks == Allocated(old(chunks), k, request) && PInuse(Load(ram.words, hole + 4))
      ensures HeadersKept(old(ram.words), ram.words, old(chunks), {hole, Front(old(chunks)[k], request).End()})
      ensures PayloadsKept(old(ram.words), ram.words, old(UsedChunks(chunks)))
      ensures InsideKept(old(ram.words), ram.words, Front(old(chunks)[k], request))
    {
      hide Tiles, NoAdjacentFree, Heads, ListOk, Bounds, FreeNodes, UsedChunks, FreeBytes, PayloadsKept;
      hide OnlyLinks, Apart, Elements, InUse, ChunkSize, InsideKept, Clean, PInuse;
      ghost var m0, cs := ram.words, chunks;
      HoleFacts(m0, head, startAddr, endAddr, maxAddr, cs, nodes, k);
      AllocatedShape(cs, startAddr, endAddr, k, request);
      var nb := request;
      RemoveChunk(hole);
      ghost var m1 := ram.words;
      ghost var m2 := m1;
      StepKept(m0, m1, head, startAddr, endAddr, maxAddr, cs, {head} + FreeNodes(cs) - {hole + 8});
      var size := ChunkSize(Load(ram.words, hole + 4));
      if size >= nb + MIN_CHUNK {
        ram.Store(hole + nb + 4, size - nb);
        RemainderStored(m1, head, startAddr, endAddr, maxAddr, cs, nodes, k, nb, size - nb);
        m2 := ram.words;
        InsertChunk(hole + nb);
        RemainderListed(m2, ram.words, head, startAddr, endAddr, maxAddr, cs, k, nb);
        HeadersChain(m0, m1, m2, cs, {});
        HeadersChain(m0, m2, ram.words, cs, {});
        PayloadsChain(m0, m1, m2, UsedChunks(cs));
        PayloadsChain(m0, m2, ram.words, UsedChunks(cs));
      } else {
        nb := size;
      }
      ghost var m3 := ram.words;
      SetInuse(hole, nb);
      chunks := Allocated(cs, k, request);
      HoleTaken(m0, m3, head, startAddr, endAddr, maxAddr, cs, nodes, k, request);
      TakenInside(m0, m1, m2, m3, head, startAddr, endAddr, maxAddr, cs, k, request, Cut(cs, k, request));
      mem := hole + 8;
    }

    /**
     expand_unlocked: both assertions, with 32-bit sums. `backed` says whether there are frames for the new pages, and
     `frames` what they hold, which is left as it is.
     */
    method ExpandUnlocked(newSize: int, backed: bool, frames: Words) returns (ok: bool)
      modifies ram, this`endAddr
      ensures ok <==>
                && newSize > old(endAddr) - startAddr && backed
                && (startAddr + AlignUp(newSize, PAGE)) % W32 <= maxAddr
      ensures endAddr == if ok then (startAddr + AlignUp(newSize, PAGE)) % W32 else old(endAddr)
      ensures ram.words == if ok then Filled(old(ram.words), frames, old(endAddr), endAddr) else old(ram.words)
    {
      ok := newSize > endAddr - startAddr;
      if ok {
        var aligned := AlignUp(newSize, PAGE);
        ok := (startAddr + aligned) % W32 <= maxAddr && backed;
        if ok {
          var oldEnd := endAddr;
          endAddr := (startAddr + aligned) % W32;
          ram.words := Filled(ram.words, frames, oldEnd, endAddr);
        }
      }
    }

    /** The list node at the highest address, or 0. */
    method HighestNode() returns (tmp: int)
      requires ListOk(ram.words, head, nodes) && forall n :: n in nodes ==> n > 8
      ensures nodes == [] ==> tmp == 0
      ensures nodes != [] ==> tmp in nodes && forall n :: n in nodes ==> n <= tmp
    {
      tmp := 0;
      assert Arc(ram.words, At(head, nodes, 0), At(head, nodes, 1));
      var iter := Load(ram.words, head);
      ghost var k := 0;
      while iter != head
        invariant 0 <= k <= |nodes| && iter == At(head, nodes, k + 1)
        invariant if k == 0 then tmp == 0 else tmp in nodes
        invariant forall i :: 0 <= i < k ==> nodes[i] <= tmp
        decreases |nodes| - k
      {
        assert k < |nodes| && iter == nodes[k] && nodes[k] in nodes;
        if iter > tmp {
          tmp := iter;
        }
        assert Arc(ram.words, At(head, nodes, k + 1), At(head, nodes, k + 2));
        iter := Load(ram.words, iter);
        k := k + 1;
      }
    }

    /** The part of alloc that hands the pages between `oldEnd` and `endAddr` to the top chunk. */
    method GrowTop(oldEnd: int) returns (ok: bool)
      requires HeapTags(ram.words, head, startAddr, oldEnd, maxAddr, chunks, nodes)
      requires oldEnd + PAGE <= endAddr <= maxAddr && endAddr % PAGE == 0
      modifies ram, this`nodes, this`chunks
      ensures ok && Tagged() && old(chunks) != [] && chunks == Grown(old(chunks), oldEnd, endAddr)
      ensures old(Clean(ram.words, chunks)) ==> Clean(ram.words, chunks)
      ensures forall i :: 0 <= i < |old(chunks)| ==>
                Load(ram.words, old(chunks)[i].addr) == Load(old(ram.words), old(chunks)[i].addr)
      ensures PayloadsKept(old(ram.words), ram.words, old(UsedChunks(chunks)))
      ensures forall i :: 0 <= i < |chunks| ==> InsideKept(old(ram.words), ram.words, chunks[i])
    {
      hide Tiles, NoAdjacentFree, Heads, ListOk, FreeNodes, UsedChunks, FreeBytes, PayloadsKept, HeadersKept;
      hide OnlyLinks, Apart, Clear, ChunkSize, PInuse, CInuse, InsideKept, Clean;
      ok := true;
      ghost var m0, cs, ns := ram.words, chunks, nodes;
      TopFacts(m0, head, startAddr, oldEnd, maxAddr, cs, ns, endAddr);
      ghost var top, cs' := Top(cs, oldEnd, endAddr), Grown(cs, oldEnd, endAddr);
      var tmp := HighestNode();
      var topChunk := 0;
      var csize := 0;
      if tmp != 0 {
        topChunk := tmp - 8;
        HighestChunk(m0, head, startAddr, oldEnd, maxAddr, cs, ns, tmp);
        var h := Load(ram.words, topChunk + 4);
        if !PInuse(h) && CInuse(h) {
          return false;
        }
        var oldCsize := ChunkSize(h);
        if topChunk + oldCsize != oldEnd {
          topChunk := 0;
        } else {
          RemoveChunk(topChunk);
          csize := endAddr - topChunk;
        }
      }
      if topChunk == 0 {
        topChunk := oldEnd;
        csize := endAddr - oldEnd;
        NoTopListed(cs, startAddr, oldEnd, ns, tmp);
      }
      ghost var m1 := ram.words;
      assert topChunk == top.addr && csize == top.size && Elements(nodes) == FreeNodes(cs) - {top.addr + 8};
      assert OnlyLinks(m0, m1, {head} + FreeNodes(cs)) by {
        LinksSoFar(m0, m1, {head} + FreeNodes(cs) - {topChunk + 8}, {head} + FreeNodes(cs));
      }
      TopStored(m1, head, startAddr, oldEnd, maxAddr, cs, nodes, endAddr, csize + 1);
      ram.Store(topChunk + 4, csize + 1);
      InsertChunk(topChunk);
      chunks := Grown(cs, oldEnd, endAddr);
      TopListed(m0, m1, ram.words, head, startAddr, oldEnd, maxAddr, cs, nodes, endAddr);
      GrownInside(m0, m1, ram.words, head, startAddr, oldEnd, maxAddr, cs, endAddr);
    }

    /** expand_unlocked(oldSize + nb) and the adoption of the new pages. */
    method Grow(nb: int, backed: bool, frames: Words) returns (ok: bool)
      requires Tagged() && MIN_CHUNK <= nb < W32 && Growable(nb)
      modifies ram, this`nodes, this`chunks, this`endAddr
      ensures ok <==> startAddr + RoundUp(old(endAddr) - startAddr + nb) <= maxAddr && backed
      ensures ok ==> endAddr == startAddr + RoundUp(old(endAddr) - startAddr + nb) > old(endAddr)
      ensures ok ==>
                && Tagged() && old(chunks) != [] && chunks == Grown(old(chunks), old(endAddr), endAddr)
                && (old(Clean(ram.words, chunks)) ==> Clean(ram.words, chunks))
                && (old(NoAdjacentFree(chunks)) ==> NoAdjacentFree(chunks))
                && Fits(chunks, nb)
                && UsedChunks(chunks) == old(UsedChunks(chunks))
                && FreeBytes(chunks) == old(FreeBytes(chunks)) + endAddr - old(endAddr)
                && PayloadsBelow(old(ram.words), ram.words, old(UsedChunks(chunks)), old(endAddr))
                && (old(Feet(ram.words, chunks)) ==> Feet(ram.words, chunks))
                && (forall i :: 0 <= i < |chunks| ==>
                      InsideKept(Filled(old(ram.words), frames, old(endAddr), endAddr), ram.words, chunks[i]))
    {
      hide Tiles, NoAdjacentFree, Heads, ListOk, FreeNodes, UsedChunks, FreeBytes, PayloadsKept, Feet, Grown;
      hide AlignUp, Fits, InsideKept, Clean, Filled, PayloadsBelow;
      ghost var m0, cs := ram.words, chunks;
      var oldSize, oldEndAddr := endAddr - startAddr, endAddr;
      GrowthCheckExact(head, startAddr, endAddr, maxAddr, nb);
      ok := ExpandUnlocked((oldSize + nb) % W32, backed, frames);
      if ok {
        GrowthStays(head, startAddr, oldEndAddr, maxAddr, nb);
        GrowthSums(startAddr, oldEndAddr, nb);
        ghost var m1 := ram.words;
        FilledHarmless(m0, frames, head, startAddr, oldEndAddr, maxAddr, cs, nodes, endAddr);
        ok := GrowTop(oldEndAddr);
        PageMultiples(oldEndAddr, endAddr);
        GrownShape(cs, startAddr, oldEndAddr, endAddr, nb);
        GrownSets(cs, startAddr, oldEndAddr, endAddr);
        GrownFeet(m1, ram.words, cs, oldEndAddr, endAddr);
        FilledBelow(m0, frames, oldEndAddr, endAddr, UsedChunks(cs));
        BelowKept(m1, ram.words, UsedChunks(cs), oldEndAddr);
        BelowChain(m0, m1, ram.words, UsedChunks(cs), UsedChunks(cs), oldEndAddr, oldEndAddr);
      }
    }

    /** The rest of alloc once `hole`, chunk `at`, has been found to fit. */
    method TakeFit(nb: int, hole: int, ghost at: int) returns (r: AllocResult)
      requires Tagged() && 0 <= at < |chunks| && BestFit(chunks, at, nb) && chunks[at].addr == hole
      requires MIN_CHUNK <= nb && nb % 8 == 0
      modifies ram, this`nodes, this`chunks
      ensures r == if at == |old(chunks)| - 1 && !Cut(old(chunks), at, nb) then PastEnd else Block(hole + 8)
      ensures r.Block? ==>
                && Tagged() && chunks == Allocated(old(chunks), at, nb) && at < |chunks| - 1
                && (old(Clean(ram.words, chunks)) ==> Clean(ram.words, chunks))
                && PInuse(Load(ram.words, hole + 4)) && PrevUsed(chunks, at) == PrevUsed(old(chunks), at)
                && chunks[at] == Front(old(chunks)[at], nb)
                && UsedChunks(chunks) == old(UsedChunks(chunks)) + {chunks[at]}
                && chunks[at] !in old(UsedChunks(chunks))
                && FreeBytes(chunks) == old(FreeBytes(chunks)) - chunks[at].size
                && PayloadsKept(old(ram.words), ram.words, old(UsedChunks(chunks)))
                && InsideKept(old(ram.words), ram.words, chunks[at])
                && (old(Feet(ram.words, chunks)) ==>
                     (Feet(ram.words, chunks) <==> at == |old(chunks)| - 1 || !Cut(old(chunks), at, nb)))
    {
      hide Tiles, NoAdjacentFree, Heads, ListOk, FreeNodes, UsedChunks, FreeBytes, PayloadsKept, Feet, InsideKept;
      hide Allocated, Pieces, Shaped, ChunkSize, Bounds, Clean, PInuse;
      ghost var m0, cs := ram.words, chunks;
      HoleFacts(m0, head, startAddr, endAddr, maxAddr, cs, nodes, at);
      AllocatedAt(cs, at, nb);
      AllocatedNeighbours(cs, at, nb);
      LastEndsHeap(cs, startAddr, endAddr, at);
      var holeSize := ChunkSize(Load(ram.words, hole + 4));
      if hole + holeSize == endAddr && holeSize < nb + MIN_CHUNK {
        return PastEnd;  // stands for the set_inuse store behind endAddr
      }
      var mem := TakeHole(hole, nb, at);
      AllocatedShape(cs, startAddr, endAddr, at, nb);
      if Feet(m0, cs) { FeetAfterAlloc(m0, ram.words, cs, startAddr, endAddr, at, nb); }
      r := Block(mem);
    }

    /** The growth sums do not slip past the limit check: see GrowthCheckExact. */
    ghost predicate Growable(nb: int)
      reads this
    {
      endAddr + nb <= W32 - PAGE || endAddr - startAddr + nb >= W32
    }

    /**
     alloc_unlocked. Exactly when nothing fits it grows the heap and calls itself again; the measure shows
     that the second call always finds a chunk. `at` is the index of the block in the new heap.
     */
    method AllocUnlocked(size: int, backed: bool, frames: Words) returns (r: AllocResult, ghost at: int)
      requires Tagged() && 0 <= size < 0xFFFF_FFF5
      requires Fits(chunks, Request2Size(size)) || Growable(Request2Size(size))
      modifies ram, this`nodes, this`chunks, this`endAddr
      ensures old(Fits(chunks, Request2Size(size))) ==> endAddr == old(endAddr)
      ensures r.OutOfMemory? <==>
                && !old(Fits(chunks, Request2Size(size)))
                && (startAddr + RoundUp(old(endAddr) - startAddr + Request2Size(size)) > maxAddr || !backed)
      ensures !old(Fits(chunks, Request2Size(size))) ==> old(chunks) != []
      ensures !old(Fits(chunks, Request2Size(size))) && !r.OutOfMemory? ==>
                endAddr == startAddr + RoundUp(old(endAddr) - startAddr + Request2Size(size))
      ensures var nb := Request2Size(size);
              var g := if old(Fits(chunks, nb)) then old(chunks) else Grown(old(chunks), old(endAddr), endAddr);
              && (!r.OutOfMemory? ==> BestFit(g, at, nb) && (r.PastEnd? <==> at == |g| - 1 && !Cut(g, at, nb)))
              && (r.Block? ==> chunks == Allocated(g, at, nb) && (PrevUsed(chunks, at) <==> PrevUsed(g, at)))
              && (r.Block? && old(NoAdjacentFree(chunks)) ==> PrevUsed(g, at))
              && (r.Block? && old(Feet(ram.words, chunks)) ==>
                   (Feet(ram.words, chunks) <==> at == |g| - 1 || !Cut(g, at, nb)))
      ensures r.Block? ==>
                && Tagged() && 0 <= at < |chunks| - 1 && chunks[at].used && r.mem == chunks[at].addr + 8
                && (old(Clean(ram.words, chunks)) ==> Clean(ram.words, chunks))
                && PInuse(Load(ram.words, r.mem - 4))
                && r.mem % 8 == 0 && chunks[at].size - 4 >= size
                && Request2Size(size) <= chunks[at].size < Request2Size(size) + 16
                && UsedChunks(chunks) == old(UsedChunks(chunks)) + {chunks[at]}
                && chunks[at] !in old(UsedChunks(chunks))
                && chunks[at].End() + 4 <= endAddr
                && FreeBytes(chunks) == old(FreeBytes(chunks)) + (endAddr - old(endAddr)) - chunks[at].size
                && PayloadsBelow(old(ram.words), ram.words, old(UsedChunks(chunks)), old(endAddr))
                && InsideKept(Filled(old(ram.words), frames, old(endAddr), endAddr), ram.words, chunks[at])
      decreases if Fits(chunks, Request2Size(size)) then 0 else 1
    {
      hide Tiles, NoAdjacentFree, Heads, ListOk, FreeNodes, UsedChunks, FreeBytes, PayloadsKept, Feet;
      hide Request2Size, RoundUp, Allocated, Grown, Fits, InsideKept, Clean, PInuse, Filled, PayloadsBelow;
      var nb := Request2Size(size);
      RequestFits(size);
      ghost var m0, cs := ram.words, chunks;
      NodesPositive(m0, head, startAddr, endAddr, maxAddr, cs, nodes);
      var hole := FindSmallestChunk(nb);
      at := FoundFits(m0, head, startAddr, endAddr, maxAddr, cs, nodes, nb, hole);
      if hole == 0 {
        ghost var end := endAddr;
        var ok := Grow(nb, backed, frames);
        if !ok {
          return OutOfMemory, 0;
        }
        ghost var m1, g := ram.words, chunks;
        r, at := AllocUnlocked(size, backed, frames);
        if r.Block? {
          BelowChain(m0, m1, ram.words, UsedChunks(cs), UsedChunks(cs), end, endAddr);
          AllocatedAt(g, at, nb);
          InsideFilled(m1, frames, endAddr, ram.words, chunks[at]);
          InsideChain(Filled(m0, frames, end, endAddr), m1, ram.words, g[at], chunks[at]);
        }
      } else {
        HoleFacts(m0, head, startAddr, endAddr, maxAddr, cs, nodes, at);
        if NoAdjacentFree(cs) { HoleBehindUsed(cs, at); }
        r := TakeFit(nb, hole, at);
        if r.Block? {
          BelowKept(m0, ram.words, UsedChunks(cs), endAddr);
          InsideFilled(m0, frames, endAddr, ram.words, chunks[at]);
          InsideHeap(chunks, startAddr, endAddr, at);
        }
      }
    }

    /** contract_unlocked; the pages between the new and the old end are unmapped, and their words are gone. */
    method ContractUnlocked(wanted: int) returns (ok: bool, newSize: int)
      requires 0 <= wanted
      modifies ram, this`endAddr
      ensures ok <==> wanted < old(endAddr) - startAddr
      ensures ok ==> newSize == ContractedSize(wanted) && endAddr == startAddr + newSize
      ensures ram.words == if ok then Filled(old(ram.words), GONE, endAddr, old(endAddr)) else old(ram.words)
      ensures !ok ==> endAddr == old(endAddr)
    {
      ok, newSize := wanted < endAddr - startAddr, 0;
      if ok {
        newSize := AlignUp(wanted, PAGE);
        if newSize < HEAP_MIN_SIZE {
          newSize := HEAP_MIN_SIZE;
        }
        var oldEnd := endAddr;
        endAddr := startAddr + newSize;
        ram.words := Filled(ram.words, GONE, endAddr, oldEnd);
      }
    }

    /** First part of free: join with a free chunk in front, found through prevFoot. */
    method MergeBack(block0: int, size0: int, ghost i: int) returns (ok: bool, block: int, size: int)
      requires Tagged() && 0 <= i < |chunks| && chunks[i].used
      requires Backwards(ram.words, chunks, i) ==> FootOf(ram.words, chunks, i)
      requires block0 == chunks[i].addr && size0 == chunks[i].size
      modifies ram, this`nodes
      ensures var back := Backwards(old(ram.words), chunks, i);
              && Joinable(chunks, i, back)
              && ok && block == chunks[Lo(i, back)].addr && size == chunks[i].End() - block
              && Elements(nodes) == FreeNodes(chunks) - FreeNodes(chunks[Lo(i, back)..i])
      ensures ListOk(ram.words, head, nodes)
      ensures HeadersKept(old(ram.words), ram.words, chunks, {})
              && PayloadsKept(old(ram.words), ram.words, UsedChunks(chunks))
    {
      hide Tiles, NoAdjacentFree, Heads, ListOk, FreeNodes, UsedChunks, PayloadsKept, Bounds, OnlyLinks;
      ghost var m0, cs := ram.words, chunks;
      ghost var back := Backwards(m0, cs, i);
      ok, block, size := true, block0, size0;
      UsedFacts(m0, head, startAddr, endAddr, maxAddr, cs, nodes, i);
      BackJoins(m0, cs, i);
      SliceFreeNodes(cs, Lo(i, back), i);
      if !PInuse(Load(ram.words, block + 4)) {
        var prevsize := Load(ram.words, block);
        var prev := block - prevsize;
        if !(startAddr <= prev < endAddr) {
          return false, block, size;
        }
        size := size + prevsize;
        block := prev;
        RemoveChunk(block);
      }
      StepsKept(m0, ram.words, head, startAddr, endAddr, maxAddr, cs, {head} + FreeNodes(cs) - {block + 8});
    }

    /** Second part of free: tell the chunk behind, or join with it when it is free. */
    method MergeForward(next: int, size0: int, ghost i: int, ghost back: bool) returns (ok: bool, size: int)
      requires Joinable(chunks, i, back) && next == chunks[i].End()
      requires Elements(nodes) == FreeNodes(chunks) - FreeNodes(chunks[Lo(i, back)..i])
      requires Bounds(head, startAddr, endAddr, maxAddr) && Tiles(chunks, startAddr, endAddr)
      requires Heads(ram.words, chunks) && ListOk(ram.words, head, nodes)
      modifies ram, this`nodes
      ensures ok && size == size0 + (chunks[Hi(chunks, i) - 1].End() - next)
      ensures ListOk(ram.words, head, nodes)
      ensures Elements(nodes) == FreeNodes(chunks) - FreeNodes(chunks[Lo(i, back)..Hi(chunks, i)])
      ensures Told(old(ram.words), ram.words, chunks, i, endAddr)
      ensures PayloadsKept(old(ram.words), ram.words, UsedChunks(chunks))
    {
      hide Tiles, NoAdjacentFree, Heads, ListOk, FreeNodes, UsedChunks, PayloadsKept, OnlyLinks, HeadWord, Bounds;
      hide Told, HeadersKept, Elements;
      ghost var m0, cs := ram.words, chunks;
      ok, size := true, size0;
      NextFacts(m0, head, startAddr, endAddr, maxAddr, cs, nodes, i, back);
      if startAddr <= next < endAddr {
        var h := Load(ram.words, next + 4);
        if !PInuse(h) {
          return false, size;
        }
        if CInuse(h) {
          ram.Store(next + 4, h - 1);
          NextTold(m0, head, startAddr, endAddr, maxAddr, cs, nodes, i);
          ToldUsed(m0, ram.words, cs, i, endAddr);
        } else {
          var nextsize := ChunkSize(h);
          if next + nextsize > endAddr {
            return false, size;
          }
          RemoveChunk(next);
          size := size + nextsize;
          NextJoined(m0, ram.words, head, startAddr, endAddr, maxAddr, cs, i, back);
          ToldFree(m0, ram.words, cs, i, endAddr);
        }
      } else {
        PayloadsSame(m0, UsedChunks(cs));
        ToldEnd(m0, cs, i, endAddr);
      }
    }

    /** Last part of free: shrink the heap or set the foot, then put what is left on the list. */
    method Settle(block0: int, size0: int, ghost m0: Words, ghost i: int, ghost back: bool) returns (r: FreeResult)
      requires Bounds(head, startAddr, endAddr, maxAddr) && Tiles(chunks, startAddr, endAddr)
      requires ListOk(ram.words, head, nodes) && Joinable(chunks, i, back)
      requires Joined(m0, ram.words, chunks, i, endAddr)
      requires Elements(nodes) == FreeNodes(chunks) - FreeNodes(chunks[Lo(i, back)..Hi(chunks, i)])
      requires block0 == Merged(chunks, i, back).addr && size0 == Merged(chunks, i, back).size
      modifies ram, this`nodes, this`chunks, this`endAddr
      ensures r == if OverContracts(old(chunks), startAddr, old(endAddr), i, back) then ContractAssert else Released
      ensures r.Released? ==>
                && Tagged() && chunks == Freed(old(chunks), startAddr, old(endAddr), i, back)
                && endAddr == FreedEnd(old(chunks), startAddr, old(endAddr), i, back)
                && Settled(m0, ram.words, old(chunks), startAddr, old(endAddr), i, back)
                && (Remains(old(chunks), startAddr, old(endAddr), i, back) == [] ==>
                      Hi(old(chunks), i) == |old(chunks)|)
                && PayloadsBelow(old(ram.words), ram.words, UsedChunks(chunks), endAddr)
                && (Feet(m0, old(chunks)) ==> Feet(ram.words, chunks))
    {
      hide Tiles, NoAdjacentFree, Heads, ListOk, FreeNodes, UsedChunks, FreeBytes, PayloadsKept, HeadersKept;
      hide Feet, OnlyLinks;
      hide Bounds, Freed, ContractedSize, Joined, Settled, Clear, Apart, Filled, PayloadsBelow;
      ghost var m2, cs, end := ram.words, chunks, endAddr;
      var block, size := block0, size0;
      if block + size == endAddr {
        var oldSize := endAddr - startAddr;
        var wanted := block - startAddr;
        if wanted % PAGE != 0 {
          wanted := wanted + MIN_CHUNK;
        }
        TopMerged(cs, startAddr, end, i, back);
        var ok, newSize := ContractUnlocked(wanted);
        if !ok {
          return ContractAssert;
        }
        if size > oldSize - newSize {
          size := size - (oldSize - newSize);
        } else {
          size, block := 0, 0;
        }
      } else {
        ram.Store(block + size, size);
      }
      ghost var m3 := ram.words;
      chunks := Freed(cs, startAddr, end, i, back);
      SettledShape(m0, m2, m3, head, startAddr, end, maxAddr, cs, nodes, i, back, block, size);
      if block != 0 && size != 0 {
        RemainsStored(m3, head, startAddr, endAddr, maxAddr, chunks, nodes, Lo(i, back));
        ram.Store(block + 4, size + 1);
        ghost var ns := Elements(nodes);
        InsertChunk(block);
        OneFreeNode(Chunk(block, size, false));
        assert {head, block + 8} + ns == FreeNodes(chunks) + {head};
        RemainsListed(m0, m2, m3, ram.words, head, startAddr, end, maxAddr, cs, nodes, i, back);
      } else {
        NoChunks();
        NothingRemains(m0, m3, head, startAddr, end, maxAddr, cs, nodes, i, back);
      }
      r := Released;
    }

    /**
     free_unlocked of the payload of chunk i. The foot of that chunk is consulted only when its PINUSE bit is clear.
     It never reports corruption; it stops exactly when the merged block is the last MIN_CHUNK bytes of the heap. Two
     free chunks touch afterwards exactly when that PINUSE bit was stale and something is left of the block. If
     contraction gives the whole block back, the last word of a block in use in front of it goes with it.
     */
    method FreeUnlocked(ptr: int, ghost i: int) returns (r: FreeResult)
      requires Tagged()
      requires ptr != 0 ==>
                 && 0 <= i < |chunks| && chunks[i].used && ptr == chunks[i].addr + 8
                 && (Backwards(ram.words, chunks, i) ==> FootOf(ram.words, chunks, i))
      modifies ram, this`nodes, this`chunks, this`endAddr
      ensures ptr == 0 ==>
                && r.Released? && ram.words == old(ram.words)
                && chunks == old(chunks) && endAddr == old(endAddr) && Tagged()
      ensures r.Released? ==> endAddr <= old(endAddr)
      ensures ptr != 0 ==>
                var back := old(Backwards(ram.words, chunks, i));
                && Joinable(old(chunks), i, back)
                && r == (if OverContracts(old(chunks), startAddr, old(endAddr), i, back) then ContractAssert
                   else Released)
                && (r.Released? ==>
                      && Tagged() && chunks == Freed(old(chunks), startAddr, old(endAddr), i, back)
                      && endAddr == FreedEnd(old(chunks), startAddr, old(endAddr), i, back)
                      && Settled(old(ram.words), ram.words, old(chunks), startAddr, old(endAddr), i, back)
                      && (PayloadsInside(chunks, endAddr) <==>
                            if Swallowed(Merged(old(chunks), i, back), startAddr, old(endAddr))
                            then !PrevUsed(old(chunks), Lo(i, back))
                            else Hi(old(chunks), i) == |old(chunks)| || !old(chunks)[|old(chunks)| - 1].used)
                      && (forall k :: k < Lo(i, back) && old(CleanBut(ram.words, chunks, k)) ==>
                            CleanBut(ram.words, chunks, k))
                      && (old(NoAdjacentFree(chunks)) ==>
                           (NoAdjacentFree(chunks) <==>
                              !old(StaleAt(ram.words, chunks, i))
                              || Remains(old(chunks), startAddr, old(endAddr), i, back) == [])))
      ensures ptr != 0 && r.Released? ==>
                && UsedChunks(chunks) == old(UsedChunks(chunks)) - {old(chunks)[i]}
                && FreeBytes(chunks) == old(FreeBytes(chunks)) + old(chunks)[i].size - (old(endAddr) - endAddr)
                && PayloadsBelow(old(ram.words), ram.words, UsedChunks(chunks), endAddr)
                && (old(Feet(ram.words, chunks)) ==> Feet(ram.words, chunks))
                && (old(Clean(ram.words, chunks)) ==> Clean(ram.words, chunks))
    {
      hide Tiles, NoAdjacentFree, Heads, ListOk, FreeNodes, UsedChunks, FreeBytes, PayloadsKept, Feet;
      hide Freed, FreedEnd, OverContracts, FootOf, Hi, Bounds, ChunkSize, PInuse, CInuse, Joined, HeadersKept;
      hide HeadWord, Settled, Remains, Joinable, CleanBut, PayloadsBelow, PayloadsInside, Swallowed;
      if ptr == 0 {
        return Released;
      }
      ghost var m0, cs, end := ram.words, chunks, endAddr;
      ghost var back := Backwards(m0, cs, i);
      var block := ptr - 8;
      var h := Load(ram.words, block + 4);
      var size := ChunkSize(h);
      var next := block + size;
      UsedFacts(m0, head, startAddr, endAddr, maxAddr, cs, nodes, i);
      if !(startAddr <= ptr < endAddr) || (PInuse(h) && !CInuse(h)) {
        return Corrupt;
      }
      var ok;
      ok, block, size := MergeBack(block, size, i);
      if !ok {
        return Corrupt;
      }
      ghost var m1 := ram.words;
      HeadsKept(m0, m1, cs);
      ok, size := MergeForward(next, size, i, back);
      if !ok {
        return Corrupt;
      }
      ghost var m2 := ram.words;
      JoinedSoFar(m0, m1, m2, cs, i, end);
      r := Settle(block, size, m0, i, back);
      if r.Released? {
        ReleasedShape(head, maxAddr, cs, startAddr, end, i, back);
        ReleasedAdjacent(m0, cs, startAddr, end, i);
        forall k | k < Lo(i, back) && CleanBut(m0, cs, k) ensures CleanBut(ram.words, chunks, k) {
          ReleasedClean(m0, ram.words, cs, startAddr, end, i, back, k);
        }
        FreedInsideWhen(head, maxAddr, cs, startAddr, end, i, back);
        PayloadsChain(m0, m1, m2, UsedChunks(cs));
        BelowKept(m0, m2, UsedChunks(cs), endAddr);
        BelowChain(m0, m2, ram.words, UsedChunks(cs), UsedChunks(chunks), endAddr, endAddr);
      }
    }

    /**
     Cuts a free lead off the block at index `at`, so that the rest starts at `pos`. The new header keeps the PINUSE
     bit it finds in memory, and so is stale exactly when that bit was set; a clean heap stays clean elsewhere.
     */
    method CarveLead(chunk: int, pos: int, ghost at: int)
      requires Tagged() && 0 <= at < |chunks| - 1 && chunks[at].used && chunks[at].addr == chunk
      requires chunk + MIN_CHUNK <= pos <= chunks[at].End() - MIN_CHUNK && pos % 8 == 0
      modifies ram, this`nodes, this`chunks
      ensures Tagged() && chunks == Splice(old(chunks), at, at + 1, LeadPieces(old(chunks)[at], pos))
      ensures at + 1 < |chunks| && (StaleAt(ram.words, chunks, at + 1) <==> PInuse(Load(old(ram.words), pos + 4)))
      ensures old(Clean(ram.words, chunks)) && PrevUsed(old(chunks), at) ==> CleanBut(ram.words, chunks, at + 1)
      ensures PayloadsKept(old(ram.words), ram.words, old(UsedChunks(chunks)) - {old(chunks)[at]})
      ensures old(Feet(ram.words, chunks)) ==> Feet(ram.words, chunks)
    {
      hide Tiles, NoAdjacentFree, Heads, ListOk, FreeNodes, UsedChunks, FreeBytes, PayloadsKept, Feet, OnlyLinks;
      hide Bounds, Apart, Clear, InUse, LeadPieces, ChunkSize, PInuse, Clean, CleanBut, StaleAt;
      ghost var m0, cs, ns := ram.words, chunks, nodes;
      LeadFacts(m0, head, startAddr, endAddr, maxAddr, cs, nodes, at, pos);
      var leadsize := pos - chunk;
      var newSize := ChunkSize(Load(ram.words, chunk + 4)) - leadsize;
      SetInuse(pos, newSize);
      ram.Store(chunk + 4, leadsize + 1);
      ram.Store(pos, leadsize);
      ghost var m3 := ram.words;
      InsertChunk(chunk);
      chunks := Splice(cs, at, at + 1, LeadPieces(cs[at], pos));
      LeadAt(cs, at, pos);
      LeadListed(m0, m3, ram.words, head, startAddr, endAddr, maxAddr, cs, nodes, at, pos);
    }

    /** Cuts the block at index k after `nb` bytes into two blocks in use. */
    method CarveTail(chunk: int, nb: int, ghost k: int)
      requires Tagged() && 0 <= k < |chunks| - 1 && chunks[k].used && chunks[k].addr == chunk
      requires MIN_CHUNK <= nb <= chunks[k].size - MIN_CHUNK && nb % 8 == 0
      modifies ram, this`chunks
      ensures Tagged() && chunks == Splice(old(chunks), k, k + 1, TailPieces(old(chunks)[k], nb))
      ensures PayloadsKept(old(ram.words), ram.words, old(UsedChunks(chunks)) - {old(chunks)[k]})
      ensures old(Feet(ram.words, chunks)) ==> Feet(ram.words, chunks)
      ensures old(CleanBut(ram.words, chunks, k)) ==> CleanBut(ram.words, chunks, k)
      ensures k < |chunks| && (StaleAt(ram.words, chunks, k) <==> old(StaleAt(ram.words, chunks, k)))
    {
      hide Tiles, NoAdjacentFree, Heads, ListOk, FreeNodes, UsedChunks, PayloadsKept, Feet, Bounds, InUse;
      hide TailPieces, ChunkSize, CleanBut, StaleAt;
      ghost var m0, cs := ram.words, chunks;
      UsedFacts(m0, head, startAddr, endAddr, maxAddr, cs, nodes, k);
      var remainderSize := ChunkSize(Load(ram.words, chunk + 4)) - nb;
      SetInuse(chunk, nb);
      SetInuse(chunk + nb, remainderSize);
      chunks := Splice(cs, k, k + 1, TailPieces(cs[k], nb));
      TailOk(m0, head, startAddr, endAddr, maxAddr, cs, nodes, k, nb);
    }

    /**
     Moves the start of a block to a page boundary of its payload, giving the lead back as a free chunk. If the block
     is moved, its header is stale exactly when it was put onto a word with PINUSE set.
     */
    method AlignBlock(chunk0: int, nb: int, ghost at0: int) returns (chunk: int, ghost at: int)
      requires Tagged() && 0 <= at0 < |chunks| - 1 && chunks[at0].used && chunks[at0].addr == chunk0
      requires chunks[at0].size >= nb + 4112 && nb >= MIN_CHUNK
      modifies ram, this`nodes, this`chunks
      ensures Tagged() && 0 <= at < |chunks| - 1
      ensures StaleAt(ram.words, chunks, at) <==>
                if (chunk0 + 8) % PAGE != 0 then PInuse(Load(old(ram.words), LeadEnd(chunk0) + 4))
                else old(StaleAt(ram.words, chunks, at0))
      ensures old(Clean(ram.words, chunks)) && PrevUsed(old(chunks), at0) ==> CleanBut(ram.words, chunks, at)
      ensures chunks[at].used && chunks[at].addr == chunk && (chunk + 8) % PAGE == 0 && chunks[at].size >= nb
      ensures chunk == AlignedStart(chunk0) && chunks[at].End() == old(chunks)[at0].End()
      ensures chunks == if chunk == chunk0 then old(chunks)
                        else Splice(old(chunks), at0, at0 + 1, LeadPieces(old(chunks)[at0], chunk))
      ensures FreeBytes(chunks) == old(FreeBytes(chunks)) + old(chunks)[at0].size - chunks[at].size
      ensures |chunks| - at == |old(chunks)| - at0 && chunks[at + 1] == old(chunks)[at0 + 1]
      ensures UsedChunks(chunks) == old(UsedChunks(chunks)) - {old(chunks)[at0]} + {chunks[at]}
      ensures chunks[at] !in old(UsedChunks(chunks)) - {old(chunks)[at0]}
      ensures PayloadsKept(old(ram.words), ram.words, old(UsedChunks(chunks)) - {old(chunks)[at0]})
    {
      hide Tiles, NoAdjacentFree, Heads, ListOk, FreeNodes, UsedChunks, FreeBytes, PayloadsKept, Feet, Bounds;
      hide Splice, ChunkSize, PInuse, StaleAt;
      ghost var m1, cs1 := ram.words, chunks;
      chunk, at := chunk0, at0;
      var mem := chunk + 8;
      InUseMember(cs1, at);
      TileAt(cs1, startAddr, endAddr, at);
      if mem % PAGE != 0 {
        var br := mem / PAGE * PAGE + PAGE - 8;
        var pos := if br - chunk >= MIN_CHUNK then br else br + PAGE;
        LeadFits(chunk, chunks[at].size, nb);
        LeadShape(cs1, startAddr, endAddr, at, pos);
        LeadAt(cs1, at, pos);
        CarveLead(chunk, pos, at);
        chunk, at := pos, at + 1;
      } else {
        PayloadsSame(m1, UsedChunks(cs1) - {cs1[at]});
      }
    }

    /** Gives back what a block has beyond `nb` bytes, when that is more than a smallest chunk. */
    method TrimBlock(chunk: int, nb: int, ghost at: int)
      requires Tagged() && 0 <= at < |chunks| - 1 && chunks[at].used && chunks[at].addr == chunk
      requires chunks[at].size >= nb >= MIN_CHUNK && nb % 8 == 0
      modifies ram, this`nodes, this`chunks, this`endAddr
      ensures Tagged() && 0 <= at < |chunks| && chunks[at].used && chunks[at].addr == chunk && chunks[at].size >= nb
      ensures endAddr <= old(endAddr)
      ensures var c := old(chunks)[at];
              && chunks[at].size == (if c.size > nb + MIN_CHUNK then nb else c.size)
              && chunks == (if c.size <= nb + MIN_CHUNK then old(chunks)
                            else Freed(Splice(old(chunks), at, at + 1, TailPieces(c, nb)), startAddr, old(endAddr),
                                       at + 1, false))
              && FreeBytes(chunks) == old(FreeBytes(chunks)) + c.size - chunks[at].size - (old(endAddr) - endAddr)
      ensures at == |chunks| - 1 <==>
                && old(chunks)[at].size > nb + MIN_CHUNK && at + 2 == |old(chunks)| && !old(chunks)[at + 1].used
                && (chunk + nb - startAddr) % PAGE == 0 && chunk + nb - startAddr >= HEAP_MIN_SIZE
      ensures old(CleanBut(ram.words, chunks, at)) ==> CleanBut(ram.words, chunks, at)
      ensures StaleAt(ram.words, chunks, at) <==> old(StaleAt(ram.words, chunks, at))
      ensures UsedChunks(chunks) == old(UsedChunks(chunks)) - {old(chunks)[at]} + {chunks[at]}
      ensures PayloadsBelow(old(ram.words), ram.words, old(UsedChunks(chunks)) - {old(chunks)[at]}, endAddr)
    {
      hide Tiles, NoAdjacentFree, Heads, ListOk, FreeNodes, UsedChunks, FreeBytes, PayloadsKept, Feet, Bounds;
      hide PayloadsBelow, PayloadsInside, Swallowed, Splice, ChunkSize, Freed, FreedEnd, OverContracts, CleanBut;
      hide StaleAt, Settled, Remains;
      ghost var m2, cs2, rest := ram.words, chunks, UsedChunks(chunks) - {chunks[at]};
      UsedFacts(m2, head, startAddr, endAddr, maxAddr, cs2, nodes, at);
      InUseMember(cs2, at);
      var csize := ChunkSize(Load(ram.words, chunk + 4));
      if csize > nb + MIN_CHUNK {
        WholePages(head, startAddr, endAddr, maxAddr);
        TailAt(cs2, startAddr, endAddr, at, nb);
        CarveTail(chunk, nb, at);
        ghost var m3, cs3, end := ram.words, chunks, endAddr;
        UsedFacts(m3, head, startAddr, endAddr, maxAddr, cs3, nodes, at + 1);
        var f := FreeUnlocked(chunk + nb + 8, at + 1);
        BehindStays(m3, ram.words, cs3, startAddr, end, at);
        TrimmedLast(head, maxAddr, cs2, startAddr, end, at, nb);
        BelowKept(m2, m3, rest, endAddr);
        BelowChain(m2, m3, ram.words, rest, UsedChunks(chunks), endAddr, endAddr);
      } else {
        PayloadsSame(m2, rest);
        BelowKept(m2, m2, rest, endAddr);
      }
    }

    /** The part of palignedAlloc after the inner allocation: align the block, then trim it. */
    method ShapeBlock(chunk0: int, nb: int, ghost at0: int) returns (chunk: int, ghost at: int)
      requires Tagged() && 0 <= at0 < |chunks| - 1 && chunks[at0].used && chunks[at0].addr == chunk0
      requires chunks[at0].size >= nb + 4112 && nb >= MIN_CHUNK && nb % 8 == 0
      modifies ram, this`nodes, this`chunks, this`endAddr
      ensures Tagged() && 0 <= at < |chunks| && chunks[at].used && chunks[at].addr == chunk && endAddr <= old(endAddr)
      ensures chunk == AlignedStart(chunk0) && (chunk + 8) % PAGE == 0
      ensures var piece := old(chunks)[at0].End() - chunk;
              chunks[at].size == (if piece > nb + MIN_CHUNK then nb else piece) && chunks[at].size >= nb
      ensures StaleAt(ram.words, chunks, at) <==>
                if (chunk0 + 8) % PAGE != 0 then PInuse(Load(old(ram.words), LeadEnd(chunk0) + 4))
                else old(StaleAt(ram.words, chunks, at0))
      ensures old(Clean(ram.words, chunks)) && PrevUsed(old(chunks), at0) ==> CleanBut(ram.words, chunks, at)
      ensures UsedChunks(chunks) == old(UsedChunks(chunks)) - {old(chunks)[at0]} + {chunks[at]}
      ensures FreeBytes(chunks) ==
                old(FreeBytes(chunks)) + old(chunks)[at0].size - chunks[at].size - (old(endAddr) - endAddr)
      ensures at == |chunks| - 1 <==> LosesTail(old(chunks), startAddr, at0, nb)
      ensures PayloadsBelow(old(ram.words), ram.words, old(UsedChunks(chunks)) - {old(chunks)[at0]}, endAddr)
    {
      hide Tiles, NoAdjacentFree, Heads, ListOk, FreeNodes, UsedChunks, FreeBytes, PayloadsKept, Feet, Bounds;
      hide Clean, CleanBut, StaleAt, LeadEnd, PInuse, PayloadsBelow, LosesTail, AlignedStart, Freed, Splice;
      hide LeadPieces, TailPieces;
      ghost var m1, cs1, used := ram.words, chunks, UsedChunks(chunks) - {chunks[at0]};
      chunk, at := AlignBlock(chunk0, nb, at0);
      ghost var m2, cs2 := ram.words, chunks;
      assert UsedChunks(cs2) - {cs2[at]} == used;
      TailLostWhen(cs1, at0, cs2, at, startAddr, nb);
      TrimBlock(chunk, nb, at);
      BelowKept(m1, m2, used, endAddr);
      BelowChain(m1, m2, ram.words, used, used, endAddr, endAddr);
    }

    /**
     palignedAlloc_unlocked. `hole` is the index of the chosen chunk in the heap, grown if necessary, and `at` that of
     the block in the new heap. Every call whose inner allocation returns gets a page-aligned block. In a clean heap
     only the PINUSE bit of that block can be wrong, exactly when its header was carved onto a word with that bit set.
     */
    method PalignedAllocUnlocked(size: int, backed: bool, frames: Words)
      returns (r: PageResult, ghost at: int, ghost hole: int)
      requires Tagged() && 0 <= size < 0xFFFF_FFF5 && Request2Size(size) + 4108 < 0xFFFF_FFF5
      requires var req := Request2Size(size) + 4112; Fits(chunks, req) || Growable(req)
      modifies ram, this`nodes, this`chunks, this`endAddr
      ensures r.NoBlock? ==> !r.cause.Block?
      ensures var req := Request2Size(size) + 4112;
              && (r == NoBlock(OutOfMemory) <==>
                    !old(Fits(chunks, req))
                      && (startAddr + RoundUp(old(endAddr) - startAddr + req) > maxAddr || !backed))
              && (!old(Fits(chunks, req)) ==> old(chunks) != [])
              && var e := if old(Fits(chunks, req)) then old(endAddr)
                         else startAddr + RoundUp(old(endAddr) - startAddr + req);
                 var g := if old(Fits(chunks, req)) then old(chunks) else Grown(old(chunks), old(endAddr), e);
                 r != NoBlock(OutOfMemory) ==>
                   && BestFit(g, hole, req) && (r == NoBlock(PastEnd) <==> hole == |g| - 1 && !Cut(g, hole, req))
                   && (r.Aligned? ==>
                         && 0 <= at < |chunks| && endAddr <= e
                         && (StaleAt(ram.words, chunks, at) <==>
                               if (g[hole].addr + 8) % PAGE == 0 then !PrevUsed(g, hole)
                               else PInuse(Load(Filled(old(ram.words), frames, old(endAddr), e),
                                                LeadEnd(g[hole].addr) + 4)))
                         && hole < |Allocated(g, hole, req)|
                         && (var piece := Allocated(g, hole, req)[hole].End() - AlignedStart(g[hole].addr);
                             chunks[at].size ==
                               if piece > Request2Size(size) + MIN_CHUNK then Request2Size(size) else piece)
                         && (chunks[at].End() + 4 <= endAddr <==>
                               !LosesTail(Allocated(g, hole, req), startAddr, hole, Request2Size(size))))
      ensures r.Aligned? ==>
                && Tagged() && 0 <= at < |chunks| && chunks[at].used && r.mem == chunks[at].addr + 8
                && (old(Clean(ram.words, chunks)) ==>
                      && CleanBut(ram.words, chunks, at)
                      && (Clean(ram.words, chunks) <==> !StaleAt(ram.words, chunks, at)))
                && r.mem % PAGE == 0 && chunks[at].size - 4 >= size
                && Request2Size(size) <= chunks[at].size <= Request2Size(size) + MIN_CHUNK
                && FreeBytes(chunks) == old(FreeBytes(chunks)) + (endAddr - old(endAddr)) - chunks[at].size
                && UsedChunks(chunks) == old(UsedChunks(chunks)) + {chunks[at]}
                && (forall e :: e <= old(endAddr) && e <= endAddr ==>
                      PayloadsBelow(old(ram.words), ram.words, old(UsedChunks(chunks)), e))
    {
      hide Tiles, NoAdjacentFree, Heads, ListOk, FreeNodes, UsedChunks, FreeBytes, PayloadsKept, Feet, Bounds;
      hide Request2Size, RoundUp, Allocated, Grown, Fits, InsideKept, Clean, CleanBut, LeadEnd, PInuse;
      hide Filled, PayloadsBelow, LosesTail, AlignedStart, StaleAt;
      var nb := Request2Size(size);
      RequestFits(size);
      PaddedRequest(nb);
      ghost var m0, used, cs0, end0 := ram.words, UsedChunks(chunks), chunks, endAddr;
      var a;
      a, at := AllocUnlocked((nb + PAGE + MIN_CHUNK - 4) % W32, backed, frames);
      hole := at;
      if !a.Block? {
        return NoBlock(a), at, hole;
      }
      ghost var m1, cs1, at1 := ram.words, chunks, at;
      ghost var g, end1 := if Fits(cs0, nb + 4112) then cs0 else Grown(cs0, end0, endAddr), endAddr;
      AllocatedAt(g, hole, nb + 4112);
      InsideWord(Filled(m0, frames, end0, end1), m1, startAddr, endAddr, cs1, at1, nb);
      CleanApart(m0, cs0);
      StaleWhen(m1, cs1, at1);
      var chunk;
      chunk, at := ShapeBlock(a.mem - 8, nb, at);
      assert UsedChunks(cs1) - {cs1[at1]} == used;
      InsideHeap(chunks, startAddr, endAddr, at);
      BelowChain(m0, m1, ram.words, used, used, end0, endAddr);
      if CleanBut(ram.words, chunks, at) { CleanWhen(ram.words, chunks, at); }
      r := Aligned(chunk + 8);
    }

    method RemoveChunk(chunk: int)
      requires ListOk(ram.words, head, nodes) && chunk + 8 in nodes
      modifies ram, this`nodes
      ensures ListOk(ram.words, head, nodes)
      ensures Elements(nodes) == old(Elements(nodes)) - {chunk + 8}
      ensures OnlyLinks(old(ram.words), ram.words, {head} + old(Elements(nodes)) - {chunk + 8})
    {
      ghost var m, ns := ram.words, nodes;
      ghost var k :| 0 <= k < |nodes| && nodes[k] == chunk + 8;
      ListDelEntry(ram, chunk + 8, head, nodes, k);
      nodes := RemoveAt(nodes, k);
      RemoveKeepsSorted(m, ram.words, head, ns, k);
    }
  }
}

# Verified model of the OSPP kernel core

OSPP is a 32-bit x86 kernel. This Dafny project models the parts of it in which correctness is hardest to see
from the code: the kernel heap, the frame allocator, paging and TLB shootdown, the module linker, the
scheduler, the timer table, and two arithmetic kernels. It proves properties of these models for all inputs,
all reachable states and all runs.

`dafny verify dfyconfig.toml` checks everything.

## How it is organised

| file | what it models |
|---|---|
| `Machine.dfy` | 32-bit words, pages, `align_up` / `align_down` |
| `CircularList.dfy` | the intrusive ring of `cllist.hpp`, over a word memory |
| `HeapChunks.dfy` | the heap as a sequence of chunks: tiling, splitting, merging, growth, contraction |
| `HeapMemory.dfy` | which stores touch which header, foot, link or payload |
| `HeapExamples.dfy` | heaps, given word by word, on which the allocator does what one might not expect |
| `Heap.dfy` | the allocator object of `heap.cpp`, in place on the word memory |
| `PagedHeap.dfy` | the heap together with the frames and translations of its pages |
| `Bitmap.dfy` | the packed bitmap allocator |
| `Pmm.dfy` | the physical frame allocator and its boot-time setup |
| `Paging.dfy` | page tables, the processor's walk (section 4.3 of the Intel SDM, volume 3A), recursive pointers |
| `Vmm.dfy` | mapping and unmapping together with frame ownership |
| `Shootdown.dfy` | the cross-core flush protocol as interleaved atomic steps (section 4.10.5 of the same volume) |
| `ElfObject.dfy`, `Relocation.dfy`, `ModuleImage.dfy` | packing of sections, relocation, and what a loaded module contains |
| `ModuleLinker.dfy` | loading and unloading of modules, with their pages and frames |
| `Scheduler.dfy` | round-robin scheduling over whole interrupt frames |
| `Timer.dfy` | the PIT handler table |
| `Crc32.dfy`, `Division.dfy` | table-driven CRC-32 and 64-bit division |

Code that updates memory in place is modelled by classes and methods over the same fields and the same order of
stores; each method is proved against a specification function, and the laws are proved about those functions.
`kstd::panic` and failed assertions are results (`Panic`, `Halted`, `OutOfMemory`, `ContractAssert`, ...), so a
contract says exactly when a call does not return.

## What the code does that one might not expect

Each of these comes with its exact condition, as an equivalence unless the entry says otherwise. Names that end in
`Example`, `ThreeMisaligns` and `EarlyCreateDropsKernel` are instances.

- `alloc` cuts a hole without rewriting `prevFoot` of the chunk behind the remainder. Feet stay consistent exactly when
  the hole is taken whole or is the top chunk (`FeetAfterAlloc`, `StaleFootExample`). Consistent feet are therefore a
  precondition of `free`: only the foot of the freed chunk is needed, and only if its PINUSE bit is clear.
- `request2size` wraps for requests of 0xFFFFFFF5 bytes and more (`RequestFits`, `RequestWrapExample`).
- The limit assertion of `expand_unlocked` compares a 32-bit sum. It answers for the true new end exactly when that end
  is below the last page or the size itself wraps (`GrowthCheckExact`, `GrowthWrapExample`).
- The over-allocation of `palignedAlloc` wraps exactly from `nb + 4108 = 0xFFFFFFF5` on (`PaddedRequest`,
  `PaddedWrapExample`); such requests get a chunk that is far too small.
- `palignedAlloc` keeps whatever PINUSE bit the fresh header holds. The call still returns a page-aligned block; in a
  clean heap its own tag, and no other, is wrong exactly when that bit was set (`CarveLead`, `PalignedAllocUnlocked`,
  `StaleHeaderExample`). Every operation goes on from such a heap.
- `free` of a block whose own PINUSE bit is stale skips the backward merge. Two free chunks touch afterwards exactly when
  the bit was stale and something is left of the block after contraction (`FreedAdjacentWhen`, `FreeUnlocked`,
  `StaleFreeExample`).
- `free` of a 16-byte block at the very end of the heap, behind a block in use, hits the assertion in
  `contract_unlocked` (`OverContractsWhen`, `OverContractsExample`).
- The last word of a payload is the `prevFoot` word of the next chunk. So a payload lies inside the heap, on mapped pages,
  exactly when its chunk is not the last one (`PayloadsInsideWhen`, `ReachableWhen`). When `free` contracts the heap, a
  block in use in front of the freed one loses its last word exactly when the merged block reaches the end and starts a
  page above the minimum size (`NothingRemainsWhen`, `FreedInsideWhen`, `SwallowedExample`). `palignedAlloc` returns a
  block without its last word exactly when its own trim does this (`LosesTail` in `PalignedAllocUnlocked`,
  `TrimmedExample`).
- A heap created below the minimum size is enlarged by contraction (`ContractsDownWhen`, `ContractionGrowsExample`).
- `align_up` aligns every value exactly for powers of two (`AlignsWhen`, `ThreeMisaligns`), and `addralign` comes
  unchecked from the file. Order and disjointness of packed sections do not depend on it.
- The 32-bit range checks of the bitmap are right exactly when the sum does not wrap back into the window
  (`RangeCheckExact`, `RangeWrapExample`).
- `covered_page_range` misses frames exactly when the interval ends in the last page of the address space or wraps
  (`CoveredExact`, `CoveredWrapExample`), and the reserved low area ends below the kernel exactly when the kernel ends in
  that page (`LowEndExact`, `LowEndWrapExample`).
- `unmap_page_locked` returns the frame before it clears the entry and before the shootdown. A frame the allocator may hand
  out is in no TLB, unless the holder of the page-table lock gave it back and has not finished its flush
  (`FreeFrameUncached`). Meanwhile, as long as the entry stands, every idle core can fill its TLB from it and be handed the
  same frame (`FreedFrameStolen`, `StolenFrameExample`); once it is cleared, a core has the frame cached exactly when it
  had it then and has neither reloaded nor invalidated the page since (`CachedExactly`).
- `unmap_pages` panics exactly when a page is mapped to a frame that is not in use, or two of its pages to the same frame
  (`UnmapPages`).
- The relocation bound check lets a site leave its section exactly when `r_offset + 4` wraps (`SiteInSection`,
  `WrappedSiteExample`).
- `schedule` sets a terminated task RUNNING exactly when no other task is READY and the current one is dead or dying
  (`RevivesWhen`, `RevivalExample`).
- The interrupted context survives a `schedule` exactly when the kernel task is made from it, the current task was
  RUNNING, or the frame was stored before (`ContextKeptWhen`). So a task created before the first call costs the kernel
  its context (`EarlyCreateDropsKernel`), although the comment in the source says that there are then two tasks by
  design.
- A timer whose interval, rounded up to whole periods, reaches 2^64 microseconds misses its first due tick
  (`OnTimeWhen`, `MissedExample`).
- `pit::init` resets the handler count but not the table; the count is right exactly when no handler was active
  (`Pit.Init`, `InitForgetsExample`).

## Model

| member | source | states |
|---|---|---|
| `Machine.AlignDivides` | kernel/include/mm/pmm.hpp:25-31 | for powers of two the masks of `align_up` and `align_down` are division and multiplication |
| `Machine.AlignUpPage` | kernel/include/mm/pmm.hpp:29-31 | `align_up` to a page yields the least page multiple not below the value, and zero in the last page |
| `Machine.AlignUpBounds` | kernel/include/mm/pmm.hpp:29-31 | whatever the alignment, the result is not below the value and less than one alignment above it |
| `Machine.AlignsWhen` | kernel/include/mm/pmm.hpp:29-31 | every value is aligned if and only if the alignment is a power of two |
| `Machine.ThreeMisaligns` | kernel/include/mm/pmm.hpp:29-31 | `align_up(1, 3)` is 1 |
| `CircularList.LinkedInserts` | klibcpp/include/klibcpp/cllist.hpp:43-50 | the four link stores turn a duplicate-free ring into the ring with the node inserted at that position, read in both directions |
| `CircularList.UnlinkedRemoves` | klibcpp/include/klibcpp/cllist.hpp:83-86 | joining the neighbours removes exactly that node |
| `CircularList.InsertRemoveInverse` | klibcpp/include/klibcpp/cllist.hpp:43-95 | linking a node in and deleting it restores the ring and all of memory except the two words of the node |
| `CircularList.RingFrame` | klibcpp/include/klibcpp/cllist.hpp:171-174 | a ring depends on the links of its members only |
| `CircularList.InitListHead` | klibcpp/include/klibcpp/cllist.hpp:33-35 | leaves the empty ring |
| `CircularList.ListAdd` | klibcpp/include/klibcpp/cllist.hpp:43-50 | performs the four stores in program order |
| `CircularList.ListAddTail` | klibcpp/include/klibcpp/cllist.hpp:72-74 | the new node stands right before the given position, and only links change |
| `CircularList.ListDel` | klibcpp/include/klibcpp/cllist.hpp:83-86 | performs the two stores |
| `CircularList.ListDelEntry` | klibcpp/include/klibcpp/cllist.hpp:93-95 | the ring loses exactly this entry, and only its neighbours' links change |
| `CircularList.ListEmpty` | klibcpp/include/klibcpp/cllist.hpp:137-139 | true exactly for the empty ring |
| `HeapChunks.RequestFits` | kernel/src/mm/heap.cpp:41-43 | the padded size is a multiple of 8 and holds the request exactly below the wrap, where it is the least such size of at least 16 |
| `HeapChunks.RequestWrapExample` | kernel/src/mm/heap.cpp:41-43 | a request of 0xFFFFFFF5 bytes gets a chunk size of zero |
| `HeapChunks.GrownShape` | kernel/src/mm/heap.cpp:207-247 | growth keeps the tiling and every chunk in use, adds the new bytes to the free ones and leaves a chunk that fits |
| `HeapChunks.AllocatedShape` | kernel/src/mm/heap.cpp:249-265 | taking a hole keeps the tiling, adds exactly one chunk in use, and takes its bytes from the free ones |
| `HeapChunks.FeetAfterAlloc` | kernel/src/mm/heap.cpp:253-263 | feet remain consistent if and only if the hole is not cut or is the top chunk |
| `HeapChunks.ContractionFits` | kernel/src/mm/heap.cpp:322-336 | the new end of a contracted heap lies between the merged block and the old end, in whole pages |
| `HeapChunks.FreedShape` | kernel/src/mm/heap.cpp:277-345 | after free the chunks tile the heap again, one chunk left the set in use, and free bytes changed by its size minus what contraction returned |
| `HeapChunks.FreedAdjacentWhen` | kernel/src/mm/heap.cpp:290-342 | two free chunks touch after a free if and only if the chunk in front is free, the backward merge was skipped, and something is left of the block |
| `HeapChunks.PayloadIsolated` | kernel/src/mm/heap.cpp:29-58 | a payload meets no other payload, no head word, no live link and no live foot |
| `HeapChunks.PayloadsInsideWhen` | kernel/src/mm/heap.cpp:29-58 | all payloads end inside the heap if and only if a free chunk ends it; a payload does if and only if its chunk is not the last |
| `HeapMemory.OverContractsWhen` | kernel/src/mm/heap.cpp:174-177 | the assertion of contraction fails exactly for a smallest chunk at the end behind a chunk in use |
| `HeapMemory.OverContractsExample` | kernel/src/mm/heap.cpp:174-177 | a concrete heap on which it fails |
| `HeapMemory.ContractsDownWhen` | kernel/src/mm/heap.cpp:177-183 | contraction never enlarges the heap if and only if it has at least the minimum size |
| `HeapMemory.ContractionGrowsExample` | kernel/src/mm/heap.cpp:177-183 | contraction of a heap of one page asks for one megabyte |
| `HeapMemory.NothingRemainsWhen` | kernel/src/mm/heap.cpp:322-337 | contraction gives the whole merged block back if and only if it reaches the end and starts a page above the minimum size |
| `HeapMemory.FreedInsideWhen` | kernel/src/mm/heap.cpp:277-345 | when every payload lies inside the heap after a free; in a clean heap with a free top if and only if the merged block is not given back whole |
| `HeapMemory.TrimmedLast` | kernel/src/mm/heap.cpp:383-390 | the trimmed block ends the heap if and only if only a free chunk follows and the block ends a page above the minimum size |
| `HeapMemory.GrowthCheckExact` | kernel/src/mm/heap.cpp:155-163 | the two 32-bit assertions answer for the true new end if and only if that end is below the last page or the size wraps |
| `HeapMemory.GrowthWrapExample` | kernel/src/mm/heap.cpp:155-163 | a request for which the checks pass and the heap would end at zero |
| `HeapMemory.PayloadStoreHarmless` | kernel/src/mm/heap.cpp:33-58 | any store into an own payload keeps the heap invariant, clean tags and the feet; it is outside the heap exactly for the last word of the last chunk |
| `HeapMemory.StaleFootNamesTheBlock` | kernel/src/mm/heap.cpp:253-259 | after a cut, the foot behind the remainder leads to the block in use |
| `HeapExamples.StaleFootExample` | kernel/src/mm/heap.cpp:253-259 | a concrete clean heap, word by word, with that foot |
| `HeapMemory.AllocFreeRoundTrip` | kernel/src/mm/heap.cpp:203-345 | freeing what was just allocated below the top gives back the same chunks |
| `HeapMemory.PaddedRequest` | kernel/src/mm/heap.cpp:359-362 | the over-allocation is one page and one smallest chunk beyond the padded request if and only if the 32-bit sums do not wrap |
| `HeapMemory.PaddedWrapExample` | kernel/src/mm/heap.cpp:359-371 | `palignedAlloc(0xFFFFF000)` asks for 20 bytes, and a usual lead exceeds the chunk |
| `HeapExamples.StaleHeaderExample` | kernel/src/mm/heap.cpp:373 | from a concrete clean heap: a header carved onto a word with bit 0 set claims that the free lead is in use |
| `HeapExamples.StaleFreeExample` | kernel/src/mm/heap.cpp:290-342 | freeing that block skips the merge and leaves it beside its free lead |
| `HeapExamples.SwallowedExample` | kernel/src/mm/heap.cpp:174-196 | alloc(0x100FFC), alloc(16), free of the latter: the last word of the first block is outside the heap |
| `HeapExamples.TrimmedExample` | kernel/src/mm/heap.cpp:383-390 | alloc(0x100FF4), palignedAlloc(0x1004): the trim gives back the page with the last word of the block |
| `HeapMemory.LeadFits` | kernel/src/mm/heap.cpp:365-371 | for every unaligned start the lead is 16 to 4104 bytes and the rest still fits |
| `Heap.KernelHeap.constructor` | kernel/src/mm/heap.cpp:130-148 | one free chunk covers the window, tagged and listed; the whole invariant holds exactly from the minimum size on |
| `Heap.KernelHeap.FindSmallestChunk` | kernel/src/mm/heap.cpp:95-108 | returns a smallest chunk among those that fit, null exactly when none fits |
| `Heap.KernelHeap.FindSlot` | kernel/src/mm/heap.cpp:114-120 | stops at the first member that is large enough |
| `Heap.KernelHeap.InsertChunk` | kernel/src/mm/heap.cpp:110-124 | the list stays a duplicate-free ring sorted by size and gains exactly this node |
| `Heap.KernelHeap.RemoveChunk` | kernel/src/mm/heap.cpp:126-128 | the list stays sorted and loses exactly this node |
| `Heap.KernelHeap.SetInuse` | kernel/src/mm/heap.cpp:51-53 | writes the head, keeping PINUSE, and sets PINUSE of the header behind |
| `Heap.KernelHeap.ExpandUnlocked` | kernel/src/mm/heap.cpp:155-167 | succeeds exactly when both assertions hold and frames are there, with 32-bit sums; the new pages hold what the frames held |
| `Heap.KernelHeap.HighestNode` | kernel/src/mm/heap.cpp:212-219 | finds the list node at the highest address |
| `Heap.KernelHeap.GrowTop` | kernel/src/mm/heap.cpp:221-244 | the new pages join the top free chunk or become one; all payloads, other heads and inner words stay; clean tags stay clean; the corruption test never fires |
| `Heap.KernelHeap.Grow` | kernel/src/mm/heap.cpp:207-245 | growth fails exactly when the true new end exceeds the limit or frames are missing; otherwise a fitting chunk exists; payload words below the old end stay |
| `Heap.KernelHeap.TakeHole` | kernel/src/mm/heap.cpp:249-265 | memory represents the heap with that hole taken; no other payload changes; clean tags stay clean |
| `Heap.KernelHeap.TakeFit` | kernel/src/mm/heap.cpp:249-265 | writes past the end exactly when the top chunk is taken whole |
| `Heap.KernelHeap.AllocUnlocked` | kernel/src/mm/heap.cpp:203-270 | on every reachable heap: best fit; 8-aligned payload of at least the requested bytes, in a chunk less than 16 bytes above the padded request, wholly inside the heap; exactly one new chunk in use; free bytes conserved; all payload words below the old end and the inner words of the block untouched; clean tags stay clean; out of memory and past-the-end cases exact; at most one recursion |
| `Heap.KernelHeap.ContractUnlocked` | kernel/src/mm/heap.cpp:174-196 | shrinks to whole pages, never below the minimum, and fails exactly when not asked to shrink; the words of the pages given up are gone |
| `Heap.KernelHeap.MergeBack` | kernel/src/mm/heap.cpp:281-302 | joins with the predecessor found through its foot exactly when PINUSE is clear |
| `Heap.KernelHeap.MergeForward` | kernel/src/mm/heap.cpp:304-320 | joins with a free successor or clears its PINUSE; corruption is never reported |
| `Heap.KernelHeap.Settle` | kernel/src/mm/heap.cpp:322-343 | contracts or writes the foot, and lists what is left; payload words below the new end stay |
| `Heap.KernelHeap.FreeUnlocked` | kernel/src/mm/heap.cpp:277-351 | on every reachable heap: the invariant again, exactly one chunk fewer in use, bytes conserved up to contraction, payload words below the new end untouched, feet kept consistent; headers in front stay and clean tags stay clean; never reports corruption; exactly when two free chunks touch afterwards, and exactly when a payload reaches beyond the end |
| `Heap.KernelHeap.CarveLead` | kernel/src/mm/heap.cpp:366-380 | cuts the lead off; the PINUSE bit of the new header is stale if and only if it was set in memory, and a clean heap is clean elsewhere |
| `Heap.KernelHeap.CarveTail` | kernel/src/mm/heap.cpp:384-388 | cuts a block into two blocks in use; its tag and clean tags elsewhere stay |
| `Heap.KernelHeap.AlignBlock` | kernel/src/mm/heap.cpp:364-381 | the block starts 8 bytes below a page boundary and is still large enough; if it was moved, its tag is stale exactly when it was put onto a word with that bit set; the chunks are those before, with the lead split off; the lead is the only gain in free bytes |
| `Heap.KernelHeap.TrimBlock` | kernel/src/mm/heap.cpp:383-390 | the block is cut to the request if more than a smallest chunk is left over, and kept whole otherwise; the chunks are those after freeing the rest, free bytes are conserved up to contraction, and all other payload words below the new end stay; exactly when the block becomes the last chunk |
| `Heap.KernelHeap.ShapeBlock` | kernel/src/mm/heap.cpp:363-390 | both: size, tag, free bytes, payloads and the exact condition for the last chunk |
| `Heap.KernelHeap.PalignedAllocUnlocked` | kernel/src/mm/heap.cpp:358-399 | on every reachable heap, every call whose inner alloc returns yields a page-aligned payload; its chunk has the padded request, or at most 16 bytes more where the aligned piece has no more; free bytes are conserved; payload words below the old and the new end untouched; the failures of the inner alloc exactly; exactly when the tag of the block is wrong, and when its last word is outside the heap; a clean heap stays clean up to that tag |
| `PagedHeap.BackedHeap.MapBacking` | kernel/src/mm/heap.cpp:65-73 | the new pages get fresh frames, one each, plus one per page table; fails exactly without a free run for the pages and frames for the tables; each is present and writable, with no other flag |
| `PagedHeap.BackedHeap.MapInitial` | kernel/src/mm/heap.cpp:142 | after it the mapped pages of the window are exactly those of the heap, present and writable; fails exactly as before |
| `PagedHeap.BackedHeap.UnmapBacking` | kernel/src/mm/heap.cpp:182-193 | exactly the pages given up are unmapped; the double-free panic is never reached |
| `PagedHeap.BackedHeap.Prepare` | kernel/src/mm/heap.cpp:206-210 | maps what the growth path will need, and nothing if a chunk fits or the limit forbids it; unbacked exactly when pages are needed and the frame allocator has no room |
| `PagedHeap.BackedHeap.ReachableWhen` | kernel/src/mm/heap.cpp:155-196 | a payload is on mapped pages of the window if and only if it ends at or below the end of the heap |
| `PagedHeap.BackedHeap.AllReachableWhen` | kernel/src/mm/heap.cpp:155-196 | all payloads are if and only if they all lie inside the heap |
| `PagedHeap.BackedHeap.Alloc` | kernel/src/mm/heap.cpp:203-270 | the best-fit block of the heap or of the grown heap, all of it on mapped pages; out of memory exactly when nothing fits and the limit or the frame allocator forbids growth; payload words below the old end stay; the pages of [startAddr, endAddr) are exactly the mapped heap pages, on distinct owned frames; `used_frames` grows by pages and new tables |
| `PagedHeap.BackedHeap.PalignedAlloc` | kernel/src/mm/heap.cpp:358-399 | the same over growth and later contraction: a page-aligned block cut to size, failures exact, free bytes conserved; the block is on mapped pages if and only if the trim leaves something behind it |
| `PagedHeap.BackedHeap.Free` | kernel/src/mm/heap.cpp:277-351 | releases the block unless contraction would not shrink; the chunks are those of the specification; the mapped pages follow; all payloads are still on mapped pages if and only if a free chunk ends the heap, which is spelled out; `used_frames` falls by the pages that contraction returned |
| `Bitmap.BitUpdate` | klibcpp/include/klibcpp/bitmap.hpp:186-196 | setting or clearing a bit changes the reading of that bit only |
| `Bitmap.RunSize` | klibcpp/include/klibcpp/bitmap.hpp:56-60 | a run of n units has n elements, so the counter may add n |
| `Bitmap.RangeCheckExact` | klibcpp/include/klibcpp/bitmap.hpp:83-84 | the 32-bit range check is right exactly when the sum does not wrap back into the window |
| `Bitmap.RangeWrapExample` | klibcpp/include/klibcpp/bitmap.hpp:83-84 | a range of 0xFFFFFFF0 units from unit 32 on passes the check of a window of 1024 |
| `Bitmap.FixedBitmap.AllocThenFree` | klibcpp/include/klibcpp/bitmap.hpp:36-94 | freeing what was just allocated never panics and leaves set and counter as before |
| `Bitmap.FixedBitmap.constructor` | klibcpp/include/klibcpp/bitmap.hpp:23-24 | nothing is allocated |
| `Bitmap.FixedBitmap.SetUnit` | klibcpp/include/klibcpp/bitmap.hpp:186-188 | adds one unit to the set |
| `Bitmap.FixedBitmap.ClearUnit` | klibcpp/include/klibcpp/bitmap.hpp:190-192 | removes one unit from the set |
| `Bitmap.FixedBitmap.Clear` | klibcpp/include/klibcpp/bitmap.hpp:26-29 | the empty set, counter zero |
| `Bitmap.FixedBitmap.SetAll` | klibcpp/include/klibcpp/bitmap.hpp:31-34 | all units, counter MaxUnits, although bits past the end are set too |
| `Bitmap.FixedBitmap.FindRun` | klibcpp/include/klibcpp/bitmap.hpp:43-56 | skipping ahead finds the lowest free run, and finds none only if there is none |
| `Bitmap.FixedBitmap.SetRun` | klibcpp/include/klibcpp/bitmap.hpp:57-58 | adds the run to the set |
| `Bitmap.FixedBitmap.AllocUnits` | klibcpp/include/klibcpp/bitmap.hpp:36-67 | the lowest free run; panics if and only if no run exists; counter exact |
| `Bitmap.FixedBitmap.CheckRange` | klibcpp/include/klibcpp/bitmap.hpp:73-84 | accepts exactly the aligned ranges inside the window |
| `Bitmap.FixedBitmap.FreeUnits` | klibcpp/include/klibcpp/bitmap.hpp:69-94 | returns if and only if the range is in the window and all of it in use; then exactly it becomes free |
| `Bitmap.FixedBitmap.MarkUnitsFree` | klibcpp/include/klibcpp/bitmap.hpp:104-127 | removes the run whether in use or not; counter exact |
| `Bitmap.FixedBitmap.MarkUnitsUsed` | klibcpp/include/klibcpp/bitmap.hpp:129-152 | adds the run whether in use or not; counter exact |
| `Bitmap.FixedBitmap.IsAllocated` | klibcpp/include/klibcpp/bitmap.hpp:154-172 | true exactly for an aligned address of a unit in use |
| `Pmm.FreeableExact` | kernel/src/mm/pmm.cpp:29-56 | the inward rounding is exactly the frames inside the interval and above the floor |
| `Pmm.FreeableIdempotent` | kernel/src/mm/pmm.cpp:103-106 | rounding a rounded range changes nothing |
| `Pmm.CoveredExact` | kernel/src/mm/pmm.cpp:58-79 | the outward rounding is exactly the touched frames if and only if the end is not in the last page |
| `Pmm.CoveredWrapExample` | kernel/src/mm/pmm.cpp:58-79 | one byte in the last page is covered by no frame |
| `Pmm.MapFramesMeaning` | kernel/src/mm/pmm.cpp:93-111 | the frames built up by the loop are those of some AVAILABLE entry |
| `Pmm.EntriesDisjoint` | kernel/src/mm/pmm.cpp:102-107 | disjoint entries contribute disjoint frames, so none is counted twice |
| `Pmm.ArenaIsSafe` | kernel/src/mm/pmm.cpp:81-139 | every frame left to the allocator is nonzero, wholly inside an AVAILABLE entry, at or above 1 MiB and the end of the kernel and of every module |
| `Pmm.LowEndExact` | kernel/src/mm/pmm.cpp:113-117 | the reserved low area reaches the kernel end if and only if that is not in the last page |
| `Pmm.LowEndWrapExample` | kernel/src/mm/pmm.cpp:113-117 | a kernel that ends inside the last page reserves no low area |
| `Pmm.PhysicalMemory.constructor` | kernel/include/mm/pmm.hpp:19-23 | an empty bitmap over all frames |
| `Pmm.PhysicalMemory.InitRegion` | kernel/src/mm/pmm.cpp:182-188 | frees exactly the inward-rounded frames |
| `Pmm.PhysicalMemory.DeinitRegion` | kernel/src/mm/pmm.cpp:190-203 | takes the outward-rounded frames and counts exactly those that were free |
| `Pmm.PhysicalMemory.CountUsed` | kernel/src/mm/pmm.cpp:195-199 | counts the used frames of the range |
| `Pmm.PhysicalMemory.FrameUsed` | kernel/src/mm/pmm.cpp:177-180 | true exactly for an aligned address of a used frame |
| `Pmm.PhysicalMemory.Init` | kernel/src/mm/pmm.cpp:81-139 | for every valid map the free frames are those of the map minus kernel, modules and low memory, and the counters agree with the bits |
| `Pmm.PhysicalMemory.BuildMap` | kernel/src/mm/pmm.cpp:87-111 | free frames and `available_frames` are those of the map |
| `Pmm.PhysicalMemory.AddEntry` | kernel/src/mm/pmm.cpp:93-111 | one turn of the map loop |
| `Pmm.PhysicalMemory.FindLowEnd` | kernel/src/mm/pmm.cpp:113-117 | the rounded end of the kernel or of the highest module |
| `Pmm.PhysicalMemory.ReserveSpan` | kernel/src/mm/pmm.cpp:124-130 | takes the frames of one image, counting only those still free |
| `Pmm.PhysicalMemory.ReserveImages` | kernel/src/mm/pmm.cpp:119-130 | takes kernel and modules, overlaps counted once |
| `Pmm.PhysicalMemory.ReserveLow` | kernel/src/mm/pmm.cpp:132-139 | takes the low bootstrap area |
| `Pmm.PhysicalMemory.AllocFrames` | kernel/src/mm/pmm.cpp:156-161 | the lowest free run, disjoint from everything owned, nonzero and page-aligned; panics exactly when none exists; free bits stay available minus used |
| `Pmm.PhysicalMemory.FreeFramesAt` | kernel/src/mm/pmm.cpp:163-167 | panics exactly when the address starts no frame or a frame is not in use; owned frames go back and the counters stay right |
| `Paging.WalkByPage` | kernel/include/mm/vmm.hpp:70-76 | the walk of an address is the walk of its page number plus the offset |
| `Paging.FlagFacts` | kernel/include/mm/vmm.hpp:47-53 | adding flags never clears Present |
| `Paging.PdePtrDenotes` | kernel/include/mm/vmm.hpp:78-80 | `pde_entry` reaches exactly the PDE that the processor's walk uses |
| `Paging.PtePtrDenotes` | kernel/include/mm/vmm.hpp:82-85 | `pte_entry` reaches exactly the PTE that the processor's walk uses |
| `Paging.EnsureKeeps` | kernel/include/mm/vmm.hpp:248-266 | hanging in a zeroed table changes no translation below the recursive window |
| `Paging.PokeKeeps` | kernel/include/mm/vmm.hpp:274-277 | one PTE store changes the translation of one page |
| `Paging.MapTranslates` | kernel/include/mm/vmm.hpp:268-280 | the page translates to the frame and every other page below the window keeps its translation, also when a table is created |
| `Paging.UnmapTranslates` | kernel/include/mm/vmm.hpp:282-296 | only the page itself loses its translation |
| `Paging.WalkReadsPte` | kernel/include/mm/vmm.hpp:181-192 | a page is mapped exactly when bit 0 of both entries is set, to the frame in the second |
| `Paging.MapEntries` | kernel/include/mm/vmm.hpp:248-280 | map_page stores exactly the frame and the flags in the PTE; the PDE gets the flags added, or is new with Present, Writable and the User bit asked for; every other PTE is kept, and empty in a new table |
| `Paging.UnmapEntries` | kernel/include/mm/vmm.hpp:282-296 | unmapping empties exactly this PTE |
| `Vmm.MapKeepsAccounts` | kernel/include/mm/vmm.hpp:268-280 | mapping an unmapped data page to an unused owned frame keeps data frames distinct, owned and apart from tables |
| `Vmm.UnmapKeepsAccounts` | kernel/include/mm/vmm.hpp:282-296 | dropping a page together with its frame keeps the same |
| `Vmm.MapSlots` | kernel/include/mm/vmm.hpp:248-266 | a mapping adds at most its own directory slot |
| `Vmm.UnmapSlots` | kernel/include/mm/vmm.hpp:282-296 | unmapping leaves the directory alone |
| `Vmm.MappingReadWrite` | kernel/include/mm/vmm.hpp:135-145 | mapping with Present and Writable keeps every mapped page of a window at exactly these flags |
| `Vmm.UnmappingReadWrite` | kernel/include/mm/vmm.hpp:171-179 | so does unmapping |
| `Vmm.TookOnce` | kernel/src/mm/pmm.cpp:156-161 | which frames a mapping takes, the lowest run for its pages and the lowest frames for its tables, is determined |
| `Vmm.Vmm.Pointers` | kernel/include/mm/vmm.hpp:78-85 | dereferencing the recursive pointers yields frame and index of the entries |
| `Vmm.Vmm.Init` | kernel/include/mm/vmm.hpp:96-127 | exactly the first 4 MiB are mapped, identically; the accounts hold; two frames are used; fails exactly with fewer than two free frames; the entries of the window and of the directory have exactly Present and Writable |
| `Vmm.Vmm.FillIdentity` | kernel/include/mm/vmm.hpp:110-113 | entry i names frame i, present and writable |
| `Vmm.Vmm.HangBoot` | kernel/include/mm/vmm.hpp:115-119 | slot 0 holds the table, slot 1023 the directory |
| `Vmm.Vmm.VirtToPhys` | kernel/include/mm/vmm.hpp:181-192 | the processor's translation, all ones for "not mapped" |
| `Vmm.Vmm.AllocFrame` | kernel/src/mm/pmm.cpp:169-171 | the lowest frame that nobody owned; panics exactly when none is free |
| `Vmm.Vmm.EnsurePageTable` | kernel/include/mm/vmm.hpp:248-266 | the table exists afterwards; one frame is used exactly when it was missing; panics exactly when it was missing and none is free |
| `Vmm.Vmm.HangTable` | kernel/include/mm/vmm.hpp:259-265 | the zeroed frame is hung in through the recursive view |
| `Vmm.Vmm.MapPageLocked` | kernel/include/mm/vmm.hpp:268-280 | memory is the mapped memory of the specification; `used_frames` rises by one exactly with a new table |
| `Vmm.Vmm.MapPages` | kernel/include/mm/vmm.hpp:135-145 | n pages get exactly the PTEs of n consecutive frames with the given flags, and PDEs as the source sets them; every other entry is kept; one frame, the lowest free one, per table created; the accounts are kept; panics exactly when more tables are missing than frames are free |
| `Vmm.Vmm.MapFresh` | kernel/src/mm/heap.cpp:65-73 | allocating and mapping keeps the accounts, and `used_frames` rises by the pages plus the tables created; panics exactly without a free run for the pages and frames for the missing tables; the PTEs have exactly these frames and flags |
| `Vmm.Vmm.MapTaken` | kernel/src/sys/ld.cpp:211-220 | mapping frames just taken keeps the accounts; panics exactly when more tables are missing than frames are free; the PTEs have exactly these frames and flags |
| `Vmm.Vmm.UnmapPageLocked` | kernel/include/mm/vmm.hpp:282-296 | panics exactly if the frame of the mapped page is not in use, which never happens to a data page while the accounts are in order; one frame is returned exactly if the page was present |
| `Vmm.Vmm.UnmapPages` | kernel/include/mm/vmm.hpp:171-179 | the pages are unmapped, all others stay, their frames are no longer in use, and `used_frames` falls by one per page that was present; panics exactly when a frame is not in use or serves two of the pages, hence never over data pages; exactly the present PTEs of these pages are emptied |
| `Shootdown.MutexStep` | klibcpp/include/klibcpp/spinlock.hpp:12-25 | every step of every core keeps the lock exclusive |
| `Shootdown.StepKeeps` | kernel/src/mm/vmm.cpp:12-54 | every atomic step of every core keeps the protocol invariant |
| `Shootdown.RunInv` | kernel/src/mm/vmm.cpp:12-54 | the invariant holds in every state of every interleaving over any number of cores |
| `Shootdown.OneShootdownAtATime` | kernel/include/mm/vmm.hpp:129-179 | at most one core is between lock and unlock |
| `Shootdown.CounterIsExact` | kernel/src/mm/vmm.cpp:21-49 | the counter equals the IPIs still to send plus those not acknowledged |
| `Shootdown.CounterNeverUnderflows` | kernel/src/mm/vmm.cpp:51-54 | each decrement finds a positive counter |
| `Shootdown.ZeroMeansFlushed` | kernel/src/mm/vmm.cpp:47-49 | on reading zero, every other initialised core has reloaded after the last page-table store and no stale translation is cached |
| `Shootdown.UnlockedMeansCoherent` | kernel/include/mm/vmm.hpp:129-179 | whenever the lock is free, all TLBs agree with the tables |
| `Shootdown.FreeFrameUncached` | kernel/include/mm/vmm.hpp:282-296 | a free frame is in no TLB and no table, in every state of every careful run, unless the lock holder returned it and has not finished its flush |
| `Shootdown.FreedFrameStolen` | kernel/include/mm/vmm.hpp:293-295 | while the entry of a returned frame stands, any idle core can cache it and be handed the frame |
| `Shootdown.StolenFrameExample` | kernel/include/mm/vmm.hpp:293-295 | a run of two cores that ends this way |
| `Shootdown.CachedExactly` | kernel/include/mm/vmm.hpp:293-295 | after the entry is cleared and until it is mapped again, a core has the translation cached if and only if it had it then and has neither reloaded nor invalidated the page since |
| `ElfObject.PackIsRight` | kernel/include/sys/ld.hpp:74-83 | sections of a region are disjoint, in header order, inside the size, aligned to powers of two, none is forgotten, and each follows the one before with a gap smaller than its alignment |
| `ElfObject.AppendPlaces` | kernel/include/sys/ld.hpp:81-82 | a section is placed at or above the running size, aligned for every power of two |
| `ElfObject.FewestPagesMeans` | kernel/src/sys/ld.cpp:191-192 | a packed region is empty exactly without sections, and no smaller number of whole pages holds its sections |
| `ElfObject.Stage0` | kernel/src/sys/ld.cpp:119-195 | fails exactly without headers; otherwise both regions are packed in the fewest whole pages and the map leads from each header to its section |
| `Relocation.Relocated` | kernel/src/sys/ld.cpp:317-404 | with sites apart, each site holds S+A or S+A-P from its original addend and every other byte is untouched |
| `Relocation.PcRelativeIgnoresBase` | kernel/src/sys/ld.cpp:336-398 | a PC-relative word inside one region is the same whatever base the region gets |
| `Relocation.FoundWhereLinked` | kernel/include/sys/ld.hpp:125-154 | `find_symbol` answers exactly for symbols that relocation resolves inside the module, with the same address |
| `Relocation.Stage2` | kernel/src/sys/ld.cpp:279-408 | succeeds exactly when no entry is refused; memory is the image with the verdicts applied in order, up to the first refusal |
| `Relocation.RelocateSection` | kernel/src/sys/ld.cpp:287-405 | one relocation section |
| `Relocation.RelocateEntries` | kernel/src/sys/ld.cpp:315-404 | the entries of one section, in order, up to the first refusal |
| `ModuleImage.RegionsApart` | kernel/src/sys/ld.cpp:207-209 | regions on different pages share no byte |
| `ModuleImage.LiveModulesApart` | kernel/src/sys/ld.cpp:197-277 | any two regions of live modules are disjoint and inside the module window |
| `ModuleImage.TableAdds` | kernel/src/sys/ld.cpp:69-92 | a module on free pages keeps the table consistent with the bitmap |
| `ModuleImage.TableDrops` | kernel/src/sys/ld.cpp:263-277 | dropping a module and its pages keeps it consistent |
| `ModuleImage.SiteInSection` | kernel/src/sys/ld.cpp:329-338 | a patched word lies in its target section if and only if `r_offset + 4` does not wrap |
| `ModuleImage.WrappedSiteExample` | kernel/src/sys/ld.cpp:329-338 | an object whose patched word lies in front of the module window |
| `ModuleImage.ScriptInside` | kernel/src/sys/ld.cpp:279-407 | every word a module patches lies inside its own regions, if `r_offset + 4` wraps in no entry of its relocation sections |
| `ModuleImage.LoadedContents` | kernel/src/sys/ld.cpp:222-246 | after a load with sites apart, sites hold S+A or S+A-P and every other section byte is the file byte or zero |
| `ModuleImage.LoadedSite` | kernel/src/sys/ld.cpp:279-404 | a site of a loaded module holds S+A or S+A-P with A from the file |
| `ModuleImage.PositionIndependent` | kernel/src/sys/ld.cpp:197-404 | one object loaded at two places holds the same word at every PC-relative site whose symbol is in its own region |
| `ModuleImage.SectionsAreRight` | kernel/src/sys/ld.cpp:134-188 | the sections of a module are those of the headers with SHF_ALLOC, a type and a size; the executable ones are in the code region |
| `ModuleImage.ResolvesWhen` | kernel/src/sys/ld.cpp:343-390 | a symbol has the address of the export of its name, its absolute value, or its value behind the start of its section, and no other |
| `ModuleImage.AcceptedWhen` | kernel/src/sys/ld.cpp:287-404 | no entry is refused if and only if every table has a target header, and every entry has its site in the section and a symbol that is skipped, or resolved with a known type |
| `ModuleImage.LoadedMeans` | kernel/src/sys/ld.cpp:222-404 | with sites apart, every resolved entry of type 1 holds S+A and of type 2 S+A-P, with A from the file, and every other section byte is the file byte for program data and zero otherwise, all in terms of headers, file bytes, symbols and bases |
| `ModuleImage.CopySection` | kernel/src/sys/ld.cpp:230-245 | exactly the section becomes file bytes or zero |
| `ModuleImage.CopySections` | kernel/src/sys/ld.cpp:222-246 | all sections of a region are copied, nothing outside it changes, and the bounds check never fails |
| `ModuleLinker.Linker.constructor` | kernel/include/sys/ld.hpp:159-161 | no module, no page in use |
| `ModuleLinker.Linker.MapRegion` | kernel/src/sys/ld.cpp:211-220 | fresh frames, mapped one by one; halts exactly without frames for pages and tables; the null-frame branch is dead because the allocator panics instead; the pages are present and writable |
| `ModuleLinker.Linker.BackRegion` | kernel/src/sys/ld.cpp:204-220 | the lowest free pages, fresh frames and translations for a region; halts exactly without a run of pages or without frames for it and its tables |
| `ModuleLinker.Linker.UnmapRegion` | kernel/src/sys/ld.cpp:257 | the pages of the region are unmapped and their frames returned, without panic |
| `ModuleLinker.Linker.Stage1` | kernel/src/sys/ld.cpp:197-249 | places the region on free pages with fresh frames and copies it; never returns false; halts exactly without a run of pages or without frames for it and its tables |
| `ModuleLinker.Linker.Release` | kernel/src/sys/ld.cpp:251-261 | returns exactly the pages and frames of the region; never panics |
| `ModuleLinker.Linker.UnloadLocked` | kernel/src/sys/ld.cpp:263-277 | returns exactly the pages and frames of the module and empties its slot |
| `ModuleLinker.Linker.Unload` | kernel/src/sys/ld.cpp:114-117 | the same; null and a layout that is no longer tracked are ignored |
| `ModuleLinker.Linker.FindSlot` | klibcpp/include/klibcpp/static_array.hpp:182-189 | the first free slot |
| `ModuleLinker.Linker.PlaceRegion` | kernel/src/sys/ld.cpp:83-87 | places one region of the layout under construction and keeps all live modules disjoint |
| `ModuleLinker.Linker.Begin` | kernel/src/sys/ld.cpp:77-81 | the new slot holds the packed, unplaced layout |
| `ModuleLinker.Linker.Unwind` | kernel/src/sys/ld.cpp:94-96 | the error exit restores bitmap, table and frames exactly, up to page tables |
| `ModuleLinker.Linker.Load` | kernel/src/sys/ld.cpp:69-97 | returns null exactly for a null object, no headers or a refused relocation entry, and then bitmap, table and frames are what they were up to page tables; a successful load fills the first free slot with a layout on formerly free pages, and memory is the relocated image, whose bytes and words are those of the file, the symbols and the bases (LoadedMeans); no byte outside the regions changes if `r_offset + 4` wraps in no relocation entry; panics exactly for a full table, for a code region that cannot be placed, or for a data region that cannot be placed after the frames and pages that the code region takes |
| `ModuleLinker.Linker.LoadThenUnload` | kernel/src/sys/ld.cpp:69-117 | load followed by unload gives back bitmap, table and frames exactly, up to page tables |
| `Scheduler.PickSound` | kernel/src/sched/scheduler.cpp:153-167 | the scan finds the first READY slot in cyclic order, none exactly when nobody is READY |
| `Scheduler.TickSafe` | kernel/src/sched/scheduler.cpp:120-173 | under the invariant a schedule leaves exactly one task RUNNING, the current one, which was READY, and hands out its frame |
| `Scheduler.ExactlyOneRuns` | kernel/src/sched/scheduler.cpp:120-173 | after every run with a completed schedule exactly the current task is RUNNING |
| `Scheduler.RunIsRight` | kernel/src/sched/scheduler.cpp:111-173 | in every run each dispatched frame is the one stored at the last preemption or creation of that task, and a terminated task never runs again |
| `Scheduler.SavedAs` | kernel/src/sched/scheduler.cpp:132-151 | a running task is saved as TERMINATED if and only if the frame has 0xDEADDEAD in eax and 0 in ebp, and as READY otherwise, with that frame |
| `Scheduler.DiesWhen` | kernel/src/sched/scheduler.cpp:132-151 | over every run a task dies if and only if a frame stored at one of its preemptions shows these two values |
| `Scheduler.TickCloser` | kernel/src/sched/scheduler.cpp:153-167 | each schedule dispatches a READY task or brings the current index strictly closer to it |
| `Scheduler.WaitShrinks` | kernel/src/sched/scheduler.cpp:153-167 | until served, a READY task stays READY and each schedule costs at least one step, also while tasks are created |
| `Scheduler.BoundedWaiting` | kernel/src/sched/scheduler.cpp:153-167 | a READY task is served within its cyclic distance, at most 255 calls unless it sits at the current index |
| `Scheduler.PreemptedReturns` | kernel/src/sched/scheduler.cpp:132-173 | a task preempted with any other frame gets the processor again, with exactly that frame, within its distance |
| `Scheduler.RevivesWhen` | kernel/src/sched/scheduler.cpp:138-172 | a terminated task is set RUNNING if and only if no other task is READY and the current one is or becomes terminated |
| `Scheduler.RevivalExample` | kernel/src/sched/scheduler.cpp:169-172 | a run from the constructor in which the kernel task dies and then idle, which is revived |
| `Scheduler.ContextKeptWhen` | kernel/src/sched/scheduler.cpp:132-173 | after a schedule some slot holds the interrupted frame if and only if the kernel task was made from it, the current task was RUNNING, or it was there before |
| `Scheduler.EarlyCreateDropsKernel` | kernel/src/sched/scheduler.cpp:126-151 | with a task created right after the constructor, no slot holds the kernel context after the first schedule |
| `Scheduler.RoundRobin.constructor` | kernel/src/sched/scheduler.cpp:65-95 | idle in slot 0, READY; the run invariant holds |
| `Scheduler.RoundRobin.FindFree` | klibcpp/include/klibcpp/static_array.hpp:182-189 | slots are filled in order, so the first free one is the live count |
| `Scheduler.RoundRobin.CreateTask` | kernel/src/sched/scheduler.cpp:111-118 | a READY task in the next slot; panics exactly when all 256 are taken |
| `Scheduler.RoundRobin.SaveCurrent` | kernel/src/sched/scheduler.cpp:132-151 | creates the kernel task or stores the running frame, READY or TERMINATED by the signature |
| `Scheduler.RoundRobin.DispatchNext` | kernel/src/sched/scheduler.cpp:153-172 | the do-while scan performs the specified dispatch, including the fall-through |
| `Scheduler.RoundRobin.Schedule` | kernel/src/sched/scheduler.cpp:120-173 | new state and returned frame are those of the specification |
| `Timer.CountIsExact` | kernel/src/driver/pit.cpp:13-103 | `handler_count` equals the number of active slots after every operation |
| `Timer.RegisterFailsOnly` | kernel/src/driver/pit.cpp:16-32 | registering fails exactly for a null callback or a full table |
| `Timer.DueExactly` | kernel/src/driver/pit.cpp:77-89 | within one rounded interval the elapsed time suffices at its last tick only |
| `Timer.OnTimeWhen` | kernel/src/driver/pit.cpp:77-89 | an armed handler fires one rounded interval later if and only if that is below 2^64 microseconds |
| `Timer.MissedExample` | kernel/src/driver/pit.cpp:77-89 | the longest interval with a period of one millisecond misses its tick |
| `Timer.TimeOfWrapped` | kernel/src/driver/pit.cpp:53-54 | wrap-around of the tick count and of the product cancels out |
| `Timer.RegisterArms` | kernel/src/driver/pit.cpp:19-29 | a registered handler starts counting at the current tick |
| `Timer.TickOnce` | kernel/src/driver/pit.cpp:66-96 | one tick fires a kept handler exactly when it is due and advances its slot accordingly |
| `Timer.SlotAfter` | kernel/src/driver/pit.cpp:61-103 | the contents of a kept slot after any run |
| `Timer.FiresOnSchedule` | kernel/src/driver/pit.cpp:13-103 | Interval fires exactly at ticks r + k*max(1, ceil(interval/period)), OneShot only at the first of these, EveryTick at all |
| `Timer.RegisteredCalls` | kernel/src/driver/pit.cpp:13-103 | from a successful registration on, while the slot is kept, its part in the calls of the next tick is exactly the registered callback and argument if and only if that tick is a multiple of the interval asked for, rounded up to whole periods and at least one (Interval), the first of these (OneShot), or any (EveryTick) |
| `Timer.UnregisterExactly` | kernel/src/driver/pit.cpp:35-50 | exactly the lowest active slot with that callback and argument is taken out, if there is one |
| `Timer.Pit.constructor` | kernel/src/driver/pit.cpp:6-11 | zeroed storage: no handler is active |
| `Timer.Pit.Init` | kernel/src/driver/pit.cpp:105-108 | counters and period are reset, the table is kept; the counter is right if and only if no handler is active |
| `Timer.InitForgetsExample` | kernel/src/driver/pit.cpp:105-108 | with one handler registered, the counter is wrong after a second init |
| `Timer.Pit.Register` | kernel/src/driver/pit.cpp:13-33 | fills the first inactive slot or changes nothing |
| `Timer.Pit.Unregister` | kernel/src/driver/pit.cpp:35-50 | deactivates the first active match or changes nothing |
| `Timer.Pit.TickHandler` | kernel/src/driver/pit.cpp:52-103 | every slot advances, the due callbacks run in slot order, and the counter stays exact |
| `Timer.Pit.TickSlot` | kernel/src/driver/pit.cpp:65-96 | one slot advances and the counter drops exactly when a OneShot fires |
| `Crc32.StepXor` | kernel/include/crc32.hpp:14-18 | the shift register is linear |
| `Crc32.FeedTogether` | kernel/include/crc32.hpp:11-21 | feeding n bits one by one is xoring them in at once and stepping n times |
| `Crc32.LookupIsEightBits` | kernel/include/crc32.hpp:31-33 | one table lookup does the work of eight message bits |
| `Crc32.GenerateTable` | kernel/include/crc32.hpp:7-23 | entry k is eight register steps of k |
| `Crc32.Calc` | kernel/include/crc32.hpp:27-36 | for every byte string the result is the bit-at-a-time polynomial CRC |
| `Crc32.Chaining` | kernel/include/crc32.hpp:27-36 | feeding a result in as `initial` equals the CRC of the concatenation |
| `Crc32.GeneratorBits` | kernel/include/crc32.hpp:10 | the constant is the reflected generator: bit 31 - i stands for the power i |
| `Crc32.CheckValue` | kernel/include/crc32.hpp:7-36 | the CRC of the digits 1 to 9 is 0xCBF43926 |
| `Division.ShiftFits` | klibcpp/src/klibcpp/cstdlib.cpp:88-90 | the shifted remainder is below 2^64, whatever the divisor |
| `Division.RoundKeeps` | klibcpp/src/klibcpp/cstdlib.cpp:88-94 | one round keeps quotient and remainder of the bits read so far |
| `Division.UDivMod` | klibcpp/src/klibcpp/cstdlib.cpp:76-97 | panics exactly for b = 0; otherwise a = q*b + r with r < b |
| `Division.UDivDi3` | klibcpp/src/klibcpp/cstdlib.cpp:99-103 | the quotient |
| `Division.UModDi3` | klibcpp/src/klibcpp/cstdlib.cpp:105-109 | the remainder |

## Left out

- Inline assembly and devices: descriptor tables, port I/O, LAPIC and IOAPIC registers, serial, VGA, AP start-up.
- What `iret` does to the stack pointer, `stack_ptr`, stack ownership and task names; context switching is modelled
  as copied frames. Nothing in the source blocks a task, so BLOCKED stays unused in the runs.
- Liveness of the shootdown wait and of the spinlocks, which depends on interrupt delivery.
- Shootdown.FreeFrameUncached: is about runs that never map a free frame and never return a frame that a second page is mapped to, as the accounts of the virtual memory manager keep it.
- Weak memory order: the shootdown steps are interleaved atomically.
- Cores that come up during a shootdown: `initialized` flags change only between shootdowns, and a core comes up with
  an empty TLB. Apic ids are distinct.
- Whole-run consistency of heap feet, which does not hold; it is a hypothesis of `free`, with the exact condition proved.
- Heap.KernelHeap.AllocUnlocked: excludes exactly the requests whose growth slips past the limit check (GrowthCheckExact) and those of 0xFFFFFFF5 bytes and more (RequestFits), after which the code works on a wrong size; heaps with stale PINUSE bits and touching free chunks are covered.
- Heap.KernelHeap.Grow: excludes the same requests.
- Heap.KernelHeap.PalignedAllocUnlocked: also excludes exactly the requests whose over-allocation wraps (PaddedRequest).
- Heap.KernelHeap.FreeUnlocked: pointers that were never handed out are not covered, nor is a block with PINUSE clear whose foot is stale (StaleFootNamesTheBlock), where the code takes a block in use off the free list; the corruption checks are shown never to fire on all others.
- Heap.KernelHeap.MergeBack: excludes the same blocks.
- Heap.KernelHeap.Settle: of a payload that reaches beyond the new end, the words there are not promised, since their page is gone; so too for FreeUnlocked, TrimBlock and PalignedAllocUnlocked, which say exactly when that happens.
- Heap.KernelHeap.constructor: the window is assumed to end at or below its limit, which lies below the last page, and the list head to lie outside it.
- PagedHeap.BackedHeap.MapBacking: the permissions given to the heap are fixed to Writable; MapPages is proved for all flags.
- Bitmap.FixedBitmap.CheckRange: excludes exactly the ranges whose 32-bit sum wraps back into the window (RangeCheckExact), after which the code leaves its array.
- Bitmap.FixedBitmap.FreeUnits: excludes the same ranges.
- Bitmap.FixedBitmap.MarkUnitsFree: excludes the same ranges.
- Bitmap.FixedBitmap.MarkUnitsUsed: excludes the same ranges.
- Pmm.PhysicalMemory.Init: AVAILABLE entries are assumed disjoint and below 4 GiB.
- Pmm.ArenaIsSafe: the kernel and the modules are assumed to end below the last page (LowEndExact).
- Identity mapping of device memory and ACPI scanning, whose frames are outside the ownership discipline.
- ModuleLinker.Linker.Load: sums of section offsets and sizes are assumed not to wrap 32 bits, and the object file is read as total memory (its tables and strings are not bounds-checked by the source either).
- ElfObject.PackIsRight: the same sums are assumed not to wrap.
- Relocation.FoundWhereLinked: section indices are assumed to stay below the reserved ones.
- Vmm.Vmm.MapPages: the recursive window and what lies behind it are excluded, since a mapping there would change the view through which the tables are edited; so too for the other operations on pages.
- Destruction of the linker, deletion of the object with its layout, and the heap nodes of sections; a region holds its
  sections as a sequence.
- Timer callbacks that register or unregister handlers while the table is being walked.
- Timer.FiresOnSchedule: is about ticks with an extended frame and a positive period; other ticks are counted without firing (TickHandler), and with a period of zero time stands still.
- Logging, printf, float formatting, string helpers, self-tests, build files.

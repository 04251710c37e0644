# Tachyon memory management, verified

This project models the memory-management stack of the tachyon kernel in Dafny and proves what
its layers promise one another.  From the bottom up:

* **Frames.**  `BitMap.dfy` is the packed bit array, `FrameMap.dfy` the map of taken frames seen
  as a sequence of booleans, `PhysicalMemory.dfy` the frame allocator that scans it.
* **Page tables.**  `Entries.dfy` is the format of an entry, the same in both formats the kernel uses
  (sections 4.3 and 4.5 of the Intel SDM, Volume 3A), `PageTree.dfy` the radix tree of table frames,
  `FrameStore.dfy` physical memory as frames of entries.  `VirtualMemory64.dfy` is the four-level walk
  with 2M pages.  `TempSlots.dfy` and `VirtualMemory86.dfy` are the two-level walk that reaches every
  table through ten temporary slots; `AddressSpaces.dfy` is its state machine over many spaces.
  `PagingWalk.dfy` is the processor's own walk, constants written out, and `PageRuns.dfy` what it finds
  after any run.
* **The break.**  `BreakRule.dfy` and `BreakZone.dfy` say what moving the break of a zone means for
  mappings and frames; `BreakPageAllocator.dfy` does it page by page.  `ZoneWords.dfy` is what the
  zone's mappings show: an array of words, whoever else uses the machine.  `ZoneManager.dfy` is the
  table of zones.
* **The heap.**  `HeapBlocks.dfy` is the boundary-tag layout on values, `HeapTags.dfy` what reading and
  rewriting tags does to it, `HeapStores.dfy` each operation as its list of new pages and stores.
  `CoreHeap.dfy` is the heap that writes tags into an array of words.  `HeapOnZone.dfy` carries those
  very pages and stores out on the zone's mapped pages, and `HeapRuns.dfy` does so over whole runs.
* **Beside the stack.**  `NumberText.dfy` and `Log.dfy` print and parse numbers;
  `SharedPointers.dfy` is the reference-counted pointer.

Every stateful layer has the same shape.  A value-level module defines the state, the effect of
each operation and the runs built from them, and proves the theorems over all runs.  A class with
the kernel's own fields, arrays and loops is then proved to perform exactly that effect.  So a
theorem about `HeapBlocks.Step` is about `CoreHeap.Allocate` and `CoreHeap.Free`, and one about
`AddressSpaces.Step` is about `VirtualMemory.Map`.

`dafny verify dfyconfig.toml` checks the whole project.  `hide` statements in proof bodies only keep
definitions from the solver where they are not needed.

## Where the code departs from its comments

The model follows the code.  Each departure that matters is a theorem: where the code does what its
comments say only sometimes, with the exact condition and with an input at which it does not.

* Aligning up adds the whole alignment, so a scan never returns the frame it found free, only a
  later one (`FrameMap.OnePage`).
* A failed bitmap search becomes index 0 (`PhysicalMemoryModel.AlignedIndexLost`), so the scan's own
  test for failure never fires.  The scan tries frame 0 and begins a second pass, from frame 1, that
  may find what the first one skipped (`FrameMap.SecondPassServes`).  If no pass serves the request
  or leaves the map the scan goes round forever (`FrameMap.ScanEnds`, `FrameMap.FullMapLoops`).
* The answer 0 means failure, except when frame 0 itself was claimed (`FrameMap.ZeroGranted`,
  `FrameMap.ZeroServed`).
* The mask that aligns down is right exactly for powers of two (`PhysicalMemoryModel.MaskRounds`,
  `PhysicalMemoryModel.MaskMisses`).
* The bitmap search stops after one eighth of the map (`BitMapModel.SearchLimit`,
  `BitMapModel.SearchMisses`).
* A claim of a single page leaves the frame before it free, and the next claim cannot take it
  (`FrameMap.HoleLeft`).
* Marking a region leaves its last page out (`FrameMap.LastPageLeftOut`,
  `FrameMap.LastPageStaysTaken`).
* The guards of `increase` and `decrease` can wrap (`BreakRule.AboveIsExact`, `BreakRule.AboveMisses`,
  `BreakRule.BelowIsExact`, `BreakRule.BelowMisses`), and so can the size of a heap request
  (`CoreHeapModel.SizeIsExact`, `CoreHeapModel.SizeMisses`).
* `allocate` does not look at the answer of `increase`, so it goes on past the end of an exhausted
  zone.  It does so exactly when serving the request takes more words than the zone has
  (`CoreHeapModel.CoreHeap.Allocate`); in a zone of one page, from 4081 bytes on
  (`CoreHeapModel.OnePageZone`).
* A zone may be defined inside another one (`ZoneManagerModel.NestedZoneAccepted`).
* Removing a zone leaves its mark of use, so a zone defined later in the same slot halts every
  allocator that is given it (`ZoneManagerModel.MarkStays`, `ZoneManagerModel.MarkOutlives`).
* A page mapped for user mode stays closed to it: the tables on its way are made present and writable
  only (`PagingWalk.Walk86Is`, `PagingWalk.Walk64Is`).
* A range of bytes that begins inside a frame is counted as if it began with it, so `tryAllocate` and
  `free` can miss its last frame (`PhysicalMemoryModel.UnalignedBytes`,
  `PhysicalMemoryModel.UnalignedMisses`).
* A failed lookup leaves its directory in a temporary slot, so ten spaces can block all mapping
  (`AddressSpaces.NineSpacesSuffice`, `AddressSpaces.TenSpacesReached`).

## Model

| member | source | states |
|---|---|---|
| HeapBlocks.StepKeeps | core/tachyon.memory/CoreHeap.cc:54-141 | allocation, release of a live payload and a client's write all keep the heap well formed (blocks tile base to top exactly, header and footer agree, no two free neighbours, last block free), and each changes only the payload it names |
| HeapBlocks.RunRefinesBuffers | core/tachyon.memory/CoreHeap.cc:54-141 | over any run the heap stays well formed and behaves as a finite map from pointers to buffers |
| HeapBlocks.BufferStable | core/tachyon.memory/CoreHeap.cc:60-140 | a payload keeps its words over any stretch of a run that neither writes nor releases it, whatever else is allocated, released or written |
| HeapBlocks.AllReleased | core/tachyon.memory/CoreHeap.cc:107-140 | in any run, nothing is allocated if and only if the memory is one single free block |
| HeapBlocks.BufferBounds | core/tachyon.memory/CoreHeap.cc:16-40 | live payloads lie inside the heap and are pairwise disjoint, with a footer and a header between any two |
| HeapBlocks.FirstFit | core/tachyon.memory/CoreHeap.cc:62-83 | the block found is free, holds the request and two more words, and no earlier block does |
| HeapBlocks.ChosenBlock | core/tachyon.memory/CoreHeap.cc:62-83 | the heap grows only when no block fits, always at the last and free block, and by the fewest pages that suffice; the blocks' sizes and tags still add up |
| HeapBlocks.AllocatedBlocks | core/tachyon.memory/CoreHeap.cc:62-76 | the payload begins right after the header of the chosen block, the rest of that block becomes a free one, and all other blocks are as before |
| HeapBlocks.AllocateKeeps | core/tachyon.memory/CoreHeap.cc:63-76 | serving a request adds one payload of exactly the words asked for at a new place and leaves every other payload where it was, with its contents |
| HeapBlocks.ReleaseKeeps | core/tachyon.memory/CoreHeap.cc:107-140 | releasing a payload removes that one and leaves every other one with its contents, through both merges |
| HeapBlocks.ReleasedShape | core/tachyon.memory/CoreHeap.cc:113-140 | after the two-sided merge no two neighbours are free and the last block still is |
| HeapBlocks.WriteKeeps | core/tachyon.memory/CoreHeap.cc:26-39 | a client's write inside its payload hits no header, no footer and no other payload |
| HeapBlocks.NothingLive | core/tachyon.memory/CoreHeap.cc:107-140 | a well-formed heap has no live payload exactly when it is one free block |
| HeapTags.TagOf | core/tachyon.memory/CoreHeap.cc:17-43 | the flag bits in a tag never disturb the size stored in it, in headers and footers |
| CoreHeapModel.SizeIsExact | core/tachyon.memory/CoreHeap.cc:18-26 | rounding a request and adding room for its tags is right in 32 bits exactly for requests that leave twelve bytes of the address space |
| CoreHeapModel.SizeMisses | core/tachyon.memory/CoreHeap.cc:60 | a concrete request that is rounded to nothing |
| HeapTags.TagsAt | core/tachyon.memory/CoreHeap.cc:20-33 | in a tiled heap the tags of block i stand where the address arithmetic looks for them |
| HeapTags.FoundAllocates | core/tachyon.memory/CoreHeap.cc:63-82 | cutting the block found after any number of growth steps is one allocation on the heap before the search |
| HeapTags.GrowthNeeded | core/tachyon.memory/CoreHeap.cc:77-82 | when the search needs a page that the zone no longer has, the request as a whole does not fit the zone |
| HeapTags.LiveNotLast | core/tachyon.memory/CoreHeap.cc:134-136 | a live block always has a successor, so the header read after a release lies below top although the test allows top itself |
| HeapTags.RetaggedReleases | core/tachyon.memory/CoreHeap.cc:113-140 | rewriting the tags of the merged left part, and then of the whole, is exactly the release of the block |
| CoreHeapModel.OnePageZone | core/tachyon.memory/CoreHeap.cc:77-82 | in a zone of one page the first request is served exactly up to 4080 bytes; a larger one finds the refused growth unnoticed |
| HeapStores.AllocateCarried | core/tachyon.memory/CoreHeap.cc:54-87 | a page, a header and a footer for each round of growth, then the tags of the rest and of the block handed out: whatever the new pages hold, these accesses are one allocation |
| HeapStores.FirstCarried | core/tachyon.memory/CoreHeap.cc:45-87 | the first page and its lone header, then those of an allocation, make a well-formed heap out of no memory |
| HeapStores.ReleaseCarried | core/tachyon.memory/CoreHeap.cc:107-140 | two stores, or four when the successor is free too, are the release of the block |
| HeapStores.AllocateMisses | core/tachyon.memory/CoreHeap.cc:62-83 | no store of an allocation falls into a payload that is live |
| HeapStores.ReleaseMisses | core/tachyon.memory/CoreHeap.cc:107-140 | no store of a release falls into a payload other than the released one |
| CoreHeapModel.CoreHeap.Store | core/tachyon.memory/CoreHeap.cc:38-39 | the only way a tag is written: at an aligned address between base and top; each store goes into the record of the operation, which replayed on the words before it gives the words after it |
| CoreHeapModel.CoreHeap.Init | core/tachyon.memory/CoreHeap.cc:45-52 | takes the first page and leaves one free block whose header is right (its footer is not written yet), ready to be searched for any request |
| CoreHeapModel.CoreHeap.Allocate | core/tachyon.memory/CoreHeap.cc:54-87 | terminates; returns a word-aligned non-null payload of at least the size asked for, between base and top, being the first fit, exactly when serving the request fits the zone; otherwise the growth that cannot happen is reported with the address the kernel would store to; the pages taken and words stored, in order, are exactly those of `HeapStores.AllocateMoves` |
| CoreHeapModel.CoreHeap.Search | core/tachyon.memory/CoreHeap.cc:62-86 | the search terminates, by the pages left in the zone and then the blocks left to look at, and serves the request by one allocation step exactly when that fits the zone |
| CoreHeapModel.CoreHeap.GrowBlock | core/tachyon.memory/CoreHeap.cc:77-82 | growth adds one page to the last, free block and continues the same search, or finds the zone exhausted |
| CoreHeapModel.CoreHeap.MergePrevious | core/tachyon.memory/CoreHeap.cc:110-132 | joins the released block with its predecessor exactly when that one is free, reading the predecessor only above base |
| CoreHeapModel.CoreHeap.MergeNext | core/tachyon.memory/CoreHeap.cc:134-140 | joins the result with the successor exactly when that one is free, which completes the release |
| CoreHeapModel.CoreHeap.Free | core/tachyon.memory/CoreHeap.cc:89-141 | frees the block and merges it both ways; a null or misaligned pointer or a block free already changes nothing; the words stored, in order, are exactly those of `HeapStores.ReleaseMoves` |
| BitMapModel.WithBitAt | core/tachyon.collections/BitMap.cc:7-14 | setting or clearing a bit of a byte leaves the other seven alone |
| BitMapModel.UnpackSet | core/tachyon.collections/BitMap.cc:9-11 | writing a bit changes one element of the boolean sequence the bytes stand for, across byte boundaries |
| BitMapModel.SearchLimit | core/tachyon.collections/BitMap.cc:43-50 | the search, which stops at the byte count, answers like a search of the whole map if and only if the value occurs within the limit, or nowhere from the start on |
| BitMapModel.SearchMisses | core/tachyon.collections/BitMap.cc:43 | a concrete map whose only clear bit is not found |
| BitMapModel.BitMap.Get | core/tachyon.collections/BitMap.cc:20-27 | reads the element of the boolean sequence |
| BitMapModel.BitMap.Set | core/tachyon.collections/BitMap.cc:29-32 | changes exactly one element of the boolean sequence |
| BitMapModel.BitMap.GetIndexOf | core/tachyon.collections/BitMap.cc:38-51 | the least index from start within the limit that holds the value, and -1 exactly when there is none |
| FrameMap.ScanStarts | core/tachyon.memory/PhysicalMemory.cc:77-79 | the first frame a pass proposes is the lowest multiple of the alignment that follows a frame seen free from where the pass starts |
| FrameMap.ScanAdvances | core/tachyon.memory/PhysicalMemory.cc:85-87 | while the search succeeds, a pass goes from a refused frame to the next one it can propose and skips none |
| FrameMap.PassEnds | core/tachyon.memory/PhysicalMemory.cc:85-87 | when the search fails the pass has proposed all it can, so the restart from frame 0 loses nothing of it |
| FrameMap.ScanNext | core/tachyon.memory/PhysicalMemory.cc:81-88 | any refusal, also the restart from frame 0 and all later passes, leaves the scan where the answer is still ahead, and a scan that ends makes progress |
| FrameMap.ScanStops | core/tachyon.memory/PhysicalMemory.cc:81-92 | where the scan stops, the frame it has is the one granted, or the request is given up |
| FrameMap.EndsOneWay | core/tachyon.memory/PhysicalMemory.cc:70-92 | a scan that ends either gives up or grants exactly one frame, a multiple of the alignment from which the whole run is free |
| FrameMap.ZeroGranted | core/tachyon.memory/PhysicalMemory.cc:70-92 | frame 0 is granted exactly if the first pass neither serves the request nor leaves the map and the run is free from frame 0; never while frame 0 is taken |
| FrameMap.ZeroServed | core/tachyon.memory/PhysicalMemory.cc:81-91 | a concrete map on which a served request is answered 0 |
| FrameMap.OnePage | core/tachyon.memory/PhysicalMemory.cc:70-92 | with one-page alignment a pass serves the lowest p from 2 on whose run is free and whose predecessor is seen free too |
| FrameMap.OnePageEnds | core/tachyon.memory/PhysicalMemory.cc:70-92 | with one-page alignment and frame 0 taken a request is never given up: it gets that frame, or the scan goes round forever |
| FrameMap.NoFrame | core/tachyon.memory/PhysicalMemory.cc:70-92 | when no run qualifies for a one-page request it depends on frame 0: granted if free, scanned for forever if taken |
| FrameMap.ScanEnds | core/tachyon.memory/PhysicalMemory.cc:77-91 | for every alignment, the scan stops if and only if its first pass, frame 0 or its second pass serves the request or a pass leaves the map; otherwise it goes round forever |
| FrameMap.SecondPassServes | core/tachyon.memory/PhysicalMemory.cc:85-88 | a concrete map on which only the second pass serves the request |
| FrameMap.FullMapLoops | core/tachyon.memory/PhysicalMemory.cc:81-88 | a concrete map on which the scan refuses frame 0 forever |
| FrameMap.HoleLeft | core/tachyon.memory/PhysicalMemory.cc:70-92 | a one-page claim leaves the frame before it free, and the next one-page claim can take neither that frame nor the one after |
| FrameMap.MarkedBack | core/tachyon.memory/PhysicalMemory.cc:105-111 | giving back a claimed run restores the map |
| FrameMap.LastPageLeftOut | core/tachyon.memory/PhysicalMemory.cc:32-37 | marking a region without its last page is right exactly when that page has the value already |
| FrameMap.LastPageStaysTaken | core/tachyon.memory/PhysicalMemory.cc:32-41 | a concrete region made available whose last page stays taken |
| FrameMap.ClaimStepSound | core/tachyon.memory/PhysicalMemory.cc:48-111 | every claim and return keeps outstanding allocations disjoint and marked, and an aligned claim, whichever pass answers it, gets a multiple of its alignment or is given up without a change |
| FrameMap.ClaimsStaySound | core/tachyon.memory/PhysicalMemory.cc:48-111 | the same over any run of aligned claims, fixed claims (also failing ones) and returns |
| PhysicalMemoryModel.MaskRounds | core/tachyon.memory/PhysicalMemory.cc:16 | clearing low bits with the mask rounds every address down to a multiple if and only if the alignment is a power of two |
| PhysicalMemoryModel.MaskMisses | core/tachyon.memory/PhysicalMemory.cc:16 | a concrete alignment and address that the mask does not round |
| PhysicalMemoryModel.AlignedIndexFound | core/tachyon.memory/PhysicalMemory.cc:78-79 | in 32-bit arithmetic the index computed from a found frame is the next multiple strictly past it |
| PhysicalMemoryModel.AlignedIndexLost | core/tachyon.memory/PhysicalMemory.cc:78-88 | the index computed from a failed search is 0, never -1 |
| PhysicalMemoryModel.PageCountIs | core/tachyon.memory/PhysicalMemory.cc:14 | the page count is the least number of frames that holds the length, and 0 for 0 |
| PhysicalMemoryModel.RunBytes | core/tachyon.memory/PhysicalMemory.cc:48-111 | a run of frames that is free, claimed or given back is, frame by frame, the range of bytes: those frames change that hold one of its bytes, and no other |
| PhysicalMemoryModel.UnalignedBytes | core/tachyon.memory/PhysicalMemory.cc:48-66 | for a range that begins inside a frame the frames counted hold all its bytes if and only if it ends where they end, or before |
| PhysicalMemoryModel.UnalignedMisses | core/tachyon.memory/PhysicalMemory.cc:105-111 | a concrete range whose last frame is not counted |
| PhysicalMemoryModel.PhysicalMemory.TryAllocate | core/tachyon.memory/PhysicalMemory.cc:48-68 | succeeds exactly when every frame that holds a byte of the range is free and inside the map; then exactly those are newly taken, else no bit changes |
| PhysicalMemoryModel.PhysicalMemory.AllocateAligned | core/tachyon.memory/PhysicalMemory.cc:70-92 | terminates whenever the scan ends at all; claims exactly the frame granted (least of the first pass, else frame 0, else least of the second pass) or gives up without a change; the answer is a multiple of the alignment, and newly taken are exactly the frames that hold a byte of the length from there; 0 means giving up, exactly unless the request is served at frame 0; a step of the claims machine |
| PhysicalMemoryModel.PhysicalMemory.AllocateFixed | core/tachyon.memory/PhysicalMemory.cc:94-103 | returns the address, with exactly the frames that hold a byte of the range newly taken, if all those are free, else 0 and no change; a step of the claims machine |
| PhysicalMemoryModel.PhysicalMemory.Free | core/tachyon.memory/PhysicalMemory.cc:105-111 | frees exactly the frames that hold a byte of the range, counted from the start of its first frame; for an outstanding allocation a step of the claims machine |
| PhysicalMemoryModel.PhysicalMemory.SetRegion | core/tachyon.memory/PhysicalMemory.cc:19-38 | sets all pages of the region but the last |
| Entries.LowFlags | core/tachyon.memory/x86_64/VirtualMemory.cc:17 | frame number and flag bits of an entry do not disturb each other |
| Entries.LeafForBits | core/tachyon.memory/x86/VirtualMemory.cc:182 | bit by bit the entry is the address and the flags, with bit 0 besides: no bit lost and none made up |
| Entries.EntryBits | include/tachyon.platform/x86/asm/x86_common.h:67-74 | present, writable and large are bits 0, 1 and 7 |
| Entries.LeafForIs | core/tachyon.memory/x86_64/VirtualMemory.cc:228-245 | the entry written for a page is present, and large if so asked, whatever address and flags are |
| Entries.LeafForParts | core/tachyon.memory/x86/VirtualMemory.cc:182 | for an aligned address and flags in the low bits the entry keeps both apart: its upper bits are the address, its low twelve the flags with bit 0 set |
| PageTree.PassesUnique | core/tachyon.memory/x86_64/VirtualMemory.cc:143-211 | only one root and one run of indices lead to a given entry: no table is shared |
| PageTree.PassesIffAgrees | core/tachyon.memory/x86_64/VirtualMemory.cc:143-211 | the pages whose walk comes to an entry are exactly those that agree with it down to that level |
| PageTree.LeafWriteLookup | core/tachyon.memory/x86_64/VirtualMemory.cc:228-248 | writing a leaf entry changes the lookup of exactly the pages that come to it |
| PageTree.NewTableInv | core/tachyon.memory/x86_64/VirtualMemory.cc:94-109 | hanging a zeroed free frame on an absent entry keeps the tree well formed: tables distinct, linked both ways and marked used |
| PageTree.NewTableLookup | core/tachyon.memory/x86_64/VirtualMemory.cc:157-162 | making a table changes no lookup at all |
| PageTree.WithTablesKeeps | core/tachyon.memory/x86_64/VirtualMemory.cc:143-211 | after the split every table on the way exists, the walk reaches the leaf's entry, old tables and entries are kept and no data frame was touched |
| PageTree.OpenIffUnmapped | core/tachyon.memory/x86/VirtualMemory.cc:146-180 | the walk to a page's own entry meets no present leaf exactly if the page is not mapped |
| PageTree.OpenIffAbsent | core/tachyon.memory/x86_64/VirtualMemory.cc:228-243 | the way down to a given height is open exactly if the last entry the walk meets is absent, also for the directory entry of a 2M page |
| PageTree.MappedKeeps | core/tachyon.memory/x86_64/VirtualMemory.cc:215-258 | a mapping keeps the tree well formed and moves no frame but the tables it makes, which are as many as were missing, at most one a level |
| PageTree.MappedLookup | core/tachyon.memory/x86_64/VirtualMemory.cc:215-258 | after a mapping, the pages that agree with it down to the leaf find the new entry and every other page of every root finds what it found before |
| PageTree.ClearedLookup | core/tachyon.memory/x86/VirtualMemory.cc:193-208 | clearing a leaf unmaps that page of that space and no other |
| PageTree.DataStoreLookup | core/tachyon.memory/x86/VirtualMemory.cc:210-224 | a word stored into a frame that clients hold changes what no page is mapped to |
| PageTree.WithRootLookup | core/tachyon.memory/x86/VirtualMemory.cc:238-249 | a fresh directory maps nothing and changes no other lookup |
| PageTree.WithoutRootInv | core/tachyon.memory/x86/VirtualMemory.cc:251-265 | giving back a directory and its tables leaves a well-formed tree and the same data frames |
| PageTree.OneFrame | core/tachyon.memory/x86/VirtualMemory.cc:88-103 | a one-page claim gets the lowest free frame that follows a free one, and only that one |
| PageTree.RunTakes | core/tachyon.memory/PhysicalMemory.cc:70-92 | single-page claims use every other frame of a free run at worst: a free run of 2n frames within the search limit is enough for n claims in a row |
| VirtualMemory64Model.SamePageAgrees | core/tachyon.memory/x86_64/VirtualMemory.cc:144-146 | two addresses take the same indices down to a leaf exactly if they lie in the same 4K or 2M page |
| VirtualMemory64Model.MapRefines | core/tachyon.memory/x86_64/VirtualMemory.cc:215-316 | mapping then looking up is insertion into a finite map: the mapped 4K or 2M page answers with its frame, all others as before; tables stay distinct and used |
| VirtualMemory64Model.MapsRefine | core/tachyon.memory/x86_64/VirtualMemory.cc:215-316 | the same over any run of mappings of both page sizes in any number of spaces |
| VirtualMemory64Model.MapReturns | core/tachyon.memory/x86_64/VirtualMemory.cc:215-245 | mapping returns exactly if the entry for the page (for a 4K page: any mapping of it) is absent and the missing tables can be claimed |
| VirtualMemory64Model.MapFills | core/tachyon.memory/x86_64/VirtualMemory.cc:193-248 | mapping leaves no lowest page table empty |
| VirtualMemory64Model.LargeMapsReturn | core/tachyon.memory/x86_64/VirtualMemory.cc:215-233 | after any run of mappings from fresh spaces, mapping a 2M page returns exactly if no address in it is mapped and the missing tables can be claimed |
| PagingWalk.Walk64Is | core/tachyon.memory/x86_64/VirtualMemory.cc:143-211 | in any well-formed memory the four-level walk of the processor finds the entry the lookup finds; writing is allowed exactly if that entry allows it, user mode never |
| PageRuns.MapsWalk | core/tachyon.memory/x86_64/VirtualMemory.cc:215-258 | after any run of mappings of both sizes the processor finds a page exactly if it was mapped, with the bits of the address and flags of its latest mapping; for an aligned address and low flags the entry is the address and those flags with bit 0 set, and writing is allowed exactly if they say so |
| VirtualMemory64Model.VirtualMemory.AllocatePStructAny | core/tachyon.memory/x86_64/VirtualMemory.cc:94-109 | claims the lowest qualifying frame and zeroes exactly that one |
| VirtualMemory64Model.VirtualMemory.Descend | core/tachyon.memory/x86_64/VirtualMemory.cc:157-177 | one level of the walk: the table behind the entry, made if missing unless presence is demanded, in which case nothing changes |
| VirtualMemory64Model.VirtualMemory.SplitVirtual | core/tachyon.memory/x86_64/VirtualMemory.cc:143-211 | makes exactly the missing tables of the path, down to the height of the page mapped |
| VirtualMemory64Model.VirtualMemory.Map | core/tachyon.memory/x86_64/VirtualMemory.cc:215-258 | performs exactly the mapping of the theorems above; the processor's walk then finds the address and the flags asked for |
| VirtualMemory64Model.VirtualMemory.GetMappedAddr | core/tachyon.memory/x86_64/VirtualMemory.cc:292-316 | answers the address in the entry that the processor's walk finds, at whichever level, and 0 if it finds none |
| TempSlots.HeldOnce | core/tachyon.memory/x86/VirtualMemory.cc:40-62 | no two slots hold the same page |
| TempSlots.SlotBits | core/tachyon.memory/x86/VirtualMemory.cc:57 | a slot maps its page present, writable and global |
| TempSlots.FreeSlot | core/tachyon.memory/x86/VirtualMemory.cc:53-61 | a slot is free exactly if fewer pages are held than there are slots |
| TempSlots.FillSlot | core/tachyon.memory/x86/VirtualMemory.cc:53-58 | filling a free slot adds its page and keeps all slots distinct |
| TempSlots.ClearSlot | core/tachyon.memory/x86/VirtualMemory.cc:70-79 | clearing a slot releases its page and no other |
| AddressSpaces.StepKeeps | core/tachyon.memory/x86/VirtualMemory.cc:134-265 | every operation, also a client's store into a frame it holds, keeps all page tables well formed, leaves only live directories in slots, and changes the data frames only by the clients' own claims and returns |
| AddressSpaces.StepRefines | core/tachyon.memory/x86/VirtualMemory.cc:134-265 | map, unmap, lookup, creation and deletion of spaces act on lookups as insertion, deletion and lookup on one finite map from (space, page) to the entry, flags included |
| AddressSpaces.RunRefines | core/tachyon.memory/x86/VirtualMemory.cc:134-265 | the same over any run, any number of spaces: each lookup finds the entry the finite map has, and none for an unmapped page |
| PagingWalk.Walk86Is | core/tachyon.memory/x86/VirtualMemory.cc:134-163 | in any well-formed memory the two-level walk of the processor finds the entry the lookup finds; writing is allowed exactly if that entry allows it, user mode never |
| PagingWalk.LeafCarries | core/tachyon.memory/x86/VirtualMemory.cc:182 | the entry that map writes carries the bits of address and flags, and allows writing exactly if they do |
| PageRuns.RunWalks | core/tachyon.memory/x86/VirtualMemory.cc:134-265 | after any run the processor finds a page exactly if it was mapped and not taken back since, with the bits of the address and flags of its latest mapping; for an aligned address and low flags the entry is the address and those flags with bit 0 set, and writing is allowed exactly if they say so |
| AddressSpaces.PagesOfOnly | core/tachyon.memory/x86/VirtualMemory.cc:210-224 | the finite map is determined by the memory: no other one fits its lookups |
| AddressSpaces.TablesDistinct | core/tachyon.memory/x86/VirtualMemory.cc:146-152 | no two present directory entries, of one space or two, share a page table |
| AddressSpaces.MapReturns | core/tachyon.memory/x86/VirtualMemory.cc:167-180 | with a slot left, mapping returns exactly if the page is not mapped yet and its page table is there or can be claimed; a mapped page halts the kernel, and a table that cannot be claimed is scanned for forever if frame 0 is taken and answered with frame 0, on which the kernel halts, if not |
| AddressSpaces.EmptyStart | core/tachyon.memory/x86/VirtualMemory.cc:238-249 | before the first space is made the machine is well formed and refines the empty map |
| AddressSpaces.SpaceGivesBack | core/tachyon.memory/x86/VirtualMemory.cc:88-265 | conservation for one space among others: made, put to any use while others are made, used and deleted too, and deleted, it leaves the clients' frames and the tables of other live spaces only; if no others made or gave back tables, exactly the tables there were, and taken the frames taken before as changed by the clients' own claims and returns |
| AddressSpaces.RunAccounts | core/tachyon.memory/x86/VirtualMemory.cc:88-265 | after any run, with spaces made, used and deleted in any interleaving, each taken frame is one that clients hold or a table of exactly one live space |
| AddressSpaces.SpacesGiveBack | core/tachyon.memory/x86/VirtualMemory.cc:88-115 | conservation over any run that begins without spaces and ends with all of them deleted, many spaces made and deleted in any order |
| AddressSpaces.NineSpacesSuffice | core/tachyon.memory/x86/VirtualMemory.cc:40-62 | with at most nine live spaces no operation after any run is stopped for want of a slot |
| AddressSpaces.TenSpacesStuck | core/tachyon.memory/x86/VirtualMemory.cc:146-150 | nine is the most: with ten spaces, failed lookups alone can leave no slot for any mapping |
| AddressSpaces.TenSpacesReached | core/tachyon.memory/x86/VirtualMemory.cc:134-150 | from any state in which ten frames can be claimed, ten new spaces and ten failed lookups lead there |
| VirtualMemory86Model.VirtualMemory.PstructMap | core/tachyon.memory/x86/VirtualMemory.cc:40-62 | the page is in exactly one slot afterwards, reused if it was there, and all other windows stay; the slot maps it present, writable and global |
| VirtualMemory86Model.VirtualMemory.PstructUnmap | core/tachyon.memory/x86/VirtualMemory.cc:70-79 | the window's page leaves the slots, all other windows stay |
| VirtualMemory86Model.VirtualMemory.AllocatePStructAny | core/tachyon.memory/x86/VirtualMemory.cc:88-103 | claims the lowest qualifying frame, zeroes exactly that one, and leaves the slots as they were |
| VirtualMemory86Model.VirtualMemory.FreePStructAny | core/tachyon.memory/x86/VirtualMemory.cc:110-115 | gives back the one frame named by an entry, flags and all; 0 changes nothing |
| VirtualMemory86Model.VirtualMemory.SplitVirtualAndMap | core/tachyon.memory/x86/VirtualMemory.cc:134-163 | shows directory and table of the address through slots, making the table if allowed; when a table that must be there is missing, only the directory's slot stays in use |
| VirtualMemory86Model.VirtualMemory.Map | core/tachyon.memory/x86/VirtualMemory.cc:167-191 | performs exactly the machine's map step and leaves neither directory nor table in a slot; the processor's walk then finds the address and the flags asked for |
| VirtualMemory86Model.VirtualMemory.Unmap | core/tachyon.memory/x86/VirtualMemory.cc:193-208 | performs exactly the machine's unmap step and leaves neither directory nor table in a slot; the processor's walk then finds nothing |
| VirtualMemory86Model.VirtualMemory.GetMappedAddr | core/tachyon.memory/x86/VirtualMemory.cc:210-224 | answers the address in the entry that the processor's walk finds, or 0; a success leaves nothing in a slot, a missing table leaves the directory |
| VirtualMemory86Model.VirtualMemory.NewVSpace | core/tachyon.memory/x86/VirtualMemory.cc:238-249 | a new space in a frame that was no space before, mapping nothing |
| VirtualMemory86Model.VirtualMemory.FreeTables | core/tachyon.memory/x86/VirtualMemory.cc:254-261 | gives back the table behind each present directory entry, and clears no other bit |
| VirtualMemory86Model.VirtualMemory.DeleteVSpace | core/tachyon.memory/x86/VirtualMemory.cc:251-265 | gives back exactly the directory and its tables, each of them once |
| BreakRule.AboveIsExact | core/tachyon.memory/BreakPageAllocator.cc:11 | the 32-bit guard of increase says what it means if and only if the sum does not wrap or wraps to past the zone |
| BreakRule.BelowIsExact | core/tachyon.memory/BreakPageAllocator.cc:32 | the 32-bit guard of decrease says what it means if and only if the difference, of any size, does not wrap or wraps to below the zone |
| BreakRule.AboveMisses | core/tachyon.memory/BreakPageAllocator.cc:11 | a concrete request for which the first does not |
| BreakRule.BelowMisses | core/tachyon.memory/BreakPageAllocator.cc:32 | two concrete requests for which the second does not: a wrapped difference and a wrapped size |
| BreakZone.StepUpZone | core/tachyon.memory/BreakPageAllocator.cc:16-26 | one page up: the zone's pages below the break stay exactly the mapped ones, each on a used frame of its own that is no page table |
| BreakZone.GrownMaps | core/tachyon.memory/BreakPageAllocator.cc:8-29 | raising the break by n pages maps exactly those, keeps every other mapping of every space, and claims for them exactly n frames none of which was taken; the new entries have the flags asked for; all tables stay, new ones were free frames |
| BreakZone.StepDownZone | core/tachyon.memory/BreakPageAllocator.cc:38-46 | one page down: lookup, unmap and return are all possible and keep the zone's invariant |
| BreakZone.ShrunkMaps | core/tachyon.memory/BreakPageAllocator.cc:31-49 | lowering the break unmaps exactly the pages above it and gives back exactly their frames |
| BreakZone.UpAndDown | core/tachyon.memory/BreakPageAllocator.cc:8-49 | raising by n and lowering by n restores every mapping and the frame map, except for page tables made on the way: every table there was stays taken, and what is taken besides are new tables of the space in frames that were free |
| BreakZone.GrownWords | core/tachyon.memory/BreakPageAllocator.cc:16-26 | no word behind a page mapped before changes while the break rises |
| BreakZone.TwoFramesPerPage | core/tachyon.memory/BreakPageAllocator.cc:16-26 | two claimable frames for each page are always enough |
| BreakZone.FreshZone | include/tachyon.memory/BreakPageAllocator.h:17-31 | a new space holds any zone with its break at the start, and 1 + 2n claimable frames are enough to make it and raise the break by n pages |
| BreakZone.GrownZone | core/tachyon.memory/BreakPageAllocator.cc:16-26 | raising the break by any number of pages keeps the zone's invariant |
| ZoneWords.GrownKeepsWords | core/tachyon.memory/CoreHeap.cc:77-80 | seen as one stretch of words the zone keeps its words as a prefix when the break rises, and gains 1024 for each page |
| ZoneWords.ShrunkWords | core/tachyon.memory/BreakPageAllocator.cc:38-46 | lowering the break keeps the words below it |
| ZoneWords.StoreLands | core/tachyon.memory/CoreHeap.cc:38-39 | a store anywhere between start and break lands in a mapped page, in a frame that is no table; it changes that one word of the zone, and no table, mapping or frame's state |
| ZoneWords.ForeignKeeps | core/tachyon.memory/BreakPageAllocator.cc:8-49 | whatever others do to the machine short of touching the zone's pages, stores into any frame included, its invariant stays |
| ZoneWords.ForeignWords | core/tachyon.memory/BreakPageAllocator.cc:8-49 | and as long as they store into frames of their own, so do all its words |
| ZoneWords.BreakRun | core/tachyon.memory/BreakPageAllocator.cc:8-49 | over any run of raises, lowerings, stores into the zone and foreign steps: exactly the pages below the break are mapped, each to a taken frame of its own that is no table, and the words shown are an array that raises lengthen, lowerings shorten and stores change at one index |
| HeapOnZone.MovesCarry | core/tachyon.memory/CoreHeap.cc:38-39 | whenever the machine carries out a list of pages and stores, by raising the break and storing through the mappings, the words shown change as the heap's array does; whatever was mapped stays mapped to the same frame and every table stays |
| HeapOnZone.UseOnZone | core/tachyon.memory/CoreHeap.cc:54-141 | whenever the machine carries out the very pages and stores of an allocation, a release or a client's write, the zone shows the new heap, and none of the stores falls into a payload that lives through it, but for the client's own write |
| HeapRuns.HeapRunOnZone | core/tachyon.memory/CoreHeap.cc:54-141 | so over every run, with any operations of others in between that leave the zone's pages alone and store into their own frames: after each event the zone shows a well-formed heap, changed in clients' buffers as that event says and by others not at all |
| HeapRuns.PayloadStable | core/tachyon.memory/CoreHeap.cc:60-140 | over any stretch of such a run that neither writes nor releases a buffer, a load from any of its words, through the mappings, finds the same value before and after |
| HeapRuns.UsesRun | core/tachyon.memory/CoreHeap.cc:77-82 | from any zone that shows a heap, any allocations, releases and client writes that fit the zone can be carried out; two claimable frames for each new page are enough |
| HeapRuns.FirstRuns | core/tachyon.memory/CoreHeap.cc:45-60 | so can the first request, in a zone without a page |
| HeapRuns.FirstOnZone | core/tachyon.memory/CoreHeap.cc:45-60 | whenever it is carried out, the zone shows a heap with that one payload |
| BreakPageAllocatorModel.BreakPageAllocator.constructor | include/tachyon.memory/BreakPageAllocator.h:17-31 | takes a zone that is not in use, marks it and no other as used; the break starts at the start of the zone, with none of its pages mapped |
| BreakPageAllocatorModel.BreakPageAllocator.OthersKeep | core/tachyon.memory/BreakPageAllocator.cc:8-49 | a foreign step of the machine, also a store into any frame that clients hold, leaves the allocator valid |
| BreakPageAllocatorModel.BreakPageAllocator.Increase | core/tachyon.memory/BreakPageAllocator.cc:8-29 | maps all pages asked for, each present with the allocator's flags and so writable exactly if they say so, and returns the new break, or returns 0 and changes nothing when they would pass the end of the zone; for every request on which the guard is exact |
| BreakPageAllocatorModel.BreakPageAllocator.Decrease | core/tachyon.memory/BreakPageAllocator.cc:31-49 | lowers the break by the pages asked for, at most to the start of the zone, and gives back exactly their frames; for every request on which the guard is exact |
| ZoneManagerModel.ClashIsOverlap | core/tachyon.memory/VirtualZoneManager.cc:18-19 | the test refuses exactly the zones that overlap an old one and do not lie strictly inside it |
| ZoneManagerModel.ZonesNest | core/tachyon.memory/VirtualZoneManager.cc:12-38 | over any run of define and remove of non-empty zones, and of their use, any two zones are disjoint or the later lies strictly inside the earlier |
| ZoneManagerModel.DefinedStands | core/tachyon.memory/VirtualZoneManager.cc:12-38 | over any run, from a successful definition until its slot is removed the slot has the bounds asked for, and every definition that overlaps them and does not lie strictly inside is refused |
| ZoneManagerModel.MarkStays | include/tachyon.memory/BreakPageAllocator.h:24-30 | over any run the zone in a slot, however fresh, can be given to an allocator if and only if none ever had a zone in that slot |
| ZoneManagerModel.MarkOutlives | include/tachyon.memory/VirtualZone.h:15-16 | a concrete zone that is marked as used from its definition on |
| ZoneManagerModel.NestedZoneAccepted | core/tachyon.memory/VirtualZoneManager.cc:18-19 | a concrete table that accepts an overlapping zone |
| ZoneManagerModel.VirtualZoneManager.Define | core/tachyon.memory/VirtualZoneManager.cc:12-34 | succeeds exactly when a slot is free and no zone clashes, in a sound table exactly when none overlaps but those with the new zone strictly inside; the last free slot then has both bounds, and all others stay; otherwise nothing changes |
| ZoneManagerModel.VirtualZoneManager.Remove | core/tachyon.memory/VirtualZoneManager.cc:36-38 | clears the bounds of the slot, keeps its mark and all other slots, and leaves the table sound |
| NumberText.DigitsDenote | core/tachyon.logging/Log.cc:56-82 | the reversed digit string denotes the number in every base from 2 to 36 |
| NumberText.TextDenotes | core/tachyon.logging/Log.cc:50-83 | so does the whole text when it is not padded or padded with zeros |
| NumberText.PrintThenParse | core/tachyon.logging/Log.cc:50-95 | printing in base 10 and reading back gives the number if and only if the text is not padded, or padded with zeros, or the number is 0 and the padding no digit |
| NumberText.TextLength | core/tachyon.logging/Log.cc:61-66 | the text is as long as the digits or, when filled, the width, whichever is more |
| NumberText.TextLayout | core/tachyon.logging/Log.cc:61-80 | the text is the fill character, as often as the width asks for, and then the digits |
| NumberText.DigitAt | core/tachyon.logging/Log.cc:56-59 | each digit stands for its place: 0 to 9, then a to z, and past base 36 the characters the code runs into |
| NumberText.DigitsEnough | core/tachyon.logging/Log.cc:56-59 | there are exactly as many digits as the number needs, and at least one |
| NumberText.SignedLayout | core/tachyon.logging/Log.cc:38-48 | a negative number begins with a sign that takes a column of the width, and is padded after it |
| NumberText.DigitCount | core/tachyon.logging/Log.cc:56-59 | a number below 10^k has at most k digits in base 10 or more |
| NumberText.FitsBuffer | include/tachyon.logging/Log.h:13 | any 64-bit number in base 10 or more and up to 31 columns fits the formatter's buffer with its terminator |
| NumberText.SignedTextDenotes | core/tachyon.logging/Log.cc:38-48 | signed text denotes its number in every base, sign and zero padding included |
| LogModel.ReadsBack | core/tachyon.logging/Log.cc:50-95 | what parse_num answers for the text parse_u leaves is the number, for every 32-bit number |
| LogModel.ReadNumber | core/tachyon.logging/Log.cc:85-95 | any number followed by anything that does not go on with a digit is read as that number, modulo 2^32 |
| LogModel.ReadStep | core/tachyon.logging/Log.cc:88-91 | each further decimal digit counts for its face value, and text that begins with none is read as 0 |
| LogModel.Log.ParseU | core/tachyon.logging/Log.cc:50-83 | leaves that text and a terminator in the buffer and touches no other character; refuses a null buffer |
| LogModel.Log.ParseS | core/tachyon.logging/Log.cc:38-48 | leaves the signed text and a terminator |
| LogModel.Log.ReverseRange | core/tachyon.logging/Log.cc:70-80 | reverses the range in place and touches nothing outside it |
| LogModel.Log.ParseNum | core/tachyon.logging/Log.cc:85-95 | the value of the longest decimal prefix, wrapped to the word size |
| SharedPointers.DropDeletes | include/tachyon.memory/SmartPointer.h:33-38 | an object is deleted with its last handle and with no other |
| SharedPointers.StepSound | include/tachyon.memory/SmartPointer.h:15-66 | wrapping, copying, assigning (also between handles that share already, and to itself) and destroying keep every counter equal to the number of handles sharing it |
| SharedPointers.RunCounts | include/tachyon.memory/SmartPointer.h:15-66 | after any run each counter is the number of its handles, and each wrapped object has been deleted once if no handle is left and not at all otherwise |
| SharedPointers.RunPlain | include/tachyon.memory/SmartPointer.h:15-66 | over any run the handles are a plain map from addresses to objects under the four operations, and the objects deleted are, in order, those that lost their last address |
| SharedPointers.StepDoes | include/tachyon.memory/SmartPointer.h:15-66 | what each operation leaves: the handle made or assigned holds what it was given, all others stay, and the object left is deleted exactly if no other handle held it |
| SharedPointers.Pointers.Destroy | include/tachyon.memory/SmartPointer.h:33-38 | the handle is gone and its object deleted exactly if no other handle held it |
| SharedPointers.Pointers.Assign | include/tachyon.memory/SmartPointer.h:52-66 | the handle holds what the other holds; the object it held before is deleted exactly if no other handle held it; self-assignment does nothing |
| SharedPointers.Pointers.Copy | include/tachyon.memory/SmartPointer.h:27-31 | the new handle shares counter and object, and the counter rises |
| SharedPointers.Pointers.Wrap | include/tachyon.memory/SmartPointer.h:15-25 | a handle with a counter of its own that stands at one |

## Left out

- CoreHeapModel.CoreHeap.Allocate: requests on which the 32-bit size arithmetic wraps are excluded (`SizeIsExact` says which); after a failed growth only the outcome and the stray address are stated, not the heap, which the kernel then corrupts.
- CoreHeapModel.CoreHeap.Free: a pointer that is aligned and not null must be that of a block, live or free; a wild pointer is not told apart by the code either.
- CoreHeapModel.CoreHeap.Store: words are 4 bytes (the x86 build); the 8-byte heap of x86_64 differs in constants only.
- CoreHeapModel.CoreHeap.Increase: the zone ends more than a page below 2^32, as the kernel's does, so that the guard for one page cannot wrap; the heap's words are its own array, whose recorded pages and stores `HeapOnZone.UseOnZone` carries out on a page-backed zone of 4K pages; growth that fails for want of frames is not part of this model.
- PhysicalMemoryModel.PhysicalMemory.AllocateAligned: requires that the scan ends, because the code does not return otherwise (`FrameMap.ScanEnds`), and a power of two as the alignment, because the mask is wrong otherwise (`MaskRounds`); installed frames, and a frame plus the alignment, lie below 4G, also where the x86_64 walk uses the allocator.
- PhysicalMemoryModel.PhysicalMemory.SetRegion: a region that is empty after rounding, or ends before its start, is excluded; there the length wraps.
- PhysicalMemoryModel.PhysicalMemory.Free: a range past the end of the map is excluded; the code halts on it.
- Halts of the kernel (no slot left, page already present, table missing in unmap, bitmap index out of range), and requests for a frame that scan forever, are preconditions, stated as `Enabled`, `Mappable`, `SlotsSuffice` or `HasFrame`.
- VirtualMemory86Model.VirtualMemory.NewVSpace: the directory entry that links the kernel in is not written, so that every table is owned by one space; the boot address space, which shares a table between two entries, is not modelled for the same reason.
- The 2M temporary windows of x86_64 (frames are accessed directly), and unmap and deleteVSpace of x86_64, which clear the wrong level and pass flag bits as an address.
- BreakPageAllocatorModel.BreakPageAllocator.Increase: requests on which the wrapped guard fails are excluded (`AboveIsExact` gives them), and frames other than frame 0 suffice (`TwoFramesPerPage`).  With frame 0 alone left (`FrameMap.ZeroServed`) the code maps the page to address 0, for which a lookup then answers as for an unmapped page; `CanStep` excludes that.  The clean-up after a map that returns false is left out, because map never does.
- BreakPageAllocatorModel.BreakPageAllocator.Decrease: requests on which the wrapped guard fails are excluded; `BelowIsExact` gives them.
- BreakPageAllocatorModel.BreakPageAllocator.constructor: zones have whole pages, default flags lie in the low twelve bits, and pages are 4K as on x86, also the large ones.
- ZoneManagerModel.ZonesNest: zones are non-empty; an empty zone clashes with nothing that contains it, and one from 0 to 0 reads as a free slot.
- ZoneManagerModel.VirtualZoneManager.Define: the table's size is arbitrary instead of 32.
- LogModel.Log.ParseNum: numbers wrap at 32 bits (the x86 build).
- LogModel.Log.ParseU: bases 0 and 1 are excluded; the first divides by zero and the second never ends.  Above base 36 the text is that of the code, but is not read back as a number.
- Log format, write and the table of writers: an inner variable shadows the bound that the format loop tests, so no clean claim holds.
- SharedPointers.RunCounts: handles are entries of a map by address; destructors that run other handles' destructors, and a raw pointer wrapped twice, are excluded.
- Locks, TLB invalidation, CR3, the XD bit: one processor, no hardware effects.
- Linked lists, scheduler, threads and processes, interrupts, consoles, memory files, ELF and multiboot parsing: easy members, I/O, or unfinished in the repository.

# The kernel's memory management, modelled and proved

A Dafny model of the memory-management stack of the kernel and of the part of the loader it builds on:

* **Kernel heap** (`HeapModel`, `HeapSafety`, `HeapAligned`, `HeapCoalescing`, `HeapRoundTrip`, `HeapRuns`, `HeapApart`,
  `KernelHeap`): the first-fit allocator with 32-byte headers inside the region, its two splitting operations and the
  coalescing `free`. The state is a region and a map from addresses to headers; a zeroed header is an absent key. `Tiled` says that following `next`
  from the base meets every header once and that blocks and headers cover the region without gap or overlap.
* **Page tables** (`PageModel` to `PageStale`, `PageAliased`, `PageEntries`, `Bitmaps`, `PageManager`): PML4, PDPT and PD tables of 512
  entries for 2 MiB pages (section 4.5 of the Intel 64 and IA-32 Architectures Software Developer's Manual, Volume 3A), the bitmap
  of table frames and the 16-bit reference counts. Frames are numbered by address / 4096, pages by address / 2 MiB.
  `Tree` says that no two reachable table entries lead to the same frame, `Inv` adds that the tables are marked and that
  every count is the number of present entries, and `Translation` is the partial function on pages that `get` computes.
* **Loader paging and handover** (`LoaderPages`, `LoaderManager`, `Handover`): the 32-bit loader's `map` and bitmap, and
  `retainLoaderPaging`, which makes the loader's tables the kernel's.
* **Virtual and physical pages** (`Ranges`, `RangeFrames`, `PhysicalPages`, `PagesInOrder`, `MemoryModel`, `MemoryManager`,
  `MemoryRuns`, `MemoryOrder`, `SharedPages`, `MemoryEntries`): the search for a free virtual range, the bitmap of physical pages, and
  `mm::alloc`, which joins both through `map`.
* **The whole chain** (`Boot`, `HeapInit`, `BootedHeap`): loader, handover, `mm::alloc` and `heap::init` put together.
* **Number printing** (`Itoa`): digits from the low end and reversal in place by exclusive or.

Code that changes state is a class (`KernelHeap.Heap`, `PageManager.PageManager`, `LoaderManager.LoaderManager`,
`MemoryManager.MemoryManager`, `Ranges.RangeIterator`) or a method on an array (`Itoa`), with the loops and in-place
updates of the source. Each method equates its result and new state with a specification function on values, and the
theorems are about those functions; what a function stands for in numbers (addresses, sizes, bits) is said in its method's
contract or in a lemma that does not name it. A failed assertion, `panic_msg` or `orPanic` is a result (`None`, `Panic` or a false
`ok`), so a theorem about "a call that completes" says so in its premise. Words are natural numbers below 2^64 with `&`,
`|` and `~` defined bit by bit, and sums that can wrap do.

Where the code departs from what its comments suggest, the code is modelled as it is, and there is a theorem saying
exactly when it does what was meant, and an input at which it does not:

* A cut in `alloc` or `allocAligned` does not update the old successor's `prev`: `HeapCoalescing.SplitKeepsExactIff` and
  `HeapRuns.StepKeepsExactIff`. This can make a legitimate `free` halt: `HeapRuns.FreeHaltsOnDangling` says exactly when,
  and `HeapRuns.StaleLinkHaltsFree` gives a run of ordinary calls that gets there. Or it makes a `free` that completes leave
  two free blocks next to each other: `HeapCoalescing.FreeSeparatesIff` says exactly when, and `HeapApart.StaleLinkSeparates`
  gives the run. `HeapRuns.ExactRunNeverHalts` and `HeapApart.ExactRunStaysApart` are about runs in which neither happens.
* `allocAligned` does not look whether an aligned block has room for the header it writes, and its inner loop can go round
  for ever (the outcome `Diverges` of the model and the result `Hangs` of the method). `HeapAligned.AlignedEnds` and
  `HeapAligned.AlignedKeepsHeap` say for every size when either happens, `HeapAligned.GrantsMoreThanThereIs` and
  `HeapAligned.HangsOnFreshHeap` give an input for each.
* `alloc` adds the header size to the requested size without looking at overflow: `HeapSafety.AllocOverflow`, with the input
  `HeapSafety.OverflowBreaksFreshHeap`.
* `unmap` writes no table entry: `PageStale.UnmapKeepsTreeIff` and `PageStale.RemapHalts`. The tables stay a tree if and only
  if another page of the same PD is mapped. `PageAliased.UnmappedPageTranslates` says where three calls then lead from any
  state with two free frames, and `Boot.BootedUnmapTranslates` starts them at a booted kernel.
* `allocPhysicalPages` rolls back with the number of a bit where its mask is meant: `PhysicalPages.FailureRestoresIff` and
  `PhysicalPages.FailureTracks`. `MemoryRuns.FailureKeepsOwnsIff` says exactly when that costs a page granted by `mm::alloc`.
  From `mm::init` on it cannot before a call asks for more than is left of 64 GiB (`MemoryOrder.RollsBackIff`,
  `MemoryOrder.FewGrantsNeverShare`); after 1023 calls for 32 pages the next one does, and a granted page is granted again
  (`PagesInOrder.FailureReleasesGrantedPage`, `SharedPages.GrantsCanShare`, and from a booted kernel
  `Boot.BootedGrantsCanShare`). What does not depend on it is proved of every run: `MemoryRuns.RunKeepsMappings`, `HeapInit`,
  `Boot.GrantsAvoidTables`. The mask for setting a bit shifts an `int`, which the language leaves undefined for large counts:
  the mask is a parameter of the model, theorems on successful calls need only that it is never zero, and those on failing
  calls and on the order of pages take it to be the one bit that is meant.
* `mm` hands out pages from 6 MiB on, where the loader may have put the kernel: `Boot.GrantsMeetLoaderIff` says exactly when
  a granted page is one the loader mapped, and `BootedHeap.HeapMeetsLoaderIff` that the kernel heap is on one if and only if
  the loader mapped a page from 6 MiB to 38 MiB, as it does in `BootedHeap.HeapCanMeetKernel`.
* `mm::alloc` hands its flags to `map` as they are, though the two number theirs differently: by `MemoryEntries.GrantEntries`
  they reach the entries bit for bit, and by `MemoryEntries.HeapEntries` the pages of the kernel heap, asked for as writable,
  get entries without the bit for it.

## Model

| member | source | states |
|---|---|---|
| HeapModel.FlagOperations | src/kernel/mem/heap.hpp:11-17 | the mask tests and updates on `flags` distinguish exactly free (0x1A110C00) and allocated (0x1A110C01) headers, and turn one into the other |
| HeapModel.ResetTilesIff | src/kernel/mem/heap.cpp:46-54 | after `reset` one free block tiles the region exactly for regions that are not at 0, hold a header and end below 2^64; nothing is live on any |
| HeapModel.NextBlock | src/kernel/mem/heap.hpp:22-31 | in a tiled heap every block lies in the region, its `prev` is below it, and its `next` is the header right behind its payload, null exactly at the region's end |
| HeapModel.Disjoint | src/kernel/mem/heap.hpp:22-31 | two blocks of a tiled heap, headers included, do not overlap |
| HeapModel.FirstFit | src/kernel/mem/heap.cpp:64-94 | the walk stops at a block that is acceptable, and passes over none; none only if no block of the chain is acceptable |
| HeapModel.TiledPrevBelow | src/kernel/mem/heap.cpp:209-218 | back links lead downwards even where they are stale, so the walk back ends |
| HeapSafety.PlaceKeepsHeap | src/kernel/mem/heap.cpp:74-93 | splitting or taking a block keeps the tiling and adds one live block of exactly the requested length |
| HeapSafety.AllocIsFirstFit | src/kernel/mem/heap.cpp:61-97 | for sizes that do not wrap with 32, `alloc` is none if and only if no free block has exactly the size or more than size + 32 bytes, and then changes nothing; otherwise it returns the address 32 bytes behind the header of the lowest such block |
| HeapSafety.AllocKeepsHeap | src/kernel/mem/heap.cpp:61-97 | `alloc` keeps the tiling; the live blocks are the old ones and, on success, a new one where none was |
| HeapSafety.AllocOverflow | src/kernel/mem/heap.cpp:74 | for sizes whose sum with the header size wraps, the tiling survives if and only if no free block is longer than the wrapped sum |
| HeapSafety.OverflowBreaksFreshHeap | src/kernel/mem/heap.cpp:74 | such a call on a fresh heap of 160 bytes succeeds and leaves a heap that is not tiled |
| HeapSafety.AbsorbKeepsHeap | src/kernel/mem/heap.cpp:228-233 | joining a free block with the free block behind it keeps the tiling and every live block |
| HeapSafety.MergeKeepsHeap | src/kernel/mem/heap.cpp:220-234 | the second loop of `free` never halts on a tiled heap, and keeps the tiling and every live block |
| HeapSafety.FreeKeepsHeap | src/kernel/mem/heap.cpp:196-235 | a `free` that completes was given a live block; it keeps the tiling, even with stale back links, and removes exactly that block |
| HeapAligned.FirstCutIsFirst | src/kernel/mem/heap.cpp:103-191 | the block `allocAligned` acts on is the first of the chain that it does not pass over |
| HeapAligned.CutOfDecides | src/kernel/mem/heap.cpp:111-189 | for every block, size and power of two the inner loop decides as a closed form in the first multiple with room for a header before it: where it passes, which of the four cuts it makes, and where it goes round for ever |
| HeapAligned.FirstPlaceLeast | src/kernel/mem/heap.cpp:112-154 | the place in that closed form is the least multiple that is the payload's address or 32 bytes and more behind it |
| HeapAligned.CutOfFinds | src/kernel/mem/heap.cpp:114-189 | a place the loop decides on is a multiple of the alignment, leaves room for a header before it, and fits the block in the two branches that cut padding |
| HeapAligned.MiddleGrants | src/kernel/mem/heap.cpp:157-174 | cutting both ends keeps the tiling and adds one live block of the requested length at the aligned place |
| HeapAligned.BackGrants | src/kernel/mem/heap.cpp:175-188 | cutting the beginning keeps the tiling and adds one live block of the requested length at the aligned place |
| HeapAligned.FrontGrants | src/kernel/mem/heap.cpp:130-143 | cutting the end keeps the tiling when the block has room for the new header |
| HeapAligned.FrontWithoutRoomBreaks | src/kernel/mem/heap.cpp:130-143 | without that room the cut leaves a heap that is not tiled |
| HeapAligned.CommitGrants | src/kernel/mem/heap.cpp:122-188 | each of the four ways to commit returns a multiple of the alignment; the result is tiled, and then grants the block, if and only if the size does not wrap and an end cut has room |
| HeapAligned.AlignedKeepsHeap | src/kernel/mem/heap.cpp:99-194 | an `allocAligned` that grants returns a multiple of the power-of-two alignment, for every size; it keeps the tiling if and only if the size does not wrap and an end cut had room, and then adds one live block of exactly the requested length |
| HeapAligned.AlignedEnds | src/kernel/mem/heap.cpp:99-194 | which end a call comes to: none if and only if every block is passed over, round for ever if and only if the lowest block not passed over has a place after padding that neither cut fits, and else the cut of that block |
| HeapAligned.HangsOnFreshHeap | src/kernel/mem/heap.cpp:144-188 | 70 bytes aligned to 64, from a fresh heap of 160 bytes: the loop never ends |
| HeapAligned.GrantsMoreThanThereIs | src/kernel/mem/heap.cpp:130-143 | 1000 bytes aligned to 64, from a fresh heap of 160 bytes: the call succeeds and the heap is not tiled |
| HeapCoalescing.MergeIsCollapse | src/kernel/mem/heap.cpp:220-234 | joining block after block gives what making the whole run one block at once gives |
| HeapCoalescing.RunEndIsMaximal | src/kernel/mem/heap.cpp:220-226 | the forward loop ends at the last block of the run of free blocks |
| HeapCoalescing.BackFromFindsRun | src/kernel/mem/heap.cpp:209-218 | on exact links the walk back ends at the first block of the run of free blocks |
| HeapCoalescing.RunLengthIsSpan | src/kernel/mem/heap.cpp:228 | the lengths of a run's blocks and a header for each after the first add up to the space between its ends |
| HeapCoalescing.FreeCoalesces | src/kernel/mem/heap.cpp:196-235 | on exactly linked heaps `free` of a live block completes and turns the maximal run of free blocks around it into one block of their lengths plus 32 per absorbed header; outside it only the next block's `prev` changes |
| HeapCoalescing.FreeKeepsExact | src/kernel/mem/heap.cpp:196-235 | `free` keeps exact links exact, and a heap without adjacent free blocks without them |
| HeapCoalescing.FreeIsCollapse | src/kernel/mem/heap.cpp:196-235 | whatever the links: a `free` that completes makes one block of the run of free blocks that starts where the walk back ends |
| HeapCoalescing.FreeSeparatesIff | src/kernel/mem/heap.cpp:209-234 | a `free` that completes leaves no two free blocks next to each other if and only if all there are, once the block is free, lie in the run that starts where the walk back ends |
| HeapCoalescing.AllocThenFree | src/kernel/mem/heap.cpp:61-97 | round trip: on an exactly linked heap without adjacent free blocks, freeing what `alloc` returned restores every header, including the link the split left stale |
| HeapRoundTrip.AlignedThenFree | src/kernel/mem/heap.cpp:99-194 | the same round trip for a fitting `allocAligned`, whichever of its four cuts it makes |
| HeapCoalescing.SplitKeepsExactIff | src/kernel/mem/heap.cpp:78-85 | a split keeps links exact if and only if the block it splits is the last |
| HeapRuns.StepKeepsHeap | src/kernel/mem/heap.cpp:61-246 | each operation that returns and fits (takes no block for a size that wraps with the header's, and cuts an end only where there is room) keeps the tiling, and every live block it does not free with its length |
| HeapRuns.ReturnKeepsTilingIff | src/kernel/mem/heap.cpp:61-246 | any operation that returns keeps the tiling if and only if it fits in that sense |
| HeapRuns.RunTilesIff | src/kernel/mem/heap.cpp:61-246 | a run of operations that return is tiled in every state if and only if each of them fits |
| HeapRuns.RunFromReset | src/kernel/mem/heap.cpp:34-246 | in every state of every run from `reset` whose operations return and fit, the blocks tile the same region |
| HeapRuns.LiveUntilFreed | src/kernel/mem/heap.cpp:61-246 | a live block keeps its address and length over any such run, until the operation that frees it |
| HeapRuns.LiveBlocksDisjoint | src/kernel/mem/heap.cpp:61-246 | in every state of such a run two live blocks lie in the region and share no byte |
| HeapRuns.FreeHaltsOnDangling | src/kernel/mem/heap.cpp:209-211 | `free` of a live block halts if and only if the back links from it, through free blocks, lead to an address where there is no header |
| HeapRuns.StaleLinkHaltsFree | src/kernel/mem/heap.cpp:78-85 | a run of `alloc` and `free` calls from `reset` after which a live block cannot be freed |
| HeapRuns.ResetIsExact | src/kernel/mem/heap.cpp:46-54 | a fresh heap is exactly linked |
| HeapRuns.StepKeepsExactIff | src/kernel/mem/heap.cpp:61-246 | any operation that returns and fits, the four cuts of `allocAligned` included, keeps exact links exact if and only if no block it cuts has a successor |
| HeapRuns.ExactRunIff | src/kernel/mem/heap.cpp:61-246 | a run is exactly linked in every state if and only if all of its cuts are of the last block |
| HeapRuns.ExactRunNeverHalts | src/kernel/mem/heap.cpp:61-246 | over a run in which every cut is of the last block, `free` of any live block completes in every state |
| HeapApart.StepApartIff | src/kernel/mem/heap.cpp:61-246 | no operation that returns and fits puts a free block next to another, except a `free` that does not join all there are |
| HeapApart.RunApartIff | src/kernel/mem/heap.cpp:61-246 | a run from `reset` keeps free blocks apart in every state if and only if each of its `free` calls joins all there are |
| HeapApart.ExactRunStaysApart | src/kernel/mem/heap.cpp:61-246 | over a run from `reset` in which every cut is of the last block no two free blocks are ever next to each other |
| HeapApart.StaleLinkSeparates | src/kernel/mem/heap.cpp:209-218 | a run of `alloc` and `free` calls from `reset`, and a `free` that completes and leaves two free blocks next to each other |
| KernelHeap.Heap.Reset | src/kernel/mem/heap.cpp:34-55 | `reset` refuses if and only if the heap has a live block, and else leaves one free block; on bounds that no heap can have, and only there, the result is not a heap |
| KernelHeap.Heap.Alloc | src/kernel/mem/heap.cpp:61-97 | the loop over the headers, with its writes in place, does what `HeapModel.Alloc` does, and its result is the lowest block as `HeapSafety.AllocIsFirstFit` describes it |
| KernelHeap.Heap.FindCut | src/kernel/mem/heap.cpp:111-189 | the inner loop of `allocAligned`, which only reads, decides as `HeapAligned.CutOf` |
| KernelHeap.Heap.AllocAligned | src/kernel/mem/heap.cpp:99-194 | the two loops and the four cuts do what `HeapAligned.AllocAligned` does, for every size and alignment; going round for ever is the result `Hangs` |
| KernelHeap.Heap.Free | src/kernel/mem/heap.cpp:196-235 | the two loops do what `HeapModel.Free` does, and halt exactly where it is none |
| KernelHeap.Heap.FreeChecked | src/kernel/mem/heap.cpp:237-246 | `freeChecked` completes if and only if 32 bytes before the address is a header with exactly the given length and `free` completes, with the same effect |
| Algorithm.AlignUpIsLeastMultiple | src/kernel/algo/algorithm.hpp:11 | the bit trick gives the least multiple of a power of two that is not below its argument |
| Bitmaps.TrackingBijection | src/kernel/mem/pm.cpp:8-9 | every pair of a word and a bit number is the tracking position of exactly one frame |
| Bitmaps.TakenAfterMark | src/kernel/mem/pm.cpp:195-198 | setting a frame's bit adds that frame, and no other, to the marked ones, for 32-bit and 64-bit words |
| Bitmaps.TakenAfterUnmark | src/kernel/mem/pm.cpp:222-228 | clearing a frame's bit removes that frame and no other |
| PageEntries.MapWritesEntry | src/kernel/mem/pm.cpp:45 | a `map` that completes leaves at its address an entry whose bit n is set if and only if the page's address or the flags have it, or n is 0 (present) or 7 (page size) |
| PageEntries.MapWritesLinks | src/kernel/mem/pm.cpp:47-70 | new tables are in the lowest free frames, the PDPT before the PD, and the entries that link them are the table's address and 3, present and writable |
| PageModel.PageEntryFacts | src/kernel/mem/pm.cpp:45 | for an aligned page and flags below 2 MiB the entry is present, and masking its low bits gives the page back |
| PageModel.TableEntryIsOr | src/kernel/mem/pm.cpp:54 | an entry for a table is the frame's address with the two flag bits |
| PageModel.LowestFree | src/kernel/mem/pm.cpp:204-216 | the frame found is unmarked, every lower one is marked, and none is found only if all are |
| PageProgress.AllocFrameTakesOne | src/kernel/mem/pm.cpp:201-217 | `alloc` is none if and only if every frame is taken; otherwise it takes the lowest free frame, zeroed, and changes nothing else |
| PageProgress.MapHaltsIff | src/kernel/mem/pm.cpp:24-72 | `map` halts if and only if an address is unaligned, the page is mapped already, or fewer frames are free than tables are missing; otherwise it uses exactly the missing ones |
| PageInvariant.MapIsSteps | src/kernel/mem/pm.cpp:33-71 | the three branches of `map` come to the same as linking each missing table with its count and then writing the page entry |
| PageInvariant.AddPdptKeepsInv | src/kernel/mem/pm.cpp:60-70 | linking a new PDPT keeps the tables a tree of marked frames with exact counts |
| PageInvariant.AddPdKeepsInv | src/kernel/mem/pm.cpp:47-57 | so does linking a new PD and counting it |
| PageInvariant.PutLeafKeepsInv | src/kernel/mem/pm.cpp:45-46 | so does writing a page entry and counting it |
| PageTranslation.GetIsTranslation | src/kernel/mem/pm.cpp:74-98 | `get` looks the page up in a partial function and adds the offset |
| PageTranslation.MapEntryEffect | src/kernel/mem/pm.cpp:24-72 | a `map` that completes keeps the invariant and changes one page entry of the whole tree, which was absent |
| PageTranslation.MapExtendsTranslation | src/kernel/mem/pm.cpp:24-98 | `map(v, p, flags)` adds v -> p to the partial function, where v was unmapped, and changes no other page |
| PageTranslation.MapRunKeepsInv | src/kernel/mem/pm.cpp:24-98 | over every run of `map` the tables stay a tree of marked frames with exact counts, and the translation is the first one with every request added |
| PageConservation.UnmapStep | src/kernel/mem/pm.cpp:100-138 | unmapping a page still in use succeeds, frees exactly the tables it empties, each of them marked until then, and leaves counts exact for the pages still in use |
| PageRoundTrip.MapRunGrows | src/kernel/mem/pm.cpp:24-72 | a run of `map` adds only new tables in frames that were free, and no unreferenced one |
| PageRoundTrip.UnmapAllRemaining | src/kernel/mem/pm.cpp:100-138 | unmapping pages one by one, in any order, never halts and frees no frame twice |
| PageRoundTrip.MapThenUnmapRestores | src/kernel/mem/pm.cpp:24-138 | any run of `map`, then one `unmap` of each of its pages in any order: every frame the run took is freed exactly once, and bitmap and counts end as they began |
| PageStale.UnmapKeepsTreeIff | src/kernel/mem/pm.cpp:118-132 | after `unmap` of a mapped page `get` still finds it and the counts no longer match the entries; the tables are still a tree of marked frames if and only if the PD's counter was above one, that is, another page of the PD was mapped |
| PageStale.CountsAnother | src/kernel/mem/pm.cpp:118-132 | a PD's counter is above one if and only if a page other than the given one is mapped through it |
| PageStale.RemapHalts | src/kernel/mem/pm.cpp:41-43 | mapping an unmapped page again halts, whether or not its tables were freed |
| PageStale.UnmapHaltsIff | src/kernel/mem/pm.cpp:100-138 | on any tables `unmap` halts if and only if the address is unaligned, or the page is mapped and the counter of its PD, or that of its PDPT after it, is used up by the call while the table is not marked |
| PageStale.UnmapOfUnmapped | src/kernel/mem/pm.cpp:109-137 | it reports that nothing was found, and changes nothing, if and only if the page is not mapped |
| PageStale.UnmapTwiceHalts | src/kernel/mem/pm.cpp:222-228 | unmapping the only page of a PD twice halts the second time |
| PageAliased.UnmappedPageTranslates | src/kernel/mem/pm.cpp:118-132 | in every state with two free frames: `map` and `unmap` under one absent entry of the PML4 and `map` under another leave both entries on the same PDPT, so the tables are no tree, and `get` of the address unmapped returns the page of the other |
| PageManager.PageManager.SetAlloc | src/kernel/mem/pm.cpp:191-199 | in the tracking array the frame is marked and no other, or the call halts on a bad address; at the end of the range, which passes the assertion, no frame is marked |
| PageManager.PageManager.Alloc | src/kernel/mem/pm.cpp:201-217 | the scan and the marking are `PageModel.AllocFrame` on the set of frames the array encodes |
| PageManager.PageManager.Free | src/kernel/mem/pm.cpp:219-229 | the bit operations are removal from that set of the frame an address lies in, and it halts, with nothing changed, if and only if the frame is not in it |
| PageManager.PageManager.IncRefs | src/kernel/mem/pm.cpp:239-248 | one counter of the array goes up by one modulo 65536, or an assertion on the address fails; at the end of the range no frame's counter changes |
| PageManager.PageManager.DecRefs | src/kernel/mem/pm.cpp:250-263 | one counter goes down by one, and stays 0 if it is, or an assertion on the address fails |
| PageManager.PageManager.Get | src/kernel/mem/pm.cpp:74-98 | the masks and shifts compute `PageModel.Get` |
| PageManager.PageManager.Map | src/kernel/mem/pm.cpp:24-72 | the writes to tables, bitmap and counters are `PageModel.MapPage` on the abstract state, and it halts exactly where that is none, on any tables that lie in the managed range; on a tree the entry it leaves has exactly the bits of the page, the flags, and bits 0 and 7 |
| PageManager.PageManager.Unmap | src/kernel/mem/pm.cpp:100-138 | the same for `unmap` |
| PageManager.PageManager.RetainLoaderPaging | src/kernel/mem/pm.cpp:265-343 | the new arrays, of a bit and a counter for each frame up to 4 MiB, the copy from 32-bit words with its nested counting loop and the final wipe leave exactly the state `Handover.Retained`, ending at 0x3FF000: every frame above all marked ones is zeroes, entry by entry, and every other frame is as it was |
| LoaderManager.LoaderManager.IsFree | src/loader/mem/pm.cpp:13-25 | the bit test on 32-bit words is membership in the set of marked frames, or an assertion on the address fails |
| LoaderManager.LoaderManager.SetAlloc | src/loader/mem/pm.cpp:42-47 | the frame an address lies in is marked and no other |
| LoaderManager.LoaderManager.Alloc | src/loader/mem/pm.cpp:27-40 | the loader's scan finds, marks and zeroes the lowest free frame, or returns 0xFFFFFFFF if there is none |
| LoaderManager.LoaderManager.Map | src/loader/mem/pm64.cpp:14-69 | the writes in place are `LoaderPages.LoaderMap` on the abstract state, and it halts exactly where that is none; the entry it leaves has exactly the bits of the address, the flags, and bits 0 and 7 |
| LoaderManager.LoaderManager.PlacePml4 | src/loader/loader.cpp:79 | marking the frame at 1 MiB and constructing the PML4 there leaves a tree of one table that maps nothing |
| LoaderPages.ConstructedTree | src/loader/mem/pm64.cpp:5-8 | the constructor leaves a tree of one table that maps nothing |
| LoaderPages.LoaderMapsKeeps | src/loader/mem/pm64.cpp:14-69 | the loader's `map` keeps a tree of marked frames without empty tables, and sets one page, mapped before or not, to the page the physical address lies in, aligned or not |
| LoaderPages.LoaderRunKeeps | src/loader/mem/pm64.cpp:14-69 | over every run of it the last `map` of each page counts, and nothing else is mapped |
| PageEntries.LoaderLinksWritten | src/loader/mem/pm64.cpp:40-66 | the same for the loader, with 1, present alone |
| Handover.LayoutFits | src/kernel/mem/pm.cpp:278-300 | for all 256 KiB-aligned bounds the two arrays are disjoint, lie between the last allocatable frame and 4 MiB at the addresses and with the sizes given, and have a bit and a counter for every allocatable frame |
| Handover.LastMarked | src/kernel/mem/pm.cpp:304-316 | the highest marked frame: every marked one is at or below it |
| Handover.RetainedWipes | src/kernel/mem/pm.cpp:336-342 | a frame is wiped to zeroes if and only if it is above all marked ones and below the end |
| Handover.HandoverKeepsTables | src/kernel/mem/pm.cpp:303-342 | no retained frame is wiped, each is counted by its present entries, and the kernel's tables satisfy the invariant and translate as the loader's did |
| Handover.HandoverPopulated | src/kernel/mem/pm.cpp:318-325 | no reachable table has a count of zero |
| Handover.RunHandedOver | src/kernel/mem/pm.cpp:265-343 | for every run of the loader's `map` from its constructor the kernel starts with the invariant and with exactly the loader's mappings |
| Handover.KernelSeesLoaderMappings | src/loader/mem/pm64.cpp:14-69 | the kernel's `get` returns what the loader's last `map` of the page wrote plus the offset, and none for all other pages |
| Ranges.VisitsEachStepOnce | src/kernel/algo/range.hpp:12-17 | the saturating iteration meets start, start + step, ... below the end, each once and in order, and then stops |
| Ranges.EndsIff | src/kernel/algo/range.hpp:8-23 | for all bounds and steps: the loop over a range comes to its end if and only if it starts there or some number of 64-bit steps leads to the end or past it |
| PhysicalPages.Collect | src/kernel/mem/mm.cpp:58-73 | the first loop finds at most as many pages as asked for, all within the limits |
| PhysicalPages.AllocPagesTracks | src/kernel/mem/mm.cpp:53-89 | a successful call returns exactly `count` strictly increasing pages from 6 MiB to 64 GiB, each untracked before and tracked after, and untracks none |
| PhysicalPages.NoPageTwice | src/kernel/mem/mm.cpp:53-89 | over every run of successful calls no page is handed out twice |
| PhysicalPages.CollectOnly | src/kernel/mem/mm.cpp:63-71 | with one bit a page, exactly the pages found become tracked |
| PhysicalPages.CollectLowest | src/kernel/mem/mm.cpp:58-73 | with one bit a page, the pages found are the lowest free ones |
| PhysicalPages.LowestPageGranted | src/kernel/mem/mm.cpp:58-73 | a call for one page is given the lowest free one, with any mask |
| PhysicalPages.FailureTracks | src/kernel/mem/mm.cpp:75-86 | after a failing call all pages from 6 MiB on are tracked, and below those that were, except where a page of the same word was free before whose number has the page's bit |
| PhysicalPages.FailureRestoresIff | src/kernel/mem/mm.cpp:75-86 | a failing call leaves the bitmap as it was if and only if no page was free |
| PagesInOrder.AllocInOrder | src/kernel/mem/mm.cpp:53-89 | when the pages from 6 MiB up to one are tracked, a call is given the next ones in order, and falls short if and only if that passes 64 GiB |
| PagesInOrder.InitGrants | src/kernel/mem/mm.cpp:53-89 | from `mm::init` a call for up to 32765 pages is given those at 6 MiB, 8 MiB and so on, and a call for more falls short |
| PagesInOrder.FirstFailureTracks | src/kernel/mem/mm.cpp:75-86 | after the first call that falls short a page is free if and only if the number of a page not yet handed out, in the same word, has its bit |
| PagesInOrder.FailureReleasesGrantedPage | src/kernel/mem/mm.cpp:80-83 | after 1023 calls for 32 pages from `mm::init` on, the next call for 32 fails and untracks a page that the 1022nd was granted |
| MemoryModel.FindRangeIsLowest | src/kernel/mem/mm.cpp:27-48 | the address found is the lowest multiple of 2 MiB in [0x80000000, 0xFFFF00000000) from which on `get` finds none of the pages asked for, and none is found only if there is none |
| MemoryModel.MapPages | src/kernel/mem/mm.cpp:131-136 | the loop of `map` keeps the invariant and extends the translation by exactly the pages of the range |
| RangeFrames.MapEntryAdds | src/kernel/mem/pm.cpp:24-72 | one `map` leaves exactly the tables there were and the PDPT and PD of its own page |
| RangeFrames.AtMostFour | src/kernel/mem/mm.cpp:131-136 | 32 consecutive pages are never missing more than four tables |
| MemoryModel.MapPagesProgress | src/kernel/mem/mm.cpp:131-136 | into an unmapped range the loop never meets a mapped page; it halts if and only if fewer frames are free than the range is missing tables, and else takes one for each |
| MemoryModel.AllocMapsRange | src/kernel/mem/mm.cpp:97-139 | a successful `mm::alloc` maps the lowest unmapped range of the requested size, page i to the i-th physical page, and no other page changes |
| MemoryModel.AllocSeenByGet | src/kernel/mem/mm.cpp:97-139 | the same through `get`, for every address and offset |
| MemoryEntries.GrantEntries | src/kernel/mem/mm.cpp:131-136 | the entry of every granted page has exactly the bits of its physical page, those of the flags, and bits 0 and 7 |
| MemoryModel.AllocPanicsIff | src/kernel/mem/mm.cpp:97-139 | `mm::alloc` panics if and only if more than 32 pages are asked for, or both searches succeed and fewer frames are free than the range is missing tables; so never on a page already present, and only with fewer than four free frames |
| MemoryModel.NoPagesNothing | src/kernel/mem/mm.cpp:98-100 | a call for no pages is given none and takes nothing |
| MemoryManager.MemoryManager.FindVirtualRange | src/kernel/mem/mm.cpp:29-49 | the nested saturating iterations over `get` return the lowest address as `MemoryModel.FindRangeIsLowest` describes it, for as many pages as stay below 2^48 from every start |
| MemoryManager.MemoryManager.AllocPhysicalPages | src/kernel/mem/mm.cpp:53-89 | the two loops over the bitmap are `PhysicalPages.AllocPages`, and `pages` holds the addresses of the pages found, multiples of 2 MiB from 6 MiB to 64 GiB |
| MemoryManager.MemoryManager.Alloc | src/kernel/mem/mm.cpp:97-139 | tables, bitmap and result after the call are those of `MemoryModel.Alloc`, and it panics exactly where that does; the address it returns is the lowest unmapped one from 0x80000000 on, no pages give none and change nothing, and more than 32 panic |
| MemoryRuns.CallKeepsOwns | src/kernel/mem/mm.cpp:97-139 | a call keeps all granted pages mapped, tracked and each backed by its own physical page, and adds its own, unless it fails and its rollback clears a granted page's bit |
| MemoryRuns.FailureKeepsOwnsIff | src/kernel/mem/mm.cpp:75-86 | a call that finds too few physical pages keeps every granted page tracked if and only if no free page's number has the bit of a granted page in its word |
| MemoryRuns.RunOwns | src/kernel/mem/mm.cpp:97-139 | over every run of calls whose rollbacks spare the granted pages, what was granted stays granted at the same addresses |
| MemoryRuns.GrantsNeverShare | src/kernel/mem/mm.cpp:97-139 | over every such run a granted page translates as when it was granted, and no two granted pages translate to the same physical page |
| MemoryOrder.RollsBackIff | src/kernel/mem/mm.cpp:75-86 | from `mm::init` on a call rolls back if and only if it gets that far and asks for more pages than are left below 64 GiB |
| MemoryOrder.RunGrantsInOrder | src/kernel/mem/mm.cpp:97-139 | over a run that asks for no more than these the granted pages are those from 6 MiB on, without a gap, and the tracked ones |
| MemoryOrder.FewGrantsNeverShare | src/kernel/mem/mm.cpp:97-139 | over such a run from `mm::init` on no two granted pages share a physical page |
| MemoryRuns.CallKeepsMappings | src/kernel/mem/mm.cpp:97-139 | any call, also one whose rollback goes wrong, keeps every mapping there was, whoever made it |
| MemoryRuns.RunKeepsMappings | src/kernel/mem/mm.cpp:97-139 | over every run, failing calls included, mappings and grants stay as they were made, and grants lie above 6 MiB |
| SharedPages.GrantsCanShare | src/kernel/mem/mm.cpp:75-86 | from `mm::init` on, with 67 free frames and an unmapped range: 1024 calls for 32 pages and one for one page, after which two granted pages translate to the same physical page |
| HeapInit.RegionStaysApart | src/kernel/mem/heap.cpp:261-265 | after `heap::init` and any run of `mm::alloc`, failing calls included, the pages of the heap region are mapped, as `init` mapped them, to distinct physical pages |
| HeapInit.BlocksInRegion | src/kernel/mem/heap.cpp:261-265 | every byte of every live block, in every state of every run of the heap whose operations return and fit, lies in that region |
| HeapInit.HeapBytesMappedApart | src/kernel/mem/heap.cpp:261-265 | over every such run of the heap and every run of `mm::alloc` after `init`, failing calls included: every byte of every live block is mapped, where `init` mapped it and above 6 MiB, and distinct heap bytes are backed by distinct bytes of memory |
| MemoryEntries.HeapEntries | src/kernel/mem/heap.cpp:261-265 | after `heap::init` the entry of every page of the heap is the page's address and 0x81: bit 1, which makes a page writable, is clear |
| Boot.KernelStarts | src/kernel/mem/pm.cpp:265-343 | after any run of the loader, the handover and `mm::init`, the state is one from which the theorems on runs of `mm::alloc` start |
| Boot.LoaderMappingsStay | src/kernel/mem/mm.cpp:97-139 | over any run of `mm::alloc` from there, failing calls included, what the loader mapped still translates as its last `map` said |
| Boot.GrantsAvoidTables | src/kernel/mem/mm.cpp:56-58 | over any such run no granted page overlaps a page table, nor any other marked frame |
| Boot.GrantsAvoidLoader | src/loader/loader.cpp:79-82 | if the loader mapped nothing at or above 6 MiB, no granted page translates to a page it mapped |
| Boot.GrantsMeetLoaderIff | src/loader/loader.cpp:103-118 | over any run of `mm::alloc` that asks for no more than the pages from 6 MiB to 64 GiB: a granted page is one the loader mapped if and only if the loader mapped one from 6 MiB up to the first page still free |
| Boot.FirstCallMeetsLoaderIff | src/loader/loader.cpp:103-118 | the first call after the boot is granted a page the loader mapped if and only if the loader mapped one in [6 MiB, 6 MiB + count * 2 MiB) |
| Boot.GrantCanBeLoaderPage | src/loader/loader.cpp:103-118 | a boot after which a call for one page is granted the kernel's, whatever the mask |
| Boot.BootedGrantsCanShare | src/kernel/mem/mm.cpp:75-86 | the sharing run starts at a kernel booted with its image at 6 MiB |
| Boot.BootedUnmapTranslates | src/kernel/mem/pm.cpp:118-132 | so do the three calls after which an address that nothing maps translates |
| BootedHeap.InitCompletesIff | src/kernel/mem/heap.cpp:261-265 | `heap::init` of a booted kernel completes if and only if sixteen pages in a row are left free by the loader and enough frames for the tables they are missing, of which there are four at most |
| BootedHeap.HeapMeetsLoaderIff | src/kernel/mem/heap.cpp:261-265 | the heap it gets lies on a page the loader mapped if and only if the loader mapped one from 6 MiB to 38 MiB |
| BootedHeap.BootedHeapBytes | src/kernel/mem/heap.cpp:261-265 | from the loader on, over every run of the heap and of `mm::alloc`: heap bytes stay mapped and have different bytes of memory, what the loader mapped stays as it was, and if it mapped nothing from 6 MiB to 38 MiB no heap byte is one of its bytes |
| BootedHeap.HeapCanMeetKernel | src/loader/loader.cpp:103-118 | with the kernel at 6 MiB `heap::init` completes and puts the heap on the kernel's page |
| Itoa.ParseText | src/kernel/algo/itoa.hpp:12-60 | parsing the text gives the value back for every base from 2 to 16 (and 0 in base 1), signed for base 10 without `u`; 0 is the character 0x30 alone, a minus sign (0x2D) comes first exactly for negative numbers, all else are digits of the base, and no other text starts with 0 |
| Itoa.TextFits | src/kernel/algo/itoa.hpp:9 | text and terminator take at most 65 bytes, and in base 2 exactly 65 if and only if the top bit is set |
| Itoa.NoEarlyTerminator | src/kernel/algo/itoa.hpp:57 | the terminator is the first zero byte |
| Itoa.XorSwap | src/kernel/algo/itoa.hpp:50-52 | the three exclusive ors exchange two bytes and change no other |
| Itoa.ReverseInPlace | src/kernel/algo/itoa.hpp:48-55 | the two-index loop reverses the first bytes and leaves the rest |
| Itoa.PutDigits | src/kernel/algo/itoa.hpp:32-35 | the digit loop leaves the numeral, low digit first |
| Itoa.DigitsEndIff | src/kernel/algo/itoa.hpp:32-35 | the digit loop comes to an end if and only if the base is not 1 or there is nothing to print |
| Itoa.Itoa | src/kernel/algo/itoa.hpp:12-60 | the buffer holds the text and its terminator, and every byte beyond is as it was |

## Left out

- PageManager.PageManager.RetainLoaderPaging: bounds are multiples of 256 KiB, as the loader's constants are. The range gets its final end before the copy and not after it; the frames copied lie below the loader's end either way. The arrays are objects of their own and not overlays of the frames above the range, where `Handover.LayoutFits` shows they fit.
- PageManager.PageManager.Free: an address outside the range, for which the source has no assertion and whose index lies outside the tracked frames, is excluded.
- PageManager.PageManager.Get: addresses of 2^48 and above, which index beyond the 512 entries of the PML4.
- PageManager.PageManager.Map: the same addresses are excluded.
- PageManager.PageManager.Unmap: the same addresses are excluded.
- LoaderManager.LoaderManager.Map: the same addresses are excluded.
- LoaderManager.LoaderManager.IsFree: the end of the paging region, which passes the assertion and whose word is outside the array, is excluded; no caller in the source passes it.
- LoaderManager.LoaderManager.SetAlloc: addresses outside the paging region, whose word is outside the array, are excluded; the source has no assertion there.
- MemoryManager.MemoryManager.FindVirtualRange: at most 0x801 pages, the most for which no range searched passes 2^48; `mm::alloc` asks for at most 32.
- KernelHeap.Heap.AllocAligned: the theorems about it are for powers of two, as the source's comment expects of its callers; the method and its specification take any alignment.
- KernelHeap.Heap.Reset: headers of an earlier region that a new one overlaps are forgotten with it.
- Itoa.Itoa: values other than 0 in base 1, for which the digit loop never ends. The negation of the smallest signed value, which the language leaves undefined, wraps.
- Boot.GrantsMeetLoaderIff: for a mask of one bit a page, and up to the first call that rolls back; which pages come after that is stated only through `PhysicalPages.FailureTracks` and `PhysicalPages.LowestPageGranted`.
- Client payload: the model has headers only, so a client that writes outside its block, payload bytes that look like a header, and headers that overlap each other in part (after the cut of `HeapAligned.FrontWithoutRoomBreaks`) are not represented beyond the loss of the tiling.
- Page tables and client memory are separate in the model except through `Boot.GrantsAvoidTables`; what a client writes through a mapping is not represented.
- Flags passed to `map` below 2^21 are bits of the entry: what the processor makes of them, the TLB and CR3 are not modelled.
- `mm::free` and releasing physical pages: the source releases none, and `freePhysicalPages` and `freeVirtualRange` are only declared.
- Longer interleavings of `unmap` with `map`: the two are specified on any tables in the managed range, and `PageStale` says when a tree is lost, but nothing is proved of what happens to tables that are no tree.
- The heap's destructor, `dump`, `valid`, and the `dump` functions of the page tables: plain walks that only print or halt.
- The loader's PAE tables and its unimplemented `unmap`, Multiboot and ELF parsing, the checksum of the loader's data, serial output, `printf`, port access and assembly.
- `option` and `result` are a Dafny datatype, and `memset` is modelled as its effect.

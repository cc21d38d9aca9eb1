# medusaOS in Dafny

A model of the parts of medusaOS and its UEFI loader where the code does most of its reasoning, with proofs of
what it is for.

- **The kernel memory stack.** `HeapModel`, `HeapRuns` and `KernelHeap` hold the first-fit heap: the block list as a
  value, every run of calls on it, and the code that keeps the list in memory words with the used flag in the size;
  `HeapContents` runs calls and clients' stores together, `HeapRemarks` settles what the source remarks about itself.
  `FrameModel`, `FrameBitmap` and `FrameRuns` hold the physical frame bitmap in the same three steps, and `FrameCalls`
  joins the last two. `PagingModel` and `Paging` hold the two-level page table (section 4.3 of the Intel SDM,
  Volume 3A): memory is 1024-word frames, a walk translates addresses, and the code edits the table only through the
  addresses the self-mapped directory gives it; `PagingRuns` takes, maps, unmaps and gives back frames in any order,
  and `HeapSetup` joins the three layers at the heap's first allocation. `Arith` has the rounding helpers and 32-bit
  wrap-around all of them use.
- **Sorting and searching.** `Quicksort` is the Bentley-McIlroy sort in place, for any element type and any
  comparison that is a total preorder (section 7.22.5.2 of C11); `Bsearch` searches what it leaves.
- **Calendar arithmetic.** `Calendar` compares `mktime` with a month-by-month Gregorian count (section 4.16 of the
  Base Definitions of POSIX.1-2017).
- **Codecs and parsers.** `Base64` (section 4 of RFC 4648), `Utf8` (section 3 of RFC 3629), `ArgvPacker`,
  `Initrd` (POSIX `pax`, "ustar Interchange Format"), `Tokenizer`, `Decimal`.
- **Lines and the loader's allocator.** `Lines` draws Bresenham lines into a linear frame buffer; `TrackedAlloc` is
  the `malloc` that keeps a side table of what is live.

Code that changes state in the original is a class or a method over an array here, proved against a function of the
old state; the properties are proved of those functions, for single calls and for whole runs. `abort` is an outcome
after which nothing more happens.

Where the code does not do what is said or meant of it, the model follows the code and the exact condition is proved:

- The comment at `kernel/kernel/mm/kmalloc.c:57` holds for every request of every run that uses one alignment beside
  `kmalloc`'s exactly when that alignment divides four or is a multiple of four (`HeapRemarks.RemarkHoldsExactly`, for
  alignments up to an eighth of the heap); a request that breaks it leaves two headers that overlap
  (`HeapRemarks.TrippedHeapOverlaps`). The filler the comment at line 65 calls 8-byte aligned is so
  exactly when the block before it starts four past a multiple of eight (`HeapRemarks.FillerAlignment`).
- The heap's limit check is right, for a payload that starts in the heap, exactly when its true end is below 2^32
  (`HeapRemarks.LimitCheckInRuns`); exactly then a new block keeps the heap well placed
  (`HeapRemarks.AllocKeepsExactly`).
- `paging_virt_to_phys` promises zero for an unmapped address; when the table is there it returns the offset and
  whatever frame bits the entry has (`Paging.PageTables.VirtToPhys`, `PagingModel.EmptyTableAnswers`).
- Unmapping a page whose entry is empty gives back frame 0 (`Paging.PageTables.UnmapPage`,
  `FrameBitmap.FrameAllocator.PmmFreePage`).
- `mbstowcs` writes past the `n` units it is given exactly when the unit before place `n` is below 0x800 and the text
  goes on to place `n` with its end or an ASCII character (`Utf8.StaysWithinExactly`); `wcstombs` writes a NUL past a
  size of 0 (`Utf8.Wcstombs`).
- The heap's first allocation maps whatever `pmm_alloc_pages` returns; the heap has frames of its own exactly when that
  is not 0 (`HeapSetup.BackHeap`, `HeapSetup.HeapWithoutFrames`).
- Marking an empty region that starts inside a frame marks one frame (`FrameModel.RegionFrames`).
- What `wctomb` writes is well-formed UTF-8 exactly unless the unit is half of a surrogate pair
  (`Utf8.WellFormedExactly`).
- `used_blocks` is the number of taken frames after a run exactly when it was at boot
  (`FrameRuns.CountIsRightExactly`).
- `mktime` is right exactly from 1902 on (`Calendar.MktimeIsRightFrom1902`).
- The size in a tar header is read modulo 2^32 (`Initrd.SizeIsRightExactly`).
- The loader's allocator gives all its memory back exactly when it was never asked, and granted a table, for a buffer
  while one was live (`TrackedAlloc.AllGoesBackExactly`, `TrackedAlloc.TwoBuffersLoseATable`).
- `strtol` flags the most negative `long`, which fits, and from base 3 on some overflow goes unflagged
  (`Decimal.FalseAlarmExactly`, `Decimal.EveryOverflowReportedExactly`).
- A line includes both end points exactly when it is horizontal or upright (`Lines.BothEndsExactly`); an upright one is
  drawn twice.

`dafny verify dfyconfig.toml` checks the whole project.

## Model

| member | source | states |
|---|---|---|
| HeapRuns.LivePayloadsAreSeparate | kernel/kernel/mm/kmalloc.c:54-215 | after any run of allocations and frees, a live pointer is a multiple of the alignment it was asked with, and every byte of its allocation lies inside the heap, belongs to that allocation alone and is part of no block header |
| HeapRuns.RunKeeps | kernel/kernel/mm/kmalloc.c:149-215 | any run of `aligned_alloc` and `kfree` of held pointers keeps the block list ordered, gap-free up to 16 bytes and inside the heap, `used_memory` equal to the sum of the used sizes, and every live pointer backed by its own large enough used block and aligned as asked |
| HeapRuns.AllocStep | kernel/kernel/mm/kmalloc.c:159-215 | one allocation keeps that invariant and never returns a pointer that is still held |
| HeapRuns.FreeStep | kernel/kernel/mm/kmalloc.c:149-157 | freeing a held pointer keeps the invariant: exactly its block becomes free |
| HeapRuns.PayloadsAreSeparate | kernel/kernel/mm/kmalloc.c:93-110 | the invariant alone implies the separation of payloads from each other and from headers |
| HeapRuns.FreedRoomIsUsable | kernel/kernel/mm/kmalloc.c:149-215 | right after a free, asking for the same size at an alignment the pointer has cannot run out of memory |
| HeapModel.AllocExactly | kernel/kernel/mm/kmalloc.c:159-215 | `aligned_alloc` in full, by numbers alone: the first free block of at least the rounded size whose payload address is a multiple of the alignment is marked used and returned; without one, the payload goes to the least multiple far enough past the top block, with a free filler before it exactly when more than 16 bytes are left, or the kernel aborts exactly when it would end past the heap |
| HeapModel.AllocIsSound | kernel/kernel/mm/kmalloc.c:159-215 | a successful allocation returns an address that is a multiple of the alignment, with at least the rounded request inside the heap, leaves every other block as it was, never reuses a used block, and appends exactly when no free block is large enough and aligned |
| HeapModel.AllocCases | kernel/kernel/mm/kmalloc.c:179-214 | reuse, exhaustion and growth: what state and pointer each way out leaves, and that the 32-bit limit check lets a new block through only when it ends inside the heap |
| HeapModel.FirstFitIsFirst | kernel/kernel/mm/kmalloc.c:83-110 | the search returns the first block that is free, large enough and whose payload address is a multiple of the alignment, and finds none only when there is none |
| HeapModel.AppendKeeps | kernel/kernel/mm/kmalloc.c:54-79 | a new block with its filler keeps the list well placed: increasing addresses, word alignment, no gap a filler would fit |
| HeapModel.FreeExactly | kernel/kernel/mm/kmalloc.c:149-157 | `kfree` in full: the block whose payload starts at the pointer becomes free, its size leaves the sum, nothing else changes |
| HeapModel.MarkKeeps | kernel/kernel/mm/kmalloc.c:149-157 | setting or clearing one used flag keeps the list well placed and changes the sum of used sizes by exactly that size |
| HeapModel.BlocksDisjoint | kernel/kernel/mm/kmalloc.c:37-39 | no byte lies in two blocks |
| HeapModel.NewEndExact | kernel/kernel/mm/kmalloc.c:189-196 | for every request below a bound that does not depend on the state the limit check sees the true end of the new payload |
| HeapRemarks.RemarkHoldsExactly | kernel/kernel/mm/kmalloc.c:54-79 | an alignment, used beside `kmalloc`'s, keeps the aligned address from falling behind at every request of every run exactly when it divides four or is a multiple of four: with any other, a request of the run's own alignments falls behind (alignments up to an eighth of the heap) |
| HeapRemarks.RemarkHoldsInRuns | kernel/kernel/mm/kmalloc.c:54-79 | in every state reached by allocations and frees with alignments that divide four or are multiples of it, it holds for a next request of any alignment, also of others |
| HeapRemarks.BehindExactly | kernel/kernel/mm/kmalloc.c:57-59 | the aligned address is behind exactly when a multiple of the alignment lies between the top block's end and the next word |
| HeapRemarks.NeverBehindExactly | kernel/kernel/mm/kmalloc.c:57-59 | where the top block ends no alignment is behind exactly when that is a word |
| HeapRemarks.FailingRun | kernel/kernel/mm/kmalloc.c:54-79 | for any other alignment, a run over it and `kmalloc`'s, and the request of that alignment that ends it: it passes the limit check and its aligned address is behind |
| HeapRemarks.TrippedHeapOverlaps | kernel/kernel/mm/kmalloc.c:54-79 | what such a request leaves: the unsigned distance is huge, a filler is written all the same, and the new block starts below it, their headers overlapping |
| HeapRemarks.FillerAlignment | kernel/kernel/mm/kmalloc.c:65-73 | in every reachable state a filler starts at a multiple of eight exactly when the block it follows starts four past one |
| HeapRemarks.FillerOffEight | kernel/kernel/mm/kmalloc.c:65-73 | the first page-aligned request puts its filler four past a multiple of eight |
| HeapRemarks.RunKeepsRoundTop | kernel/kernel/mm/kmalloc.c:161-161 | in every run the top block's size stays a multiple of eight |
| HeapRemarks.LimitCheckInRuns | kernel/kernel/mm/kmalloc.c:189-196 | in every reachable state, for every 32-bit request and alignment: the check sees the true end exactly when that is below 2^32; where the payload starts in the heap or no further than eight past it, exactly then the decision is right, and where it starts further up the decision is right exactly when the wrapped end is above the limit |
| HeapRemarks.AllocHoldsExactly | kernel/kernel/mm/kmalloc.c:159-215 | a successful allocation, for any 32-bit request and alignment, holds the request inside the heap exactly when the request is at most 2^32 - 8 and either a block was reused or the new payload ends below 2^32 |
| HeapRemarks.AllocKeepsExactly | kernel/kernel/mm/kmalloc.c:159-215 | with a valid alignment it keeps the heap's whole invariant exactly when a block was reused or the new payload ends below 2^32 |
| HeapRemarks.OversizedRequestPasses | kernel/kernel/mm/kmalloc.c:189-196 | a first request of 1 GiB passes the check |
| HeapContents.RunKeepsContents | kernel/kernel/mm/kmalloc.c:129-215 | through any run of calls and client stores, a payload that no call frees and no client stores into stays held and keeps every word |
| HeapContents.EventKeepsWord | kernel/kernel/mm/kmalloc.c:149-215 | and through every single one |
| HeapContents.Perform | kernel/kernel/mm/kmalloc.c:149-215 | the allocator over its memory does what an event of such a run allows |
| HeapModel.InitKeeps | kernel/kernel/mm/kmalloc.c:165-177 | setting up the list with its empty used block establishes the invariant |
| HeapSetup.BackHeap | kernel/kernel/mm/kmalloc.c:165-169 | the first call takes the heap's frames and maps them, exactly when no heap page is mapped and the counters leave enough for the missing tables: every heap address then walks to its place behind the frames taken, every heap page is present and writable and no more, no other translation changes, and the frames were free, are taken and are no tables exactly when the bitmap found any |
| HeapSetup.HeapWithoutFrames | kernel/kernel/mm/kmalloc.c:168-169 | a state that meets all the setup asks for and in which no frames are found |
| HeapSetup.OwnExactly | kernel/kernel/mm/kmalloc.c:168-169 | mapping keeps frames taken for the heap from being used as tables; when no frames are found the heap lies on physical address 0 |
| KernelHeap.Allocator.AlignedAlloc | kernel/kernel/mm/kmalloc.c:159-215 | over real memory words: the list in memory afterwards is the specified one, the result is the specified pointer or the abort, a pointer is a multiple of the alignment with the request inside the heap, and no word but a block header changes |
| KernelHeap.Allocator.MemNewBlock | kernel/kernel/mm/kmalloc.c:54-79 | writes the header of the new block and of a filler so that memory spells the extended list, changing only header words |
| KernelHeap.Allocator.MemFindBlock | kernel/kernel/mm/kmalloc.c:93-110 | following the `next` words reaches the first free block that is large enough and whose payload address is a multiple of the alignment, or NULL exactly when there is none |
| KernelHeap.Allocator.SetUpList | kernel/kernel/mm/kmalloc.c:163-177 | the first call makes the one-block list, later calls change nothing |
| KernelHeap.Allocator.TakeBlock | kernel/kernel/mm/kmalloc.c:181-185 | reusing a block sets its flag in the size word and accounts for its size |
| KernelHeap.Allocator.Kfree | kernel/kernel/mm/kmalloc.c:149-157 | the header is found from the pointer; its flag is cleared, its size leaves `used_memory`, no other word changes |
| KernelHeap.Allocator.Krealloc | kernel/kernel/mm/kmalloc.c:129-144 | NULL, size 0 and growth: the old contents are at the new pointer word for word, the old block is free again; on exhaustion nothing is freed |
| KernelHeap.Allocator.ClientStore | kernel/kernel/mm/kmalloc.c:13-17 | a store into a held payload damages no header |
| KernelHeap.PayloadWritesKeepLinks | kernel/kernel/mm/kmalloc.c:13-17 | any change of memory inside one payload leaves the list readable as it was |
| KernelHeap.FlagWords | kernel/kernel/mm/kmalloc.c:37-39 | the used flag and an even size share the size word without loss |
| Arith.AlignToIsMultiple | kernel/include/kernel/misc.h:8-14 | without overflow `align_to` gives a multiple of `align` less than `align` above its argument |
| Arith.AlignToIsLeast | kernel/include/kernel/misc.h:8-14 | and no multiple lies in between |
| Arith.AlignToKeepsRequest | kernel/include/kernel/misc.h:8-14 | in 32 bits the rounded value stays at or above the request exactly when it fits 32 bits |
| Arith.DivideUpIsLeast | kernel/include/kernel/misc.h:16-22 | `divide_up` gives the least number of blocks that cover the amount |
| Quicksort.Qsort | kernel/arch/x86_64/uefi/qsort.c:78-157 | for every length and every total preorder the range ends up sorted, as a permutation of what it held, and nothing outside it moves; it terminates |
| Quicksort.Round | kernel/arch/x86_64/uefi/qsort.c:105-155 | one pass of the loop leaves a left part settled and less left to sort |
| Quicksort.SortOrSplit | kernel/arch/x86_64/uefi/qsort.c:134-150 | the insertion-sort escape or the split with its recursive call: both leave everything before the part iterated on in its final place |
| Quicksort.SplitRange | kernel/arch/x86_64/uefi/qsort.c:93-146 | pivot choice, partition and gathering give less, equal and greater parts of which the equal one is not empty |
| Quicksort.PartitionAround | kernel/arch/x86_64/uefi/qsort.c:105-133 | the partition around the pivot moved to the front gives the four zones of the whole range, and reports no swap exactly when the range was split then |
| Quicksort.Partition | kernel/arch/x86_64/uefi/qsort.c:106-133 | the scanning loop ends with zones equal, less, greater, equal; it reports no swap exactly when the range was split around its first element from the start, and then nothing moved |
| Quicksort.ScanUp | kernel/arch/x86_64/uefi/qsort.c:110-117 | the upward scan stops at an element above the pivot or at the other cursor, equals moved to the left end; without an equal nothing moves |
| Quicksort.ScanDown | kernel/arch/x86_64/uefi/qsort.c:118-125 | the downward scan, mirrored |
| Quicksort.ScanBoth | kernel/arch/x86_64/uefi/qsort.c:110-125 | both scans; a move means the range was not split around its first element |
| Quicksort.Gather | kernel/arch/x86_64/uefi/qsort.c:142-146 | both block exchanges bring the equal elements to the middle |
| Quicksort.VecSwap | kernel/arch/x86_64/uefi/qsort.c:70-72 | exchanging equally long ranges is one function of the old contents |
| Quicksort.InsertionSort | kernel/arch/x86_64/uefi/qsort.c:85-92 | the short case and the escape sort by themselves |
| Quicksort.Insert | kernel/arch/x86_64/uefi/qsort.c:87-89 | one element sinks to its place among sorted ones |
| Quicksort.Med3 | kernel/arch/x86_64/uefi/qsort.c:73-76 | the median has one of the three on either side |
| Quicksort.ChoosePivot | kernel/arch/x86_64/uefi/qsort.c:93-104 | the middle of short ranges, the median of first, middle and last, or the median of the medians of three triples |
| Quicksort.SplitSettles | kernel/arch/x86_64/uefi/qsort.c:147-155 | sorting the less part in place settles everything up to the greater part |
| Bsearch.Search | kernel/arch/x86_64/uefi/stdlib.c:280-296 | a hit always compares equal; in an array the key splits there is a hit exactly when some element compares equal |
| Bsearch.SortedSplits | kernel/arch/x86_64/uefi/stdlib.c:280-296 | an array sorted by the same total preorder is split by every key |
| FrameRuns.HeldFramesAreOwnedOnce | kernel/kernel/mm/pmm.c:127-199 | over any run of allocations and frees of held ranges: no frame taken at boot, frame 0 among them, is handed out, a held frame has one holder, `used_blocks` keeps its distance from the number of set bits, and freeing everything restores both |
| FrameRuns.ReservedRegionsStayReserved | kernel/kernel/mm/pmm.c:80-82 | no address of a region reserved at boot ever lies in a held range |
| FrameRuns.CountIsRightExactly | kernel/kernel/mm/pmm.c:201-209 | after any run the counter is the number of taken frames exactly when it was at boot |
| FrameCalls.PerformAll | kernel/kernel/mm/pmm.c:127-199 | a client's loop of calls through the allocator's code, over any legal run, ends in the state the run ends in, where every frame handed out has one holder and all others are as they were |
| FrameCalls.Perform | kernel/kernel/mm/pmm.c:127-199 | one call through the code is one step of a run |
| FrameRuns.RunKeeps | kernel/kernel/mm/pmm.c:127-199 | the ownership map and the counter distance are invariants of every run |
| FrameRuns.StepKeeps | kernel/kernel/mm/pmm.c:127-199 | and of every single call |
| FrameRuns.ChoiceIsFree | kernel/kernel/mm/pmm.c:127-186 | whatever a call takes was free and lies within the scanned words |
| FrameModel.FirstRunIsLowest | kernel/kernel/mm/pmm.c:229-260 | the reference scan gives the lowest run of clear bits of the length asked for, and 0 exactly when there is none |
| FrameModel.PagesChoiceIsLowest | kernel/kernel/mm/pmm.c:170-186 | the range chosen for `num` pages is the lowest free one among the words scanned when the counters leave as many blocks, and there is none chosen exactly when they do not or no such range exists |
| FrameModel.LargeChoiceIsLowest | kernel/kernel/mm/pmm.c:150-168 | the aligned large page is the first 4 MiB boundary past the start of the lowest 2048 free frames, and none exactly when the counters leave fewer or there are none |
| FrameModel.LowestFrame | kernel/kernel/mm/pmm.c:215-227 | the single frame found is the lowest free one scanned, and 0 exactly when all are taken |
| FrameModel.PagesChoiceIsFree | kernel/kernel/mm/pmm.c:170-186 | the range chosen for `num` pages is free and does not hold frame 0 |
| FrameModel.LargeChoiceIsFree | kernel/kernel/mm/pmm.c:150-168 | the 1024 frames from the next 4 MiB boundary lie inside the 2048-frame run found |
| FrameModel.RegionFrames | kernel/kernel/mm/pmm.c:98-122 | the frames marked for a region are those of 4096 bytes that it touches, exactly unless it is empty and starts inside a frame |
| FrameModel.RegionFitsExactly | kernel/kernel/mm/pmm.c:98-122 | the frames of a region lie in the bitmap exactly when the region ends within 4 GiB |
| FrameModel.RegionCovers | kernel/kernel/mm/pmm.c:115-122 | every address of a region lies in a frame marked for it |
| FrameBitmap.FrameAllocator.MmapFindFreeFrame | kernel/kernel/mm/pmm.c:231-260 | the word-skipping search equals the reference scan over all lengths, given that bit 0 is set |
| FrameBitmap.FrameAllocator.MmapFindFree | kernel/kernel/mm/pmm.c:215-227 | the single-bit search equals the reference scan for length one |
| FrameBitmap.FrameAllocator.MmapSet | kernel/kernel/mm/pmm.c:201-204 | sets one frame and counts up, in 32 bits |
| FrameBitmap.FrameAllocator.MmapUnset | kernel/kernel/mm/pmm.c:206-209 | clears one frame and counts down, in 32 bits |
| FrameBitmap.FrameAllocator.PmmInitRegion | kernel/kernel/mm/pmm.c:100-111 | frees the frames of a region and takes frame 0 again, with the counter this leaves |
| FrameBitmap.FrameAllocator.PmmDeinitRegion | kernel/kernel/mm/pmm.c:115-122 | takes the frames of a region |
| FrameBitmap.FrameAllocator.PmmAllocPage | kernel/kernel/mm/pmm.c:127-142 | a free frame is taken and returned, or 0, or the abort exactly when the counters are equal |
| FrameBitmap.FrameAllocator.PmmAllocPages | kernel/kernel/mm/pmm.c:170-186 | when the counters leave as many, takes and returns the lowest run of `num` free frames scanned, and returns 0 with nothing taken exactly when there is none or they leave fewer |
| FrameBitmap.FrameAllocator.PmmAllocAlignedLargePage | kernel/kernel/mm/pmm.c:150-168 | takes exactly the 1024 frames from the first 4 MiB boundary past the start of the lowest 2048 free ones, or nothing and returns 0 |
| FrameBitmap.FrameAllocator.PmmFreePage | kernel/kernel/mm/pmm.c:188-191 | clears one frame; bit 0 stays set exactly when it is not frame 0 |
| FrameBitmap.FrameAllocator.PmmFreePages | kernel/kernel/mm/pmm.c:193-199 | clears a range, with the same exact condition |
| FrameBitmap.FullWord | kernel/kernel/mm/pmm.c:217 | a word equals all ones exactly when it has no free frame, which is why it may be skipped |
| PagingModel.EntryIsSeen | kernel/kernel/mm/paging.c:56-71 | through the self-mapped directory the address computed for a page walks to exactly that page's table entry |
| PagingModel.DirectoryIsSeen | kernel/kernel/mm/paging.c:76-79 | the directory itself is seen at 0xFFFFF000 |
| PagingModel.TableIsSeen | kernel/kernel/mm/paging.c:60-66 | the window shows each table as one page, also a table just installed |
| PagingModel.AddTableTranslates | kernel/kernel/mm/paging.c:62-67 | creating and zeroing a table changes no translation below the window and keeps all tables apart and marked taken |
| PagingModel.EntriesAreTheOr | kernel/kernel/mm/paging.c:64-94 | below the frame number the entries written are the bitwise OR of the flags asked for and present, for a table also writable |
| PagingModel.SetEntryTranslates | kernel/kernel/mm/paging.c:94 | writing one entry changes the translation of that page only, to what the entry says |
| PagingModel.MapEntryFlags | kernel/kernel/mm/paging.c:62-95 | the page's entry has exactly the flags asked for and present, a table made on the way those and writable besides, bit by bit; every other directory entry stays |
| PagingModel.MapEntryTranslates | kernel/kernel/mm/paging.c:82-96 | mapping gives every address of the page its place in the frame and changes no other translation, also when a table is created |
| PagingModel.FramesBehindMapping | kernel/kernel/mm/paging.c:98-121 | the frames given back are exactly the frames that were mapped |
| PagingModel.FreeingFrame | kernel/kernel/mm/paging.c:98-105 | giving a frame back keeps the tables protected exactly when the frame is not a table |
| PagingModel.MappedIsReleasable | kernel/kernel/mm/paging.c:98-121 | pages just mapped to frames that are no tables meet what unmapping needs |
| PagingModel.BackStep | kernel/kernel/mm/paging.c:187-196 | one more page backed by a fresh frame keeps all earlier pages backed, by other frames |
| PagingModel.ReleaseStep | kernel/kernel/mm/paging.c:116-121 | one more page unmapped keeps the rest releasable |
| PagingModel.RoomAfterMap | kernel/kernel/mm/paging.c:63-65 | enough free frames for the missing tables stay enough after each mapping |
| Paging.PageTables.GetPage | kernel/kernel/mm/paging.c:49-79 | abort, NULL or the entry's address, each exactly when; a created table takes the lowest free frame and changes no translation |
| Paging.PageTables.MapPage | kernel/kernel/mm/paging.c:82-96 | succeeds exactly for an aligned, unmapped page when a table can be had; the new memory and bitmap are the specified ones, unchanged on abort |
| Paging.PageTables.UnmapPage | kernel/kernel/mm/paging.c:98-105 | clears the entry and gives its frame back; the invariant survives exactly when that is neither frame 0 nor a table |
| Paging.PageTables.DropEntry | kernel/kernel/mm/paging.c:101-104 | the part under the test for a table |
| Paging.PageTables.MapPages | kernel/kernel/mm/paging.c:107-114 | succeeds exactly when there is nothing to map, or the address starts a page, no page of the range is mapped and the counters leave a frame for every missing table; then all pages are mapped contiguously with exactly the flags asked for, new tables have them too, nothing else changed, no frame is released and none but tables is taken |
| Paging.PageTables.MapThenUnmap | kernel/kernel/mm/paging.c:107-121 | mapping pages onto frames in use goes through under the same exact condition; unmapping them then restores every translation below the window, frees exactly the mapped frames, and has taken none but tables |
| Paging.PageTables.UnmapPages | kernel/kernel/mm/paging.c:116-121 | all pages are unmapped, nothing else changed, and exactly the frames behind them are free again |
| Paging.PageTables.AllocPages | kernel/kernel/mm/paging.c:186-199 | the abort, NULL and the address each come under an exact condition on the alignment, the frames the counters leave, those the scan finds and those needed with the missing tables; the pages backed so far are present, writable and open to the user, and show pairwise distinct frames that were free before and are no tables |
| Paging.PageTables.AllocOne | kernel/kernel/mm/paging.c:188-195 | one round: the lowest free frame goes behind the page, a table from the next lowest; NULL and the abort each exactly when |
| Paging.PageTables.PlacePage | kernel/kernel/mm/paging.c:194-195 | writes the entry whatever it held before |
| PagingModel.EmptyTableAnswers | kernel/kernel/mm/paging.c:98-105 | a state in which an unmapped address has a table whose entry is empty: its physical address is not given as 0, and unmapping its page gives frame 0 back |
| Paging.PageTables.VirtToPhys | kernel/kernel/mm/paging.c:201-212 | the walk's answer for mapped addresses; wherever there is a table, the entry's frame bits with the offset, so that for unmapped addresses it is 0 exactly when there is no table, or no frame bits and a page-aligned address |
| PagingRuns.MappedPagesAreSeparate | kernel/kernel/mm/paging.c:82-105 | after any run that takes frames, maps them, unmaps them and gives them back in any order: tables are apart and marked taken, no two virtual addresses the client mapped share a physical one, the frames behind them were free before and are no tables, and every other page is translated as before |
| PagingRuns.NothingIsLost | kernel/kernel/mm/paging.c:82-105 | once the client holds and maps nothing, every translation below the window is as before the run and the frames still taken beyond those before are page tables |
| PagingRuns.RunKeeps | kernel/kernel/mm/paging.c:82-105 | the invariant behind both is kept by every run |
| PagingRuns.StepKeeps | kernel/kernel/mm/paging.c:82-105 | and by every single call |
| PagingRuns.Perform | kernel/kernel/mm/paging.c:82-105 | one call through the kernel's code is one step of such a run |
| Calendar.MktimeIsRightFrom1902 | kernel/arch/x86_64/uefi/time.c:119-146 | for all int fields and any month, `mktime` equals the month-by-month Gregorian count since 1970 exactly when the normalised year is 1902 or later |
| Calendar.Mktime | kernel/arch/x86_64/uefi/time.c:119-146 | the statements with their C conversions compute the specified 64-bit sum, the month normalised for any value |
| Calendar.YearToSecs | kernel/arch/x86_64/uefi/time.c:36-93 | both branches compute the specified seconds and leap flag for every 64-bit year |
| Calendar.YearIsRight | kernel/arch/x86_64/uefi/time.c:36-93 | from 1902 on the start of the year and the leap flag are the calendar's, so that the branches agree where they meet |
| Calendar.FastBranchFitsInt32 | kernel/arch/x86_64/uefi/time.c:39-51 | product, leap seconds and their sum fit a signed 32-bit int throughout the fast branch |
| Calendar.FastLeaps | kernel/arch/x86_64/uefi/time.c:41-49 | the shifted leap count and flag of the fast branch are the calendar's |
| Calendar.CycleLeapDays | kernel/arch/x86_64/uefi/time.c:56-90 | the 400-year-cycle formula counts the leap days |
| Calendar.CycleFlagIsLeap | kernel/arch/x86_64/uefi/time.c:62-88 | the flag of the slow branch is the Gregorian rule |
| Calendar.WrappedLeapsAreWrong | kernel/arch/x86_64/uefi/time.c:56-90 | before 1902 the unsigned wrap-around puts the leap days off by at least two |
| Calendar.MonthStartClosed | kernel/arch/x86_64/uefi/time.c:120-139 | the closed form used for comparison is the month-by-month count |
| Utf8.StringRoundTrip | kernel/arch/x86_64/uefi/stdlib.c:319-381 | decoding the encoding of any zero-free wide string gives it back in a buffer with room |
| Utf8.ConvertBack | kernel/arch/x86_64/uefi/stdlib.c:365-399 | what `wcstombs` wrote in full, `mbstowcs` reads back |
| Utf8.UnitRoundTrip | kernel/arch/x86_64/uefi/stdlib.c:319-363 | every 16-bit unit survives its one, two or three bytes |
| Utf8.FittingIsLongest | kernel/arch/x86_64/uefi/stdlib.c:389 | a short buffer gets a prefix of whole characters: all of them, or until four bytes or fewer are left |
| Utf8.CharsOfText | kernel/arch/x86_64/uefi/stdlib.c:298-317 | `mblen` counts the units of an encoded string |
| Utf8.EncodeByNumbers | kernel/arch/x86_64/uefi/stdlib.c:347-363 | the bytes of a unit u are u below 0x80, 192 + u / 64 and 128 + u % 64 below 0x800, and else 224 + u / 4096, 128 + u / 64 % 64 and 128 + u % 64 |
| Utf8.WellFormedExactly | kernel/arch/x86_64/uefi/stdlib.c:347-363 | they are well-formed UTF-8 exactly unless the unit is half of a surrogate pair |
| Utf8.UnitByNumbers | kernel/arch/x86_64/uefi/stdlib.c:319-345 | the unit read from one to four bytes is the number their low bits spell, cut to 16 bits |
| Utf8.LeadForms | kernel/arch/x86_64/uefi/stdlib.c:298-345 | for every lead byte and room, the length `mbtowc` takes or its error, and the step of `mblen` |
| Utf8.Wctomb | kernel/arch/x86_64/uefi/stdlib.c:347-363 | writes exactly the unit's bytes and nothing else |
| Utf8.Wcstombs | kernel/arch/x86_64/uefi/stdlib.c:383-399 | writes the longest fitting prefix and a NUL, nothing beyond; an empty string writes nothing; the NUL of any other lies within the given size exactly when that is not 0 |
| Utf8.Mbstowcs | kernel/arch/x86_64/uefi/stdlib.c:365-381 | writes the decoded units and a NUL, or returns -1 at a malformed character with the units before it written; nothing past them |
| Utf8.StaysWithinExactly | kernel/arch/x86_64/uefi/stdlib.c:365-381 | for the encoding of any nonempty text the call keeps to n units exactly unless the text has at least n, the unit before place n is below 0x800, and what comes at place n is the text's end or an ASCII character |
| Utf8.Mblen | kernel/arch/x86_64/uefi/stdlib.c:298-317 | the loop computes the specified count for any bytes |
| Utf8.TextStops | kernel/arch/x86_64/uefi/stdlib.c:389 | the text of a NUL-terminated wide string is the part before its first NUL |
| ArgvPacker.Pack | kernel/arch/x86_64/uefi/crt_x86_64.c:222-255 | the block holds the pointer table, its NULL and the strings, each pointer leading to its string, and exactly its last byte stays unwritten; when the pool refuses it there are no arguments |
| ArgvPacker.PackedSize | kernel/arch/x86_64/uefi/crt_x86_64.c:224-229 | the first pass computes one byte more than the second pass writes |
| ArgvPacker.PutString | kernel/arch/x86_64/uefi/crt_x86_64.c:239-254 | one argument is appended after the ones before it |
| ArgvPacker.PutUnit | kernel/arch/x86_64/uefi/crt_x86_64.c:241-252 | one unit is appended as its UTF-8 bytes |
| ArgvPacker.ArgumentComesBack | kernel/arch/x86_64/uefi/crt_x86_64.c:236-254 | following pointer `i` and decoding gives argument `i` back |
| ArgvPacker.StringsAreApart | kernel/arch/x86_64/uefi/crt_x86_64.c:239-254 | the strings follow each other without overlap inside the block |
| Base64.DecodeUndoesEncode | kernel/kernel/tools/base64.c:41-106 | decoding the encoding of every nonempty byte string gives it back |
| Base64.OnlyCanonicalTextComesBack | kernel/kernel/tools/base64.c:41-106 | encoding what a text decodes to gives the text back exactly when it is canonically padded base64 |
| Base64.EncodeUndoesDecode | kernel/kernel/tools/base64.c:65-106 | canonical texts survive decoding and encoding |
| Base64.TextIsTheSameNumber | kernel/kernel/tools/base64.c:49-58 | the text, read in base 64, is the number the zero-extended bytes are in base 256 |
| Base64.TablesAreTheAlphabet | kernel/kernel/tools/base64.c:6-35 | both tables are those of the 64-letter alphabet, written out |
| Base64.TablesAreInverse | kernel/kernel/tools/base64.c:6-35 | the two tables undo each other and neither holds the padding sign |
| Base64.LengthsAgree | kernel/kernel/tools/base64.c:43-44 | the encoded length is a multiple of four from which the padding count gives the input length |
| Base64.EncodedIsCanonical | kernel/kernel/tools/base64.c:59-61 | the encoder always writes canonically padded text |
| Base64.Encode | kernel/kernel/tools/base64.c:41-63 | the loop and the padding afterwards fill the buffer with exactly the specified text, or return NULL |
| Base64.Decode | kernel/kernel/tools/base64.c:65-106 | NULL exactly for a bad length or no memory, otherwise exactly the specified bytes |
| Tokenizer.CallsReturnTheRuns | kernel/arch/x86_64/uefi/string.c:253-289 | a call with the text and any number without it, whatever was saved before, return the maximal delimiter-free pieces in order, each once, then NULL for ever |
| Tokenizer.TokensReadAsTheRuns | kernel/arch/x86_64/uefi/string.c:272-285 | each returned pointer is the C string of its piece, also after all later calls |
| Tokenizer.OnlyEndsChange | kernel/arch/x86_64/uefi/string.c:281 | the only characters changed are delimiters that end a returned token, and they become NUL |
| Tokenizer.PiecesAreTheRuns | kernel/arch/x86_64/uefi/string.c:260-288 | the pieces the scanning finds are exactly the maximal delimiter-free ones, in increasing order |
| Tokenizer.CallsFollowPieces | kernel/arch/x86_64/uefi/string.c:283 | resuming at the saved place finds the next piece of the original text |
| Tokenizer.Resume.StrtokR | kernel/arch/x86_64/uefi/string.c:253-289 | one call, over any text and any delimiters, returns, writes and saves exactly as specified; NULL arguments change nothing |
| Tokenizer.Matches | kernel/arch/x86_64/uefi/string.c:262-266 | the scan of the delimiter string decides membership |
| Initrd.GenerateList | kernel/kernel/fs/initrd.c:67-83 | the walk collects the header address of every member of the archive, in order, and stops at the terminator, or at the kernel's abort when the table is full and a larger one refused |
| Initrd.NumberFiles | kernel/kernel/fs/initrd.c:85-100 | the count equals the number of members, hence of addresses collected |
| Initrd.GetSize | kernel/kernel/fs/initrd.c:57-65 | eleven characters are summed as octal digits in 32 bits |
| Initrd.OctalByNumbers | kernel/kernel/fs/initrd.c:57-65 | the number eleven digits spell, written out with its powers of eight |
| Initrd.SpanIsLeast | kernel/kernel/fs/initrd.c:78-81 | a member takes the least multiple of 512 bytes that holds its header and its data |
| Initrd.HeaderIsABlock | kernel/include/kernel/initrd.h:12-21 | behind a name of 100 bytes and three fields of eight, the size's digits are where they are read |
| Initrd.SizeIsRightExactly | kernel/kernel/fs/initrd.c:57-65 | the size read is the one written exactly below 4 GiB |
| Initrd.PackedIsAnArchive | kernel/kernel/fs/initrd.c:70-82 | header blocks, padded data and a zero block laid one after the other form an archive as the walk needs it |
| Initrd.LaidIsAMember | kernel/kernel/fs/initrd.c:71-81 | one header block with its padded data is a member |
| Initrd.Step | kernel/kernel/fs/initrd.c:76-81 | one step goes from a header to the next, with no 32-bit wrap inside memory |
| Initrd.NextHeader | kernel/kernel/fs/initrd.c:78-81 | the rounded address is header plus data blocks |
| Initrd.HeaderList.Add | kernel/kernel/fs/initrd.c:38-45 | a header is appended after the ones before it; a full table doubles, or the kernel aborts |
| Initrd.Read | kernel/kernel/fs/initrd.c:119-130 | copies the bytes behind the member's header and puts a NUL after them, nothing else changes |
| Initrd.ReadStaysInside | kernel/kernel/fs/initrd.c:126-127 | a read inside a member gives exactly that part of its data |
| Lines.FrameBuffer.DrawLine | kernel/arch/i386/graphics.c:94-115 | paints exactly the points of the line and touches no other word, whichever way the end points lie |
| Lines.FrameBuffer.DrawLineLow | kernel/arch/i386/graphics.c:28-46 | the integer loop paints the rounded ideal line, one point per column but the last, with an error term that fits an int |
| Lines.FrameBuffer.DrawLineHigh | kernel/arch/i386/graphics.c:48-67 | likewise by rows |
| Lines.FrameBuffer.DrawLineHorizontal | kernel/arch/i386/graphics.c:69-79 | paints both end points and all between |
| Lines.FrameBuffer.DrawLineVertical | kernel/arch/i386/graphics.c:81-92 | likewise upright |
| Lines.FrameBuffer.DrawPixel | kernel/arch/i386/graphics.c:17-24 | writes the one word at `y * pitch + 4 * x` |
| Lines.LineIs | kernel/arch/i386/graphics.c:28-115 | the points of a line in full: all between the ends of a horizontal or upright one; of a flat one, in each column from the left end up to the right one, the point nearest the ideal line, halves towards the left end; of a steep one by rows likewise |
| Lines.PointsAreNearTheLine | kernel/arch/i386/graphics.c:28-67 | every point is within half a pixel of the ideal line on the minor axis, for any sign of slope |
| Lines.MinorIsNearest | kernel/arch/i386/graphics.c:36-44 | the minor coordinate is the only one within half a pixel, halves rounded down |
| Lines.LineArrives | kernel/arch/i386/graphics.c:37-45 | the line starts at its start and the minor coordinate ends exactly at the end point's |
| Lines.BothEndsExactly | kernel/arch/i386/graphics.c:94-115 | a line holds both end points exactly when it is horizontal or upright |
| Lines.LineHasNoGap | kernel/arch/i386/graphics.c:38-45 | consecutive points touch |
| Lines.LineStaysInItsBox | kernel/arch/i386/graphics.c:94-115 | no point leaves the rectangle of the end points |
| Lines.EitherEndDrawsTheSame | kernel/arch/i386/graphics.c:102-114 | exchanging the end points of any line draws the same points |
| Lines.FrameBuffer.PaintShows | kernel/arch/i386/graphics.c:17-24 | after painting, a pixel on the screen has the colour exactly when it was painted, its old word otherwise |
| Lines.FrameBuffer.PixelsAreApart | kernel/arch/i386/graphics.c:17-19 | different pixels are different words |
| TrackedAlloc.SlotsAreTheLiveBuffers | kernel/arch/x86_64/uefi/stdlib.c:92-226 | after any run of calls with any arguments the nonzero even slots are exactly the live buffers, each once, with its size beside it |
| TrackedAlloc.RunKeeps | kernel/arch/x86_64/uefi/stdlib.c:92-226 | the table invariant survives every run |
| TrackedAlloc.RunLeavesOthers | kernel/arch/x86_64/uefi/stdlib.c:138-226 | a buffer no call names stays live and keeps its bytes through any run |
| TrackedAlloc.MallocKeeps | kernel/arch/x86_64/uefi/stdlib.c:92-128 | a call gives out one new buffer, exactly when the firmware grants it and a slot is free or a larger table is granted, and changes no buffer otherwise |
| TrackedAlloc.ReallocKeeps | kernel/arch/x86_64/uefi/stdlib.c:138-191 | a live buffer moves with its first bytes kept and the rest zero, or nothing changes; on a pointer not live nothing happens |
| TrackedAlloc.FreeKeeps | kernel/arch/x86_64/uefi/stdlib.c:193-226 | exactly the buffer named is taken back, and the table is released exactly with the last buffer |
| TrackedAlloc.AbandonsExactly | kernel/arch/x86_64/uefi/stdlib.c:97-115 | a call leaves a table behind exactly when it asks for a buffer with every slot of the table in use taken and is given a larger table; no call gives such a table back |
| TrackedAlloc.GrowsWhenLiveExactly | kernel/arch/x86_64/uefi/stdlib.c:92-226 | a run from the start leaves a table behind somewhere exactly when it asks for a buffer, and is granted a table, while a buffer is live |
| TrackedAlloc.TablesGoBackExactly | kernel/arch/x86_64/uefi/stdlib.c:92-226 | after any run the firmware has every table back exactly when none is in use and the run never asked, granted a table, for a buffer while one was live |
| TrackedAlloc.AllGoesBackExactly | kernel/arch/x86_64/uefi/stdlib.c:193-226 | once the last buffer is freed all memory is back exactly when the run never did that |
| TrackedAlloc.TwoBuffersLoseATable | kernel/arch/x86_64/uefi/stdlib.c:92-226 | two buffers of any size, live at once and freed in turn: a table stays with nobody |
| TrackedAlloc.Allocator.Malloc | kernel/arch/x86_64/uefi/stdlib.c:92-128 | the code over its table computes the specified state and pointer |
| TrackedAlloc.Allocator.Realloc | kernel/arch/x86_64/uefi/stdlib.c:138-191 | likewise, with NULL and size 0 handed on |
| TrackedAlloc.Allocator.Free | kernel/arch/x86_64/uefi/stdlib.c:193-226 | likewise |
| TrackedAlloc.Allocator.Moved | kernel/arch/x86_64/uefi/stdlib.c:167-172 | copy and clearing give the resized bytes |
| Decimal.ParseUndoesPrint | libc/stdlib/strtol.c:5-104 | parsing the printed text in base 10 gives the number back and uses the whole text, for every n with -2^31 < n < 2^31 |
| Decimal.IntToAscii | libc/string/int_to_ascii.c:4-26 | writes the decimal text and a NUL, the highest digit first, and nothing else |
| Decimal.DigitsStartRight | libc/string/int_to_ascii.c:4-26 | the text of a number other than 0 does not start with a zero |
| Decimal.Reverse | libc/string/reverse.c:4-12 | turns the string round in place, nothing from its NUL on changes |
| Decimal.Strtol | libc/stdlib/strtol.c:5-104 | for every text and base: the value cut to 32 bits, which is the number spelled exactly when that fits, the end of the digits used, and the overflow flag, told from the number alone below 2^32 in size |
| Decimal.SpelledByParts | libc/stdlib/strtol.c:5-104 | a text of white space, a sign, a mark of the base, digits and whatever cannot go on spells the digits' number with that sign, and is used up to them: octal behind 0 and hexadecimal behind 0x in base 0 |
| Decimal.CharactersAre | libc/stdlib/strtol.c:5-104 | the white space skipped, and the digits from 0 to z in order, capitals with them, written out |
| Decimal.BadBaseReadsNothing | libc/stdlib/strtol.c:44-60 | in a base below 0 or above 36 nothing is read |
| Decimal.ScanDigits | libc/stdlib/strtol.c:65-83 | the digit loop reads the maximal run of digits and cuts at every step |
| Decimal.ScanBase | libc/stdlib/strtol.c:44-60 | base 0, the hexadecimal prefix and bad bases |
| Decimal.FlagIsRightExactly | libc/stdlib/strtol.c:65-83 | for numbers below 2^32 in size, and in bases 1 and 2 for all, the overflow flag is right exactly unless the number is the most negative `long`, which fits and is flagged |
| Decimal.FalseAlarmExactly | libc/stdlib/strtol.c:78-81 | in every base a number that fits is flagged exactly when it is the most negative `long` |
| Decimal.EveryOverflowReportedExactly | libc/stdlib/strtol.c:78-81 | every overflow of every text is flagged exactly in bases 1 and 2 and where there is no base |
| Decimal.FlagAlwaysRightExactly | libc/stdlib/strtol.c:65-83 | the flag is right for every text exactly in base 1 and where there is no base |
| Decimal.OverflowSlipsThrough | libc/stdlib/strtol.c:78-81 | in every other base, a whole text that overflows and is not flagged; in decimal 4772185890, read as 477218594 |
| Decimal.MostNegativeText | libc/stdlib/strtol.c:78-81 | in every base from 2 on, a whole text that fits and is flagged |

## Left out

- HeapModel.FitsAddressSpace: in runs, requests so large that the limit check could wrap around are excluded by a bound that holds in every state; `HeapRemarks.LimitCheckInRuns` says exactly when it goes wrong and `HeapRemarks.AllocKeepsExactly` when that breaks the heap.
- HeapModel.ValidAlign: alignments that neither divide four nor are multiples of it are excluded from the runs of `HeapRuns`; `HeapRemarks.RemarkHoldsExactly` shows why.
- KernelHeap.Allocator.Krealloc: shrinking is excluded, because the code copies the old size into the smaller block.
- KernelHeap.Allocator.SetUpList: sets up the block list; the frames behind the heap are the business of `HeapSetup`, and the memory words of `KernelHeap` are not those of `PagingModel`.
- HeapSetup.BackHeap: enough frames for the missing tables are assumed.
- HeapRuns.FreeStep: freeing a pointer that is not held, or twice, is a client error and not modelled.
- Paging.PageTables.GetPage: that no frame is left for a new table (the allocation returns 0) is excluded; the code would install frame 0 as a table.
- Paging.PageTables.MapPage: mappings inside the recursive window and 4 MiB pages in the entries edited are excluded.
- PagingRuns.MappedPagesAreSeparate: the client maps frames it holds and unmaps pages it mapped; the exclusions of `Paging.PageTables.GetPage` and `Paging.PageTables.MapPage` are those of its runs.
- Paging.PageTables.AllocPages: the caller's `size` counts pages, as the code uses it; enough frames for the missing tables are assumed, too few for the pages are modelled.
- FrameBitmap.FrameAllocator.PmmInitRegion: regions that end above 4 GiB are excluded; their frames lie outside the bitmap (`FrameModel.RegionFitsExactly`).
- Quicksort.Qsort: elements are values; the byte and word copying of `swapcode` and the `int` widths of `d` and `r` are not modelled.
- KernelHeap.Allocator.ClientStore: memory is modelled as aligned words; stores of single bytes and unaligned words are not.
- Base64.Encode: lengths whose text exceeds a signed `int` index are excluded.
- Base64.Decode: an empty text is excluded, because the code reads the character before it; so are characters from 128 on, which index the table with a negative number.
- Utf8.Mbstowcs: texts whose last character is cut off before its NUL are excluded, because the code reads past their end; the buffer is as large as what is written, which `Utf8.StaysWithinExactly` compares with `n`.
- Calendar.YearToSecs: signed overflow, which `97 * cycles` meets before 1902, is taken as two's complement wrap-around.
- Utf8.Wcstombs: NULL arguments are excluded.
- Tokenizer.CallsReturnTheRuns: the delimiters stay the same over the run; the single call allows any.
- Initrd.Read: nothing in the code keeps a read inside its member; a longer one returns the bytes that follow.
- Initrd.GenerateList: the allocation of the first, one-entry table is assumed to succeed.
- Initrd.NumberFiles: memory that holds no well-formed archive, where either walk may not end, is excluded.
- Lines.FrameBuffer.DrawLine: end points off the screen are excluded; there is no clipping and the writes would go elsewhere. Pixels are 32 bits wide and offsets are not cut to 32 bits.
- TrackedAlloc.MallocKeeps: the firmware is assumed to give out only memory nobody holds and to take back what it gave; `errno` is not modelled.
- Decimal.IntToAscii: the most negative `int` is excluded, because negating it overflows; the base 16 path is not modelled.
- Decimal.Strtol: signed overflow is taken as two's complement wrap-around; `errno` and the log line are not modelled.
- Logging, `invlpg`, CR3, the TLB, page-fault reports and `init_paging` with its boot mapping.
- Parsing the multiboot tags in `init_pmm`; runs start from any bitmap with bit 0 set.
- The hash table, the chip8 emulator, path canonicalisation, the mount tree, hex printing, `memrmem`, `memrchr`, `div`: unfinished or not to their contract.
- Device drivers, PS/2, PCI, AHCI, RTC, the terminal, the GUI, UEFI file access and ELF loading: ports, devices and foreign calls.
- Lists, stacks, string copies, GDT packing, `calloc` and `zalloc`: easy members.

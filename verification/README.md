# AgnostOS resource managers: a Dafny model and its proofs

This project models the parts of the AgnostOS kernel that decide who owns what - memory, frames, the processor,
pixels, input bytes - and proves what those parts promise over every input and every run. `dafny verify dfyconfig.toml`
checks all of it.

| files | what they model |
|---|---|
| `Machine.dfy` | machine words, saturation, `Option` and `Result` |
| `Spans.dfy` | sorted lists of disjoint intervals: insertion with merging, removal, uniqueness of the merged form |
| `HeapList.dfy`, `Heap.dfy`, `HeapRuns.dfy` | the kernel heap: a first-fit, address-ordered free list whose headers are words of the heap itself, and what any run of it keeps |
| `MemoryMap.dfy` | the owned copy of the firmware memory map, its reservations and its per-kind totals |
| `FrameRuns.dfy`, `Frames.dfy`, `FrameOrder.dfy` | the frame allocator: its fixed table of free runs, what any run of its calls keeps, and the order this depends on |
| `Windows.dfy` | marking windows of memory as taken: what stays usable, and when the map stays fit for the frame allocator |
| `HandOff.dfy`, `Boot.dfy` | the hand-off at boot that carves the heap out of the map and the frames: as a function of its inputs, and as the objects it sets up |
| `Scheduler.dfy`, `TaskIds.dfy` | the cooperative scheduler: slots, generations, states, the rotating cursor; how long an identifier stays unique |
| `CallTree.dfy`, `CallLog.dfy`, `Profiler.dfy` | the profiler's call tree and the log of calls it stands for |
| `Decimal.dfy`, `TraceDump.dfy`, `ParentGraph.dfy`, `FlameGraph.dfy`, `TraceLines.dfy` | the printed trace, and the renderer that parses, validates and sums it; which lines it accepts |
| `Framebuffers.dfy`, `Lines.dfy` | pixels in a byte buffer, rectangles, scrolling, Bresenham lines |
| `Euclid.dfy`, `LineReach.dfy` | greatest common divisors, and with them which lines are drawn to their end |
| `MouseCursor.dfy`, `MousePackets.dfy`, `MouseMoves.dfy` | the cursor with the pixels saved under it, packet decoding, clamped moves |
| `InputLoop.dfy` | interrupt handlers interleaved with the shell loop that must not sleep on pending input |
| `Timer.dfy` | milliseconds and ticks |

The objects the source changes in place are classes here, with methods and loops proved against functions on values; the
theorems about runs are lemmas about those functions. Capacities are named constants and no proof enumerates them.

## How to read the main results

- **Heap.** `Sound` says that following the pointers in memory from the head visits exactly a coalesced, sorted list of
  chunks, that free chunks and live blocks are pairwise apart and inside the heap, and that free, live and lost bytes add
  up to its size. Every call keeps it. `Alloc` fails exactly when no chunk has room for the size asked for and a header,
  and otherwise hands out a block of that length at the lowest place; the bytes it loses are the alignment padding and a
  tail too short for a header. Over any run the loss is the sum of just those (`HeapRuns.RunIsSound`), the stretches
  callers asked for never share a byte (`HeapRuns.RequestsAreApart`), and a block keeps its contents while it lives,
  whatever else is requested, returned or written (`HeapRuns.BlockKeepsContents`). The comment in the source says such a
  tail goes to the allocation; the code does not give it back on release, and the model follows the code
  (`AllocThenDealloc` says exactly when a block's return restores the list).
- **Ownership at boot.** `InitializeHeap` returns and leaves behind exactly what `HandOff.Run` says, on any descriptors and
  windows, failures included; `HandOffSucceeds` says when it works. What stays usable is what the first descriptor that holds it
  calls conventional, outside every window, however descriptors and windows lie (`UsableInMapForFrames`);
  `KindInMapForFrames` gives the kind of every other address. From descriptors that do not overlap, in any order and at
  any alignment, the heap lies on a longest free run, in conventional memory, clear of the kernel image, the framebuffer,
  and the window around the page of the boot stack (`HeapIsSafe`, `StackWindowIs`). From page-aligned descriptors
  (section 7.2 of the UEFI Specification), in any order, the frame table is page-aligned exactly when no window ends off a
  page with a whole frame of usable memory right after it (`TableIsPagedIffNeat`; `UnneatMachine` fails it, `SliverMachine`
  passes it although its window ends off a page). The source does not check this, and a frame that lies off a page is lost
  once it is handed out, because `release` refuses it for good (`LostIffOffPage`). On a page-aligned table, in any order,
  every frame handed out later is conventional memory and lies in no window (`LaterFramesAreUsable`). Nothing
  protects the heap's frames: `release` takes them, and a heap page becomes free exactly then (`HeapPageIsFreeIff`,
  `HeapPageCanBeReleased`). A heap that starts at address zero is accepted by the allocator, which then reads its list as
  empty (`StartHeap`, `HeapAtZeroMachine`).
- **Frames.** The calls are exact on any table. What they promise together depends on its order, and neither the firmware
  map nor the table built from it is ever sorted: over every run no frame is handed out twice without a release in
  between exactly if the table starts in address order without overlaps (`NeverTwiceIffInOrder`). `release` looks for a
  page only next to its place in that order, so out of order it takes back a page that is free already
  (`CheckIsExactIffInOrder`, `TwoRegionsOutOfOrder`). In order, free plus outstanding pages make up the managed total over
  every run, and on a table that starts coalesced the free set alone determines the table.
- **Scheduler.** `BoundedBypass` bounds how long a ready task waits, whatever the tasks answer and whatever else is
  called; a sleeper whose deadline has passed waits no longer (`ExpiredSleeperBypass`). What a task answers decides what
  becomes of it: `ExitEnds`, `BlockWaitsForWake`, `YieldRunsAgain` and `SleepEndsInTime` follow each answer through every
  later run. The comment on `spawn` calls
  identifiers unique; `IdentifierIsLiveIff` says when an identifier is live after any run - its slot is occupied and a
  multiple of 2^32 - 1 spawns went into it since - and `IdentifiersAreNotUnique` gives the calls after which the
  identifier of a task long reaped names another task.
- **Profiler.** `TreeFromBoot` relates the arena to a log of calls with their stacks; `FramesCountCalls` follows it through the
  printed dump into the renderer: every frame drawn is as wide as the number of recorded calls made below its stack.
  `TraceLines` says of any text which lines the renderer refuses and which of several records with one number counts.
- **Lines.** The points are given in closed form, independent of the error term. `draw_line` gives up when an intermediate
  result leaves 64 bits. `LineReach.LineCompletesIff` tells from the two sides alone which lines reach their end: the
  offsets from the ideal line are the balanced multiples of the greatest common divisor of the sides, each of them occurs,
  and the line completes exactly when the error terms at the extreme ones fit. `ShortLineCompletes` and
  `LongerLineStops` draw from it the best bound on length alone, one third of the 64-bit range. `DrawLine` is stated byte
  by byte; `EndsShow` says what is seen at the two ends.
- **Input.** `NoLostWakeUp` covers every interleaving; the two replies a keyboard sends to commands, 0xfa and 0xfe, are the
  only codes thrown away uncounted. `BackInStep` says what brings the mouse parser back after lost bytes;
  `KeyboardByteIsRead` and `MouseByteIsRead` bound how many steps of
  the loop a waiting byte can take to be read; `IdleLoopHalts` and `InterruptEndsHalt` say when the loop sleeps and wakes,
  `DropsWaitForTheTick` and `DropsAreReported` when drops are reported.
- **Timer.** `UptimeReaches` is an equivalence for all inputs, saturation included.

## Model

| member | source | states |
|---|---|---|
| Heap.AgnostOSAllocator.Init | src/allocator/mod.rs:198-219 | A region shorter than a header or misaligned is refused and nothing changes; any other becomes one free chunk with no byte lost, unless it starts at address zero, where the list reads as empty and all of it is lost. |
| Heap.AlignUpIsLeast | src/allocator/mod.rs:247-257 | The masked address is a multiple of the alignment, at or above the start and less than one alignment beyond it. |
| Heap.AgnostOSAllocator.PlaceIn | src/allocator/mod.rs:246-272 | A chunk is accepted exactly when the aligned block fits into it; a sum that leaves 64 bits never hides a fit. |
| Heap.FitsIffPlaced | src/allocator/mod.rs:246-262 | Trying only the first aligned address of a chunk misses no placement in it. |
| Heap.FirstFitIsLowest | src/allocator/mod.rs:241-285 | The search fails exactly when no aligned placement exists in any chunk, and otherwise finds the lowest one of all. |
| Heap.FirstFitAnswers | src/allocator/mod.rs:234-285 | In the caller's terms - size and alignment as passed - the search fails exactly when no chunk has room anywhere, and otherwise finds the lowest place. |
| Heap.AgnostOSAllocator.FindFit | src/allocator/mod.rs:239-292 | Walking the links in memory stops at the first chunk that fits, with the cell that points to it. |
| Heap.AgnostOSAllocator.PutBackRemainder | src/allocator/mod.rs:264-279 | The words after the split: a header for a rest that can hold one and a link to it, or a link past the chunk. |
| HeapList.Unlinked | src/allocator/mod.rs:276-279 | Redirecting the link to a chunk's successor makes memory read as the list without that chunk. |
| HeapList.Linked | src/allocator/mod.rs:265-271 | Redirecting a link to a block with a written header makes memory read as the list with the block in place of a stretch. |
| Heap.CarvedIsSound | src/allocator/mod.rs:236-285 | Taking a block out of a chunk keeps the list coalesced and sorted, all blocks apart, live bytes untouched, and loses exactly padding and tail. |
| Heap.AgnostOSAllocator.Alloc | src/allocator/mod.rs:230-295 | Null exactly when no chunk has an aligned place for the size asked for and for a header, and then nothing changed; otherwise a new live block at the lowest such place, as long as asked but at least a header; the loss; and no word of a live block changed. |
| Heap.AgnostOSAllocator.FindLink | src/allocator/mod.rs:315-319 | The link behind which an address belongs in the sorted list. |
| Heap.AgnostOSAllocator.LinkIn | src/allocator/mod.rs:306-321 | The block's header is written and linked in at its address; the list in memory stays sorted and other blocks keep their words. |
| HeapList.Absorbed | src/allocator/mod.rs:323-332 | The two stores of a merge make memory read as the list with the two touching chunks joined. |
| Heap.AgnostOSAllocator.MergeWithNext | src/allocator/mod.rs:323-332 | A chunk swallows its successor exactly when they touch; other blocks keep their words. |
| Heap.AgnostOSAllocator.FindPrevious | src/allocator/mod.rs:334-340 | The second walk finds the chunk just before the returned one, or none. |
| Heap.MergesInsert | src/allocator/mod.rs:314-350 | Linking in, merging right, then merging left gives the fully coalesced list, in every combination of neighbours. |
| Heap.ReturnedIsSound | src/allocator/mod.rs:300-352 | Giving a block back keeps everything the heap promises and loses nothing. |
| Heap.AgnostOSAllocator.Dealloc | src/allocator/mod.rs:300-352 | The block leaves the live set and joins the coalesced list; no word of another live block changes and the loss stays. |
| Heap.AllocThenDealloc | src/allocator/mod.rs:230-352 | Returning a block at once restores the list exactly when nothing was wasted on it, and otherwise leaves it short by just the waste. |
| Heap.DrainedHeapIsWhole | src/allocator/mod.rs:300-352 | A heap that lost nothing is one chunk again once every block is back. |
| Heap.ReleaseOrderIsInvisible | src/allocator/mod.rs:300-352 | The order in which blocks are returned does not show in the list. |
| Heap.ClientStoreIsHarmless | src/allocator/mod.rs:225-352 | A word written inside a live block leaves the list as it was. |
| HeapRuns.ServedIsSound | src/allocator/mod.rs:236-285 | A served request costs less than its alignment and a header together, and leaves every live word alone. |
| HeapRuns.ServedBlock | src/allocator/mod.rs:234-285 | The block a request gets is exactly as long as asked, or a header long if that is more, at the lowest place any chunk offers. |
| HeapRuns.RestStaysFree | src/allocator/mod.rs:260-285 | Of the chunk a block is taken from, exactly what follows the block stays free, and that only if it is at least sixteen bytes; every other chunk stays free as it was. |
| HeapRuns.RequestsAreApart | src/allocator/mod.rs:230-352 | Over every run the stretches callers asked for - each at the start of its live block - lie in the heap, apart from each other and from every free chunk. |
| HeapRuns.RunIsSound | src/allocator/mod.rs:230-352 | Over every run of requests, returns and client writes the heap stays sound, and the bytes lost are exactly the padding and tails of the served requests. |
| HeapRuns.BlockKeepsContents | src/allocator/mod.rs:230-352 | As long as a block lives and its owner does not write to it, its words stay what they were, whatever else happens. |
| HeapList.WalkIsFinite | src/allocator/mod.rs:241-292 | Following the pointers from the head meets each chunk once and ends: there is no cycle. |
| Spans.CanonicalUnique | src/frame.rs:259-311 | Two sorted, fully merged tables covering the same addresses are the same table. |
| Spans.InsertCovers | src/frame.rs:282-308 | Merging a span in adds exactly its addresses to those covered. |
| Spans.InsertKeepsGaps | src/frame.rs:282-308 | A merged table stays merged when a span is added to it. |
| Spans.TakeThenInsert | src/frame.rs:209-308 | What is taken off the front of a span and put back restores the table. |
| Spans.InsertOrderIsInvisible | src/frame.rs:259-311 | Any two orders of adding the same spans give the same table. |
| MemoryMap.MemoryMapSnapshot.CopyFrom | src/memory.rs:150-188 | The error, if any, is that of `CopyError`; otherwise each range lies where its descriptor says with its type, and an address is usable exactly if the first descriptor that holds it is conventional. |
| MemoryMap.CopyErrorIs | src/memory.rs:150-188 | Refused as empty without descriptors, as invalid if one of the first 256 has no pages or leaves the address space, as too many if there are more; otherwise not at all. |
| MemoryMap.KindOfCopy | src/memory.rs:37-49 | For good descriptors, which descriptor types make an address usable, the kernel's, the firmware's, ACPI's, a device's, runtime, unusable or reserved, decided by the first descriptor that holds it; unknown exactly if none does. |
| MemoryMap.ReserveReclassifies | src/memory.rs:143-248 | For every address, the new kind where the reservation meets covered memory, the old answer elsewhere, the firmware type always kept, overlapping ranges included. |
| MemoryMap.ReserveKeepsShape | src/memory.rs:190-282 | A reservation leaves no empty or overflowing entry and keeps a disjoint map disjoint. |
| MemoryMap.ReserveKeepsUsableOrder | src/memory.rs:190-282 | Usable ranges stay in address order. |
| MemoryMap.ReserveCount | src/memory.rs:211-265 | One more entry for each range cut at either end of the reservation, and no other. |
| MemoryMap.ReserveAddsAtMostTwo | src/memory.rs:211-265 | However many ranges a reservation crosses, a disjoint map grows by at most two entries. |
| MemoryMap.ReserveMovesBytes | src/memory.rs:211-265 | Each kind loses its overlap with the reservation, the new kind gains all of it, the total stays. |
| MemoryMap.MemoryMapSnapshot.ReserveRange | src/memory.rs:190-282 | Which of the three errors occurs, if any; after success the table, in which the known addresses of the stretch have the new kind and all others their old one; after an error the very same table. |
| MemoryMap.ReserveErrorIs | src/memory.rs:190-282 | Refused exactly for an empty or overflowing stretch, one of which the map knows no address, or one whose two cuts leave more than 256 entries. |
| MemoryMap.MemoryMapSnapshot.AddExternalRange | src/memory.rs:284-305 | One device range is appended unless it is empty, overflows or finds no room. |
| MemoryMap.MemoryMapSnapshot.Summary | src/memory.rs:420-439 | Each field is the number of bytes of its kind, up to the largest word. |
| MemoryMap.CopySucceedsIff | src/memory.rs:150-188 | Copying the firmware map works exactly when it has entries, at most as many as fit, each non-empty and inside the address space. |
| MemoryMap.Initialize | src/memory.rs:323-342 | Succeeds, fails and with which error as the entries and the framebuffer decide; the map is then the copy, with the framebuffer reserved where it overlaps and appended where it does not. |
| MemoryMap.FramebufferIsDevice | src/memory.rs:331-339 | Every address of a framebuffer the map knew nothing of becomes a device's, and so does every one it knew; an address it did not know stays unknown if it knew another one of them; all others are as they were. |
| Frames.UsableRangesSound | src/frame.rs:169-207 | From usable ranges in address order a page-aligned table is sorted and without overlaps. |
| Frames.UsableRangesSpacious | src/frame.rs:169-207 | Whatever the order and alignment of the map, each run listed is non-empty and inside the address space. |
| Frames.ListedIff | src/frame.rs:169-207 | A run is listed exactly for each usable range of at least 4096 bytes, from its start on, with all its whole frames. |
| Frames.FrameAllocator.constructor | src/frame.rs:169-207 | From any list of ranges both tables hold one run per usable range with a whole frame, as far as they reach, and everything is free; if the runs are page-aligned, in order and do not overlap, every invariant holds. |
| Frames.TakingIsCounted | src/frame.rs:209-249 | Handing out frames keeps every run inside the address space and the count of free frames exact, whatever the order and alignment of the table. |
| Frames.FrameAllocator.RemoveRange | src/frame.rs:313-318 | Shifting closes the gap and keeps the order of the rest. |
| Frames.FrameAllocator.Allocate | src/frame.rs:209-222 | Fails exactly when no run is left; otherwise hands out the first page of the first run and nothing else changes; on a sound table that is the lowest free page. |
| Frames.FrameAllocator.FindLongest | src/frame.rs:228-231 | The last of the longest runs, or none exactly when no run is long enough. |
| Frames.FrameAllocator.AllocateContiguous | src/frame.rs:224-249 | Succeeds exactly when some run is long enough; takes the pages off the front of the last longest run, on a sound table as on one built from an unaligned or unsorted map. |
| Frames.FrameAllocator.LargestFreeFrames | src/frame.rs:251-257 | The length of the longest run, zero when there is none. |
| Frames.FrameAllocator.ShiftUp | src/frame.rs:297-301 | The tail moves up by one entry, the rest stays. |
| Frames.FrameAllocator.InsertRange | src/frame.rs:297-306 | Shifting the tail makes room for one run at its index. |
| Frames.FrameAllocator.Releasable | src/frame.rs:260-280 | The four checks on any table: alignment, a managed run around the page, and no collision with the runs next to its place. |
| Frames.AcceptsMeans | src/frame.rs:260-280 | On a table in order these checks pass exactly for an aligned, managed page that is not free. |
| Frames.JoinsMeansNeighbour | src/frame.rs:282-292 | A page touches a run exactly when the page before or after it is free. |
| Frames.ReleasedIsInsert | src/frame.rs:282-308 | The four cases of growing, joining and inserting all give the merged table. |
| Frames.FrameAllocator.JoinPage | src/frame.rs:282-307 | The page joins its neighbours or gets a run of its own, and fails exactly when it needs one and none is free. |
| Frames.ReleasedTotal | src/frame.rs:282-309 | Whatever the order, the table lists exactly one frame more afterwards. |
| Frames.ReleaseEffect | src/frame.rs:259-311 | A successful release on a sound state keeps every invariant and adds exactly one page to the free set. |
| Frames.FrameAllocator.Release | src/frame.rs:259-311 | On any table: which of the two errors occurs, and the new table; every error changes nothing. |
| Frames.ReleaseIsSound | src/frame.rs:259-311 | On a sound state it takes back exactly the managed pages that are not free, unless the table is full and no neighbour is free. |
| FrameOrder.NeverTwiceIffInOrder | src/frame.rs:169-311 | Over every run from a table of aligned, managed runs, however full, no frame is handed out twice without a release in between exactly if the runs are in address order and do not overlap. |
| FrameOrder.CheckIsExactIffInOrder | src/frame.rs:270-280 | Among disjoint runs the collision check tells a free page from another for every page exactly if the runs are in address order. |
| FrameOrder.TwoRegionsOutOfOrder | src/memory.rs:150-188 | Two one-page regions listed the wrong way round: releasing a free page succeeds, and a page is then handed out twice. |
| FrameOrder.StepRefines | src/frame.rs:209-311 | On a table in order every call does what it should to the free set, and the order stays. |
| FrameOrder.DrainRepeats | src/frame.rs:209-222 | A page listed twice is handed out twice if frames are taken one after the other. |
| FrameOrder.StepLists | src/frame.rs:209-311 | In any order, a call hands out only pages that are listed, lists nothing new but a page it takes back, and takes back only managed pages. |
| FrameOrder.UnlistedIsAccepted | src/frame.rs:260-280 | In any order, the checks of `release` pass for every managed page that no run lists. |
| FrameOrder.TakingKeepsOffset | src/frame.rs:209-249 | What is left of a run, frame by frame, lies as far off a page as the run did. |
| FrameOrder.LostIffOffPage | src/frame.rs:259-269 | A frame inside a managed run is refused by `release` in every state exactly if it lies off a page. |
| FrameRuns.StepCovers | src/frame.rs:209-311 | A call changes the free set by exactly the pages it hands out or takes back. |
| FrameRuns.RunKeepsOrder | src/frame.rs:209-311 | Over every run the table stays sorted and disjoint, and merged if it started so. |
| FrameRuns.NoDoubleHandOut | src/frame.rs:209-311 | From a table in address order, between two hand-outs of a page lies its release. |
| FrameRuns.FreeOrOutstanding | src/frame.rs:209-311 | At any point of a run a managed page is either free or outstanding, never both, and no other page is either. |
| FrameRuns.PagesAreConserved | src/frame.rs:209-330 | Free pages plus outstanding pages equal the managed total. |
| FrameRuns.TableIsDetermined | src/frame.rs:259-311 | Two runs that leave the same pages outstanding leave the same table. |
| FrameRuns.AllocateThenRelease | src/frame.rs:209-311 | Releasing the page just allocated restores a merged table exactly. |
| Windows.ReserveEdges | src/memory.rs:190-282 | For any n: a reservation removes the starts of usable ranges whose n bytes it meets and makes one new start exactly if its end lies inside a usable range that goes on for n bytes. |
| Windows.UsableAfterMark | src/memory.rs:190-305 | Marking a window, by reservation or as an external range, takes away exactly the usable addresses inside it. |
| Windows.PagedIffNeat | src/memory.rs:190-305 | Any number of marked windows leaves a page-aligned frame table exactly when none of them ends off a page with a whole usable frame right after it that no window meets. |
| HandOff.TableIsPagedIffNeat | src/allocator/mod.rs:67-82 | That equivalence for the framebuffer, the kernel image and the stack window of the hand-off, from page-aligned descriptors in any order, overlapping or not. |
| HandOff.FrameReadyIffNeat | src/allocator/mod.rs:67-82 | From descriptors whose usable ones are in address order, the same condition decides whether the frame table is page-aligned, in order and without overlaps. |
| HandOff.UsableInMapForFrames | src/allocator/mod.rs:67-78 | An address is usable after the reservations exactly when the first descriptor that holds it is conventional and it lies in no window, however the descriptors and windows lie. |
| HandOff.KindInMapForFrames | src/allocator/mod.rs:67-79 | The kind of every address after the reservations: the kernel's in image and stack, a device's in the framebuffer, and elsewhere what the firmware said. |
| HandOff.StackWindowIs | src/allocator/mod.rs:71-75 | For every stack address the window is 64 pages long, starts 32 pages below the page of the address or at zero, and holds all of that page. |
| Boot.TakeHeap | src/allocator/mod.rs:83-94 | None exactly when no usable range holds a frame; otherwise the last of the longest runs, whole, and the other runs stay. |
| HandOff.HeapIsLongest | src/allocator/mod.rs:83-90 | The heap is the whole frames of a usable range, and no usable range has more of them. |
| HandOff.HeapIsClear | src/allocator/mod.rs:67-96 | From descriptors that do not overlap, the heap lies in conventional memory, clear of framebuffer, kernel image and stack. |
| HandOff.HeapSparesStack | src/allocator/mod.rs:71-96 | No byte of the heap lies on the page where the stack was found. |
| HandOff.HeapIsKernels | src/allocator/mod.rs:96-97 | From a map without overlaps, exactly the heap's addresses become the kernel's in the end. |
| HandOff.HandOffSucceeds | src/allocator/mod.rs:53-106 | The hand-off works if there are descriptors, none bad and no two overlapping, the windows are not empty and do not overflow, image and stack meet the map, eight entries are to spare, and one whole usable frame is clear of the windows. |
| HandOff.SmallMachine | src/allocator/mod.rs:53-106 | A machine on which everything these theorems ask for is met and the hand-off works. |
| HandOff.UnneatMachine | src/allocator/mod.rs:67-82 | An image that ends off a page: the hand-off works, and the frame table holds a run off a page. |
| HandOff.SliverMachine | src/allocator/mod.rs:67-82 | The same image with the stack less than a page behind it: the map keeps a usable range off a page, and the frame table is sound. |
| HandOff.HeapAtZeroMachine | src/allocator/mod.rs:83-106 | Image and stack at the top of the only region: the heap starts at address zero. |
| Boot.HeapLeavesTable | src/frame.rs:224-249 | On an aligned table without overlaps, in any order, what is free after the hand-off are the managed pages outside the heap, and the heap's pages are all managed. |
| Boot.LaterFramesAreUsable | src/frame.rs:209-311 | From descriptors that do not overlap and a page-aligned table, in any order: every frame handed out later is conventional memory and lies in no window; it is usable in the map exactly if it is not the heap's, and a heap frame comes only after a release of it. |
| Boot.LaterFramesSpareStack | src/frame.rs:209-249 | The page where the stack was found is never handed out. |
| Boot.HandOutsAreSafeIff | src/allocator/mod.rs:82-94 | After the hand-off, if the frame table was page-aligned, no frame is ever handed out twice exactly if the runs left are in address order without overlaps. |
| Boot.HeapPageIsFreeIff | src/frame.rs:209-311 | In any run a page of the heap becomes free exactly if the run released it. |
| Boot.HeapPageCanBeReleased | src/frame.rs:259-280 | At any point a page the heap still holds passes the checks of `release`, and the run can go on with that release; only a full table can still refuse it. |
| Boot.HeapStaysWholeIff | src/frame.rs:209-311 | The heap keeps all its pages exactly as long as none of them is released. |
| Boot.KernelMemory.InitializeMap | src/memory.rs:323-342 | The owned map is set once: a second call is refused, a failing one leaves it unset. |
| Boot.KernelMemory.ReserveForKernel | src/memory.rs:346-351 | Fails without a map, and otherwise as the reservation does; a failure leaves the map as it was. |
| Boot.KernelMemory.InitializeFrames | src/frame.rs:332-341 | The frame allocator is built from the owned map, once, and only if there is a map. |
| Boot.KernelMemory.InitializeHeap | src/allocator/mod.rs:53-106 | The answer, and the map, frames and heap record left behind, at every point where it can stop; a second attempt is refused and changes nothing, also after a failure; from descriptors that do not overlap every byte of the region is conventional, in no window, and off the page of the stack. |
| Boot.AnswerIs | src/allocator/mod.rs:67-106 | Which error stands for which failure: no map, no usable frame in the marked map, or a reservation that cannot be made; on success the longest run. |
| Boot.HeapIsSafe | src/allocator/mod.rs:67-106 | The region handed over, byte by byte: conventional memory, in no window, not on the page of the stack. |
| Boot.NeatHeapIsAligned | src/allocator/mod.rs:198-206 | From page-aligned descriptors and windows that end neatly the heap starts on a page, so the allocator cannot refuse it. |
| Boot.InitializeGlobal | src/allocator/mod.rs:121-139 | Over a region of whole pages the allocator starts with one chunk, or with none if the region starts at zero, and refuses it exactly when it is misaligned. |
| Boot.StartHeap | src/boot.rs:50-58 | Hand-off and allocator together: which error, if any; the region is never too small, and the list is the one chunk of the whole region exactly if that does not start at address zero. |
| Scheduler.Scheduler.SpawnTask | src/task/mod.rs:168-186 | Fails exactly when every slot is taken; otherwise a free slot becomes ready under a live identifier. |
| Scheduler.Scheduler.WakeTask | src/task/mod.rs:199-208 | Only a blocked task becomes ready; stale identifiers are refused. |
| Scheduler.Scheduler.CancelTask | src/task/mod.rs:211-220 | Only a task that has not ended is cancelled; stale identifiers are refused. |
| Scheduler.Scheduler.ReapTask | src/task/mod.rs:223-231 | Frees the slot of an ended task only; its identifier is dead afterwards. |
| Scheduler.Scheduler.ValidTask | src/task/mod.rs:341-346 | An identifier is live exactly when its generation matches and its slot is occupied. |
| Scheduler.ApplyKeepsForm | src/task/mod.rs:168-315 | No call leaves a task running. |
| Scheduler.Scheduler.WakeAllExpired | src/task/mod.rs:251-259 | Exactly the sleepers whose deadline has come become ready. |
| Scheduler.FindReady | src/task/mod.rs:335-339 | The slot chosen is ready and no slot nearer to the cursor is; none is chosen only if none is ready. |
| Scheduler.Scheduler.FindNextReady | src/task/mod.rs:335-339 | The loop over offsets finds that slot. |
| Scheduler.Scheduler.RunOne | src/task/mod.rs:266-300 | Runs at most one task, never fails, leaves none running or current, and names the task it ran. |
| Scheduler.Scheduler.RunReady | src/task/mod.rs:306-315 | Stays within the budget and stops early only when nothing is ready. |
| Scheduler.Scheduler.Stats | src/task/mod.rs:319-333 | Each counter is the number of slots whose task is in that state. |
| Scheduler.StatsAddUp | src/task/mod.rs:319-333 | Every task is counted in exactly one state. |
| Scheduler.ReadyCountDecides | src/task/mod.rs:266-333 | Nothing is counted as running between calls, and the ready count is zero exactly when there is nothing to dispatch. |
| Scheduler.TasksAreConserved | src/task/mod.rs:168-315 | Tasks appear only by spawning and vanish only by reaping. |
| Scheduler.BoundedBypass | src/task/mod.rs:266-339 | A ready task at cyclic distance d is dispatched within d + 1 dispatching calls and no slot is dispatched twice before, whatever else is called. |
| Scheduler.ExpiredSleeperBypass | src/task/mod.rs:251-339 | The same bound for a sleeping task whose deadline every tick has reached. |
| Scheduler.HeldTaskIsNotDispatched | src/task/mod.rs:199-300 | A sleeper before its deadline, a blocked task before its wake, an ended task ever: none of them is dispatched. |
| Scheduler.SleepIsRespected | src/task/mod.rs:280-300 | A task that asks to sleep until a later tick is not dispatched before the scheduler has seen it. |
| Scheduler.ExitEnds | src/task/mod.rs:223-300 | After `Exit` the task is finished and never dispatched again, whoever wakes or cancels it, and a reap at any later point empties its slot. |
| Scheduler.CancelEnds | src/task/mod.rs:211-231 | The same after a cancel, which leaves a task that had ended as it was. |
| Scheduler.BlockWaitsForWake | src/task/mod.rs:199-300 | After `Block` the task does not run before it is woken; one wake at any later point makes it ready, and it then runs within its distance plus one dispatching calls. |
| Scheduler.YieldRunsAgain | src/task/mod.rs:266-339 | After `Yield`, or a deadline already reached, the task is ready and runs again within 64 dispatching calls. |
| Scheduler.SleepEndsInTime | src/task/mod.rs:251-300 | After `SleepUntil` with a deadline ahead the task sleeps through every earlier tick, and the first tick at or past the deadline makes it ready or runs it. |
| Scheduler.OtherSlotsStay | src/task/mod.rs:168-300 | A call leaves every slot alone but the one it names, fills or dispatches and the sleepers whose deadline it has reached. |
| Scheduler.NothingReady | src/task/mod.rs:266-315 | A call that dispatches nothing leaves no ready task behind. |
| TaskIds.IdentifiersRepeat | src/task/mod.rs:181 | Advancing a generation k times gives it back exactly when k is a multiple of 2^32 - 1. |
| TaskIds.GenerationsCountSpawns | src/task/mod.rs:168-346 | Over any run a slot's generation has advanced once for each spawn into the slot and for nothing else. |
| TaskIds.IdentifierIsLiveIff | src/task/mod.rs:167-346 | After any run an identifier is live exactly when its slot is occupied and a multiple of 2^32 - 1 spawns into it lies in between. |
| TaskIds.IdentifiersAreNotUnique | src/task/mod.rs:167-231 | From any state with a task in the first slot, cancelling, reaping and spawning 2^32 - 1 times over makes that task's identifier live again, for another task. |
| CallTree.EnterIsSound | src/profiling.rs:98-137 | Links keep leading to smaller indices, child lists stay complete, siblings keep distinct names. |
| CallTree.EnterMeans | src/profiling.rs:98-131 | One more call of the node for that callee if there is one, otherwise a new node with one call while fewer than 16384 are taken, otherwise a drop; every other node keeps name, parent and count. |
| CallTree.PathsDiffer | src/profiling.rs:98-137 | Distinct nodes stand for distinct call stacks. |
| CallTree.Perform | src/profiling.rs:73-193 | After any properly nested run the current node is restored, also under dropped frames, and old nodes keep their stacks. |
| CallLog.RunRefines | src/profiling.rs:98-193 | Over any properly nested run each node counts, up to saturation, the recorded calls made on exactly its stack. |
| CallLog.TreeFromBoot | src/profiling.rs:48-193 | The same from the empty tree on. |
| CallLog.NothingMissed | src/profiling.rs:98-172 | A run that drops nothing records every call outside suspended stretches, in order, with its stack. |
| CallLog.CallsAreConserved | src/profiling.rs:98-137 | Short of saturation the counts below any stack add up to the calls recorded below it. |
| Profiler.Profiler.FindChild | src/profiling.rs:106-109 | The sibling walk finds the child of that name exactly when there is one. |
| Profiler.Profiler.RecordChild | src/profiling.rs:110-132 | The known child is counted, or one is added, or the path is dropped when the arena is full. |
| Profiler.Profiler.EnterCall | src/profiling.rs:73-138 | The tree after an enter and the guard that undoes it. |
| Profiler.Profiler.SuspendRecording | src/profiling.rs:142-172 | Recording stops below the guard and nothing else changes. |
| Profiler.Profiler.DropGuard | src/profiling.rs:181-193 | An active guard restores the node it was taken at. |
| Profiler.Profiler.Dump | src/profiling.rs:206-236 | Recording stops for good and every node but the root is printed once, in order, between the marker lines. |
| Decimal.WriteDecimal | src/profiling.rs:250-262 | The digit loop prints the numeral and never overruns its twenty bytes. |
| Decimal.NumeralReadsBack | src/profiling.rs:250-262 | A printed number is read back as the same number. |
| Decimal.WordFitsBuffer | src/profiling.rs:251-252 | No 64-bit number has more than twenty digits. |
| TraceDump.RecordReadsBack | scripts/render-flamegraph.py:35-42 | A printed record parses back field by field, spaces in the name included. |
| TraceDump.DumpShape | src/profiling.rs:206-262 | The dump line by line: header, a record for each node but the root in order, the count only if something was dropped, footer. |
| TraceDump.DumpReadsBack | scripts/render-flamegraph.py:17-53 | The whole dump, after lines that are not its own, is read as the tree's nodes and dropped count. |
| TraceDump.DumpIsAccepted | scripts/render-flamegraph.py:17-74 | The renderer accepts the dump of every sound tree. |
| TraceDump.FramesCountCalls | scripts/render-flamegraph.py:17-91 | Whatever ran since boot, every frame is as wide as the recorded calls made below its stack, and the root as wide as all of them. |
| FlameGraph.Parse | scripts/render-flamegraph.py:17-53 | Fails exactly for missing markers or the first bad line, and otherwise gives the nodes in order of first mention. |
| TraceLines.RecordIsSpelled | scripts/render-flamegraph.py:33-40 | A record line parses exactly if it is three numbers and a name with single spaces between them, and then as the record it spells. |
| TraceLines.PlaceValue | scripts/render-flamegraph.py:36-38 | A number counts by place value: one more digit makes it ten times as much and the digit. |
| TraceLines.ReadableIff | scripts/render-flamegraph.py:17-53 | A trace is readable exactly if both markers are there and every record line and every count line is in order; the first that is not decides the error. |
| TraceLines.LastRecordCounts | scripts/render-flamegraph.py:41-48 | The nodes are the root and those with a record, and of several records with one number the last counts. |
| TraceLines.FirstRecordPlaces | scripts/render-flamegraph.py:41-48 | Nodes come in the order of their first records: a repeated number keeps its place. |
| TraceLines.LastCountCounts | scripts/render-flamegraph.py:49-53 | The dropped count is that of the last line that carries one, or zero. |
| FlameGraph.LinkChildren | scripts/render-flamegraph.py:55-59 | Fails exactly when a parent is missing, naming such a node; otherwise every node lists its children once each. |
| FlameGraph.ClimbToValidated | scripts/render-flamegraph.py:65-74 | A climb ends on validated ground or names a node that lies on a cycle. |
| FlameGraph.Validate | scripts/render-flamegraph.py:61-74 | Accepts exactly the parent graphs without a cycle, which are those in which every node reaches the root. |
| FlameGraph.Traverse | scripts/render-flamegraph.py:76-84 | The explicit stack lists every node once, parents before children. |
| FlameGraph.Weigh | scripts/render-flamegraph.py:86-89 | Each weight is the sum of calls over the node's subtree. |
| FlameGraph.Render | scripts/render-flamegraph.py:15-91 | Succeeds exactly on readable traces that form a tree; the root weighs the calls of all nodes; otherwise the error is that of the markers, of the first bad line, or names a node whose parent is missing or that lies on a cycle. |
| ParentGraph.CycleMeansNoRoot | scripts/render-flamegraph.py:61-74 | A node on a cycle never reaches the root. |
| ParentGraph.SubtreeSum | scripts/render-flamegraph.py:86-89 | A node's own calls plus its children's subtree sums make its subtree sum. |
| Framebuffers.Framebuffer.FromRawParts | src/graphics/framebuffer.rs:95-122 | A framebuffer is made exactly if the format is known, a row holds the width, and the buffer all rows; otherwise the error says which of these fails, in that order. |
| Framebuffers.OnScreenFits | src/graphics/framebuffer.rs:150-166 | Every pixel on a drawable screen is a whole pixel of the buffer. |
| Framebuffers.Framebuffer.ReadPixel | src/graphics/framebuffer.rs:169-202 | Black outside the screen; on it the colour whose three bytes stand at four times row times stride plus column, in the format's order. |
| Framebuffers.Framebuffer.WritePixel | src/graphics/framebuffer.rs:205-229 | Writes exactly when the whole pixel lies in the buffer, and then its first three bytes in the format's order and no other byte. |
| Framebuffers.WrittenByte | src/graphics/framebuffer.rs:205-229 | Byte by byte: the pixel's colour bytes are set, every other byte of the buffer keeps its value. |
| Framebuffers.ReadChannel | src/graphics/framebuffer.rs:169-229 | A colour read from a pixel, written back, reproduces its bytes in either format. |
| Framebuffers.Framebuffer.DrawRec | src/graphics/drawing.rs:23-39 | Byte by byte: if the rectangle lies on a drawable screen the colour bytes of its pixels change, and otherwise nothing. |
| Framebuffers.InRect | src/graphics/drawing.rs:34-38 | Which pixel indices belong to a rectangle. |
| Framebuffers.RectPainted | src/graphics/drawing.rs:34-38 | A byte of the painted image is the colour's exactly if it is a colour byte of a column and row of the rectangle; otherwise it is as before. |
| Framebuffers.Framebuffer.ScrollRows | src/graphics/framebuffer.rs:231-248 | Row by row: what was so many rows below, or black; bytes beyond the screen stay, and nothing changes on a screen that cannot be drawn on. |
| Framebuffers.ScrolledIsMovedUp | src/graphics/framebuffer.rs:231-248 | Each row holds what was so many rows below it, rows that had nothing below them are black, bytes past the last row stay. |
| Lines.LineEnds | src/graphics/drawing.rs:91-130 | The closed-form points start at one end and, after as many steps as the longer side, are at the other. |
| Lines.LineSteps | src/graphics/drawing.rs:113-130 | Each step goes to one of the eight neighbours and one along the longer side. |
| Lines.LinePointsDiffer | src/graphics/drawing.rs:98-131 | No point is drawn twice, so a complete line has one more point than its longer side has steps. |
| Lines.LineError | src/graphics/drawing.rs:98-131 | After i steps in x and j in y, twice the cross product of (i, j) with the sides is at most the longer side. |
| Lines.LineStaysInBox | src/graphics/drawing.rs:98-131 | No point leaves the box of the two ends. |
| Lines.RoundStep | src/graphics/drawing.rs:113-130 | The two tests on the doubled error take exactly the step to the next closed-form point. |
| LineReach.OffsetsAreBounded | src/graphics/drawing.rs:98-131 | The offset from the ideal line is never beyond the extreme balanced multiples of the sides' greatest common divisor. |
| LineReach.OffsetIsMet | src/graphics/drawing.rs:98-131 | Every balanced multiple of the greatest common divisor is the offset of some point. |
| Euclid.GcdCombines | src/graphics/drawing.rs:98-131 | The greatest common divisor of the sides is a combination of them, which is how a point with a given offset is found. |
| LineReach.LineCompletesIff | src/graphics/drawing.rs:107-130 | The line reaches its end exactly when a condition on its two sides holds: always for diagonals, otherwise when the error terms at the extreme offsets fit 64 bits. |
| LineReach.ShortLineCompletes | src/graphics/drawing.rs:107-130 | Every line whose longer side is at most a third of the 64-bit range, rounded up, reaches its end. |
| LineReach.LongerLineStops | src/graphics/drawing.rs:107-130 | No better bound on length alone: a line one step longer that stops short. |
| LineReach.StopsAtOnceIff | src/graphics/drawing.rs:107-130 | Exactly which lines stop at their first point, shallow and steep. |
| Lines.DrawLine | src/graphics/drawing.rs:78-131 | Byte by byte, for every geometry and all coordinates: a colour byte of an on-screen point up to the last one reached changes, and no other byte does; nothing changes if a coordinate leaves the signed range. |
| Lines.LinePainted | src/graphics/drawing.rs:98-131 | Which bytes of the image with the line drawn are the colour's, point by point. |
| LineReach.EndsShow | src/graphics/drawing.rs:78-131 | The first end, if on screen, shows the colour; the other end does exactly under the condition on the two sides, and otherwise keeps its old bytes. |
| Lines.InVisiblePixels | src/graphics/drawing.rs:99-105 | Which pixel indices a line touches. |
| MouseCursor.MouseCursor.SaveUnder | src/mouse/mod.rs:67-74 | Each saved cell holds the colour under it. |
| MouseCursor.MouseCursor.Draw | src/mouse/mod.rs:53-78 | Where all of it fits on a drawable screen the colour bytes of the 25 pixels turn white, over what was just saved, and no other byte changes; elsewhere nothing does. |
| MouseCursor.MouseCursor.Erase | src/mouse/mod.rs:80-92 | The saved colours are written back and the position is forgotten; the background comes back whole if nothing else was drawn since. |
| MouseCursor.EraseUndoesDraw | src/mouse/mod.rs:53-92 | Writing back what was saved under a drawn cursor restores every byte, for both formats and any stride. |
| MousePackets.DecodePacket | src/mouse/mod.rs:238-265 | A decoded motion lies in the nine-bit range, y inverted. |
| MousePackets.HeaderMeans | src/mouse/mod.rs:238-265 | What each bit of the header stands for: buttons, signs of the two nine-bit motions, and the two overflow bits that spoil the packet. |
| MousePackets.OverflowIsDropped | src/mouse/mod.rs:244-290 | A packet with an overflow bit gives no event and what follows is read as if it had not been there. |
| MousePackets.DecodeEncode | src/mouse/mod.rs:238-265 | Every motion and button state a mouse can send survives encoding and decoding. |
| MousePackets.EncodeDecode | src/mouse/mod.rs:238-265 | A packet with a proper header stands for exactly one event. |
| MousePackets.StreamIsDecoded | src/mouse/mod.rs:268-290 | Every packet sent arrives in order, whatever bytes that cannot start a packet come between packets. |
| MousePackets.FramingIsCounted | src/mouse/mod.rs:268-290 | While every byte has bit 3 set, the place in the packet is the number of bytes received modulo three. |
| MousePackets.LostByteShifts | src/mouse/mod.rs:272-277 | A byte lost among such bytes leaves the parser one place behind for as long as they come. |
| MousePackets.TwoPlainBytesRealign | src/mouse/mod.rs:272-290 | Two bytes in a row without bit 3 bring the parser to the start of a packet, wherever it was. |
| MousePackets.BackInStep | src/mouse/mod.rs:268-290 | After any bytes at all, a packet whose motion bytes both lack bit 3 is enough: every packet sent after it arrives, in order. |
| MousePackets.PacketState.Poll | src/mouse/mod.rs:268-290 | One byte more: skipped, stored, or completing a packet. |
| MouseMoves.Pointer.Move | src/shell/mod.rs:90-103 | The cursor is drawn over the same background at the position moved to if that is on the screen, and otherwise at the nearest one. |
| MouseMoves.Pointer.MoveAll | src/shell/mod.rs:87-103 | After any sequence of moves a final erase restores the original image, and the position is the clamped sum. |
| InputLoop.InputQueue.Push | src/mouse/mod.rs:153-168 | A byte is appended while fewer than 256 are held and counted as dropped otherwise, for either device. |
| InputLoop.InputQueue.Pop | src/keyboard/mod.rs:102-112 | The oldest byte is removed, or nothing happens. |
| InputLoop.InputQueue.TakeDropped | src/shell/mod.rs:115-130 | The counter is taken and zeroed without losing a drop. |
| InputLoop.NextIsSound | src/shell/mod.rs:87-195 | Every handler and every step of the loop keeps the queues accounted for and the checks before sleeping valid. |
| InputLoop.NoLostWakeUp | src/shell/mod.rs:176-194 | In every interleaving the processor is never halted while a byte waits. Of the bytes the handlers were called with, less the keyboard replies 0xfa and 0xfe, those read and waiting are some, in order, and the others are counted as dropped; if none was, they are all. |
| InputLoop.KeyboardByteIsRead | src/shell/mod.rs:87-195 | The byte at position i of the keyboard queue is read within 8 (i + 1) loop steps, whatever interrupts come. |
| InputLoop.MouseByteIsRead | src/shell/mod.rs:87-195 | The byte at position i of the mouse queue is read within 9 (i + 1) loop steps, whatever interrupts come. |
| InputLoop.IdleLoopHalts | src/shell/mod.rs:176-194 | With nothing to read the loop halts within ten of its steps, however often the timer interrupts it. |
| InputLoop.InterruptEndsHalt | src/shell/mod.rs:87-195 | A halted processor stays halted until an interrupt, and every interrupt, also one that queues nothing, sends the loop round again. |
| InputLoop.DropsWaitForTheTick | src/shell/mod.rs:115-130 | A drop counter is taken only on a pass that saw a tick count divisible by a hundred. |
| InputLoop.DropsAreReported | src/shell/mod.rs:115-130 | Every such pass takes both counters within two further steps of the loop, whatever interrupts come in between. |
| Timer.UptimeReaches | src/timer/mod.rs:19-89 | Uptime reaches a value exactly when the ticks for it have passed and its product with the frequency fits 64 bits. |
| Timer.WaitRaisesUptime | src/timer/mod.rs:55-73 | Waiting until a deadline from any start raises uptime by the time asked for, exactly while uptime can still rise that far. |
| Timer.DeadlineIsLeast | src/timer/mod.rs:71-89 | No earlier tick will do when counting from boot. |
| Timer.DeadlineIsNear | src/timer/mod.rs:71-89 | From any start the deadline lies no further ahead than any wait that suffices from boot, and one tick less would not span the time. |
| Timer.SleepMs | src/timer/mod.rs:55-67 | Polling stops at the first reading at or past the target, and at once when interrupts are off. |

## Left out

- Paging and address-space activation: the mapping logic lives in a crate that is not part of this model.
- Context switching and raw task stacks: their effect on scheduling policy is none; a task's body is an arbitrary answer to each dispatch.
- Console rendering, history, line editing, command parsing, colour blending, circles, `clear_background`, uptime formatting: members easier than the ones proved.
- Hardware programming (interrupt controller, timer chip, PS/2 handshake) and the firmware entry.
- The HTML and JavaScript the renderer writes, with its floating-point layout; line breaks inside names; number spellings Python accepts beyond plain digits (signs, underscores, blanks).
- Exiting boot services: the firmware descriptors are an input of `Boot.KernelMemory.InitializeHeap`, and so is the address at which the boot stack was found.
- A null framebuffer pointer: the buffer is an array here, and its bytes are ordinary memory rather than volatile device memory.
- Locks and one-time initialisation cells: each operation runs alone, interrupt handlers as single steps while interrupts are on.
- Wrap-around of the drop counters, of the dropped-path counter and of the tick counter: they are unbounded here.
- Heap.AgnostOSAllocator.Init: called once, on a fresh allocator; what using an allocator over a region at address zero would do to that memory is not modelled beyond its empty list.
- Heap.RoundDown: masking with `!(n - 1)` is rounding down to a multiple of `n`, which is the same for the powers of two that layouts allow.
- Heap.AgnostOSAllocator.Dealloc: the caller names a live block and the size it asked for, as the allocator trait demands of it; anything else is undefined in the source.
- HeapList.Store: memory is a map from addresses to words, so a header is two words and client data is written word by word.
- Boot.LaterFramesAreUsable: speaks of page-aligned frame tables, which `HandOff.TableIsPagedIffNeat` characterises; on others some frames are not pages, and what they share with windows or the heap is not stated.
- Frames.FrameAllocator.Release: for the very last page of the address space, which only a managed run that starts off a page can hold, the new table is given but no longer said to lie inside the address space.
- Heap.AgnostOSAllocator.Alloc: the alignment is a power of two, as the layout type guarantees.
- FrameRuns.TableIsDetermined: requires that the first table is coalesced, because the constructor neither sorts nor merges what the firmware lists.
- HandOff.HeapIsClear: requires descriptors that do not overlap, because the map answers for an address with the first range that holds it; `Boot.KernelMemory.InitializeHeap` itself requires nothing of them.
- Profiler.Profiler.Dump: requires a dropped-path counter within 64 bits, as the counter is unbounded here.
- MouseMoves.Pointer.Move: requires a screen of at least 20 by 20 pixels, on which the clamp is defined, and one small enough for 32-bit sums.
- Timer.SleepMs: the readings of the tick counter are given as a finite sequence, so waiting for a tick that never comes ends with the readings.

/** The hand-off of physical memory at boot: the objects it sets up, and what holds of every later run. */
module Boot {
  import opened Machine
  import opened MemoryMap
  import opened Frames
  import opened Windows
  import opened HandOff
  import S = Spans
  import R = FrameRuns
  import H = Heap
  import L = HeapList
  import O = FrameOrder

  // ------------------------------------------------------------ pages of the map

  predicate OnPage(a: int, page: int) { page * PAGE_SIZE <= a < (page + 1) * PAGE_SIZE }

  ghost predicate UsablePage(rs: Ranges, page: int) {
    forall a :: OnPage(a, page) ==> KindAt(rs, a) == Some(Usable)
  }

  lemma ManagedPageIsUsable(rs: Ranges, page: int)
    requires AllPaged(UsableRanges(rs)) && PairwiseApart(rs) && S.Covers(PageSpans(UsableRanges(rs)), page)
    ensures UsablePage(rs, page)
  {
    var fs := UsableRanges(rs);
    var i :| 0 <= i < |fs| && PageSpans(fs)[i].Has(page);
    var o := UsableRangeOrigin(rs, i);
    forall a | OnPage(a, page) ensures KindAt(rs, a) == Some(Usable) {
      assert rs[o].Contains(a);
      RangeAtIs(rs, o, a);
    }
  }

  /** At least one page long, and inside the address space. */
  predicate WholePages(heap: HeapRegion) {
    heap.size % PAGE_SIZE == 0 && 0 < heap.size && heap.start + heap.size <= U64_MAX
  }

  predicate HeapPage(heap: HeapRegion, page: int) {
    heap.start <= page * PAGE_SIZE < heap.start + heap.size
  }

  lemma HeapStartsOnPage(m: Ranges)
    requires AllProper(m) && AllPaged(UsableRanges(m)) && UsableRanges(m) != []
    ensures HeapOf(m).start % PAGE_SIZE == 0
  {
  }

  lemma PagesAreAligned(start: int)
    requires start % PAGE_SIZE == 0
    ensures start % L.HEADER_ALIGN == 0
  {
    assert start == L.HEADER_ALIGN * (512 * (start / PAGE_SIZE));
  }

  lemma HeapPageIs(f: FreeRange, p: int)
    requires Paged(f)
    ensures HeapPage(HeapRegion(f.start, f.frames * PAGE_SIZE), p) <==> PageSpan(f).Has(p)
  {
  }

  /** The runs of a disjoint map do not overlap. */
  lemma RunsAreDisjoint(m: Ranges)
    requires AllProper(m) && PairwiseApart(m) && AllPaged(UsableRanges(m))
    ensures O.Disjoint(UsableRanges(m))
  {
    forall i, j | 0 <= i < j < |UsableRanges(m)| ensures O.RunsApart(UsableRanges(m), i, j) {
      var o, q := UsableRangeOrigins(m, i, j);
      assert MemoryMap.Apart(m[o], m[q]);
    }
  }

  lemma LeftIsOutsideHeap(m: Ranges, p: int)
    requires O.Disjoint(UsableRanges(m)) && UsableRanges(m) != [] && S.Covers(PageSpans(FramesLeft(m)), p)
    ensures S.Covers(PageSpans(UsableRanges(m)), p) && !PageSpan(UsableRanges(m)[HeapIndex(m)]).Has(p)
  {
    var fs, t, k := UsableRanges(m), FramesLeft(m), HeapIndex(m);
    var i :| 0 <= i < |t| && PageSpans(t)[i].Has(p);
    var q := if i < k then i else i + 1;
    assert t[i] == fs[q] && PageSpans(fs)[q].Has(p);
    assert O.RunsApart(fs, if q < k then q else k, if q < k then k else q);
  }

  /** The heap takes whole pages, all of them managed; the other managed pages are the ones left. */
  lemma HeapLeavesTable(m: Ranges, p: int)
    requires AllProper(m) && AllPaged(UsableRanges(m)) && O.Disjoint(UsableRanges(m)) && UsableRanges(m) != []
    ensures HeapPage(HeapOf(m), p) ==> S.Covers(PageSpans(UsableRanges(m)), p)
    ensures S.Covers(PageSpans(FramesLeft(m)), p)
       <==> S.Covers(PageSpans(UsableRanges(m)), p) && !HeapPage(HeapOf(m), p)
  {
    var fs, t, k := UsableRanges(m), FramesLeft(m), HeapIndex(m);
    var s, u := PageSpans(fs), PageSpans(t);
    HeapPageIs(fs[k], p);
    assert HeapPage(HeapOf(m), p) <==> s[k].Has(p);
    if i :| 0 <= i < |s| && s[i].Has(p) && i != k { assert u[if i < k then i else i - 1].Has(p); }
    if S.Covers(u, p) { LeftIsOutsideHeap(m, p); }
  }

  lemma UsableAfterHeap(m: Ranges, heap: HeapRegion, m': Ranges, a: int)
    requires AllProper(m) && Given(m, (heap.start, heap.size)) == Some(m')
    ensures KindAt(m', a) == Some(Usable) <==> KindAt(m, a) == Some(Usable) && !Inside(a, (heap.start, heap.size))
  {
    GivenMarks(m, (heap.start, heap.size));
    UsableAfterMark(m, (heap.start, heap.size), Kernel, m', a);
  }

  predicate OnPages(heap: HeapRegion) { heap.start % PAGE_SIZE == 0 && heap.size % PAGE_SIZE == 0 }

  lemma HeapPageLosesUse(m: Ranges, heap: HeapRegion, m': Ranges, page: int)
    requires AllProper(m) && Given(m, (heap.start, heap.size)) == Some(m') && HeapPage(heap, page)
    ensures !UsablePage(m', page)
  {
    UsableAfterHeap(m, heap, m', page * PAGE_SIZE);
    assert OnPage(page * PAGE_SIZE, page);
  }

  lemma OutsideHeap(heap: HeapRegion, page: int, a: int)
    requires OnPages(heap) && !HeapPage(heap, page) && OnPage(a, page)
    ensures !Inside(a, (heap.start, heap.size))
  {
  }

  lemma OtherPageKeepsUse(m: Ranges, heap: HeapRegion, m': Ranges, page: int)
    requires AllProper(m) && Given(m, (heap.start, heap.size)) == Some(m')
    requires OnPages(heap) && !HeapPage(heap, page) && UsablePage(m, page)
    ensures UsablePage(m', page)
  {
    forall a | OnPage(a, page) ensures KindAt(m', a) == Some(Usable) {
      OutsideHeap(heap, page, a);
      UsableAfterHeap(m, heap, m', a);
    }
  }

  /** Marking the heap takes away the heap's pages and no other. */
  lemma UsablePageAfterHeap(m: Ranges, heap: HeapRegion, m': Ranges, page: int)
    requires AllProper(m) && AllPaged(UsableRanges(m)) && UsableRanges(m) != [] && UsablePage(m, page)
    requires heap == HeapOf(m) && Given(m, (heap.start, heap.size)) == Some(m')
    ensures UsablePage(m', page) <==> !HeapPage(heap, page)
  {
    HeapStartsOnPage(m);
    if HeapPage(heap, page) { HeapPageLosesUse(m, heap, m', page); } else { OtherPageKeepsUse(m, heap, m', page); }
  }

  // -------------------------------------------------------------- after the hand-off

  /** Calls of the frame allocator from the page-aligned table the hand-off leaves behind, in whatever order its runs are. */
  ghost predicate RunAfter(m: Ranges, states: seq<seq<FreeRange>>, events: seq<R.Event>) {
    && AllProper(m) && AllPaged(UsableRanges(m)) && UsableRanges(m) != []
    && O.TableRun(UsableRanges(m), states, events) && states[0] == FramesLeft(m)
  }

  /** A listed page was listed before or has just been released; only managed pages are. */
  lemma StepAfter(m: Ranges, states: seq<seq<FreeRange>>, events: seq<R.Event>, i: nat, p: int)
    requires RunAfter(m, states, events) && i < |events| && AllPaged(states[i])
    ensures AllPaged(states[i + 1])
    ensures R.HandsOut(events[i], p) ==> S.Covers(PageSpans(states[i]), p)
    ensures S.Covers(PageSpans(states[i + 1]), p) ==> S.Covers(PageSpans(states[i]), p) || events[i] == R.Released(p)
    ensures events[i] == R.Released(p) ==>
      S.Covers(PageSpans(UsableRanges(m)), p) && S.Covers(PageSpans(states[i + 1]), p)
  {
    assert O.TableStepAt(UsableRanges(m), states, events, i);
    O.StepLists(UsableRanges(m), states[i], events[i], states[i + 1], p);
  }

  lemma {:induction false} TablesArePaged(m: Ranges, states: seq<seq<FreeRange>>, events: seq<R.Event>, i: nat)
    requires RunAfter(m, states, events) && i <= |events|
    ensures AllPaged(states[i])
  {
    if i > 0 {
      TablesArePaged(m, states, events, i - 1);
      StepAfter(m, states, events, i - 1, 0);
    }
  }

  lemma {:induction false} FreePagesAreManaged(m: Ranges, states: seq<seq<FreeRange>>, events: seq<R.Event>, i: nat, p: int)
    requires RunAfter(m, states, events) && i <= |events| && S.Covers(PageSpans(states[i]), p)
    ensures S.Covers(PageSpans(UsableRanges(m)), p)
  {
    if i == 0 {
      FramesLeftAreManaged(m);
    } else {
      TablesArePaged(m, states, events, i - 1);
      StepAfter(m, states, events, i - 1, p);
      if events[i - 1] != R.Released(p) { FreePagesAreManaged(m, states, events, i - 1, p); }
    }
  }

  lemma {:induction false} HeapPageStaysTaken(m: Ranges, states: seq<seq<FreeRange>>, events: seq<R.Event>, i: nat, p: int)
    requires RunAfter(m, states, events) && O.Disjoint(UsableRanges(m)) && i <= |events|
    requires HeapPage(HeapOf(m), p) && forall k :: 0 <= k < i ==> events[k] != R.Released(p)
    ensures !S.Covers(PageSpans(states[i]), p)
  {
    HeapLeavesTable(m, p);
    if i > 0 {
      HeapPageStaysTaken(m, states, events, i - 1, p);
      TablesArePaged(m, states, events, i - 1);
      StepAfter(m, states, events, i - 1, p);
    }
  }

  ghost predicate EverFree(states: seq<seq<FreeRange>>, n: nat, p: int)
    requires n < |states|
  {
    exists i :: 0 <= i <= n && S.Covers(PageSpans(states[i]), p)
  }

  predicate EverReleased(events: seq<R.Event>, n: nat, p: int)
    requires n <= |events|
  {
    exists k :: 0 <= k < n && events[k] == R.Released(p)
  }

  /** A page of the heap is free at some point of a run exactly if the run released it before. */
  lemma HeapPageIsFreeIff(m: Ranges, states: seq<seq<FreeRange>>, events: seq<R.Event>, n: nat, p: int)
    requires RunAfter(m, states, events) && O.Disjoint(UsableRanges(m)) && n <= |events| && HeapPage(HeapOf(m), p)
    ensures EverFree(states, n, p) <==> EverReleased(events, n, p)
  {
    if EverReleased(events, n, p) {
      var k :| 0 <= k < n && events[k] == R.Released(p);
      TablesArePaged(m, states, events, k);
      StepAfter(m, states, events, k, p);
    } else {
      forall i | 0 <= i <= n ensures !S.Covers(PageSpans(states[i]), p) { HeapPageStaysTaken(m, states, events, i, p); }
    }
  }

  /** The run with one more release. */
  lemma RunWithRelease(m: Ranges, states: seq<seq<FreeRange>>, events: seq<R.Event>, p: int, t: seq<FreeRange>)
    requires RunAfter(m, states, events) && TableStep(UsableRanges(m), states[|events|], R.Released(p), t)
    ensures RunAfter(m, states + [t], events + [R.Released(p)])
  {
    var states', events' := states + [t], events + [R.Released(p)];
    forall i | 0 <= i < |events'| ensures O.TableStepAt(UsableRanges(m), states', events', i) {
      if i < |events| { assert O.TableStepAt(UsableRanges(m), states, events, i); }
    }
  }

  /** The checks of `release` do not stop it: as long as the heap holds a page, they pass for that page, and a call that
      finds room for it is a step of the run. */
  lemma HeapPageCanBeReleased(m: Ranges, states: seq<seq<FreeRange>>, events: seq<R.Event>, p: int)
    requires RunAfter(m, states, events) && O.Disjoint(UsableRanges(m))
    requires HeapPage(HeapOf(m), p) && !EverReleased(events, |events|, p)
    ensures 0 <= p * PAGE_SIZE <= U64_MAX
    ensures var rs, address := states[|events|], p * PAGE_SIZE;
      && Accepts(UsableRanges(m), rs, address) && AllSpacious(rs)
      && (HasRoom(rs, address) ==>
            RunAfter(m, states + [ReleasedTable(rs, Place(rs, address), address)], events + [R.Released(p)]))
  {
    var rs := states[|events|];
    HeapLeavesTable(m, p);
    HeapPageStaysTaken(m, states, events, |events|, p);
    TablesArePaged(m, states, events, |events|);
    O.UnlistedIsAccepted(UsableRanges(m), rs, p);
    var address: U64 := p * PAGE_SIZE;
    if HasRoom(rs, address) { RunWithRelease(m, states, events, p, ReleasedTable(rs, Place(rs, address), address)); }
  }

  /** The heap keeps all its pages exactly as long as none of them is released. */
  lemma HeapStaysWholeIff(m: Ranges, states: seq<seq<FreeRange>>, events: seq<R.Event>)
    requires RunAfter(m, states, events) && O.Disjoint(UsableRanges(m))
    ensures (forall p :: HeapPage(HeapOf(m), p) ==> !EverFree(states, |events|, p))
       <==> (forall p :: HeapPage(HeapOf(m), p) ==> !EverReleased(events, |events|, p))
  {
    forall p | HeapPage(HeapOf(m), p) ensures EverFree(states, |events|, p) <==> EverReleased(events, |events|, p) {
      HeapPageIsFreeIff(m, states, events, |events|, p);
    }
  }

  lemma HandedOutPage(m: Ranges, states: seq<seq<FreeRange>>, events: seq<R.Event>, i: nat, p: int)
    requires PairwiseApart(m) && RunAfter(m, states, events) && i < |events| && R.HandsOut(events[i], p)
    ensures UsablePage(m, p)
    ensures HeapPage(HeapOf(m), p) ==> EverReleased(events, i, p)
  {
    RunsAreDisjoint(m);
    TablesArePaged(m, states, events, i);
    StepAfter(m, states, events, i, p);
    FreePagesAreManaged(m, states, events, i, p);
    ManagedPageIsUsable(m, p);
    if HeapPage(HeapOf(m), p) { HeapPageIsFreeIff(m, states, events, i, p); }
  }

  lemma UsablePageOfFirmware(entries: seq<Descriptor>, fb: Option<Window>, image: Window, stack: Window, p: int)
    requires MapForFrames(entries, fb, image, stack).Some?
    requires UsablePage(MapForFrames(entries, fb, image, stack).value, p)
    ensures forall a :: OnPage(a, p) ==> TypedAt(entries, a, {CONVENTIONAL}) && Outside(a, AllWindows(fb, image, stack))
  {
    MapForFramesKeeps(entries, fb, image, stack);
    forall a | OnPage(a, p)
      ensures TypedAt(entries, a, {CONVENTIONAL}) && Outside(a, AllWindows(fb, image, stack))
    {
      UsableInMapForFrames(entries, fb, image, stack, a);
    }
  }

  lemma FramesLeftAreManaged(m: Ranges)
    requires UsableRanges(m) != []
    ensures O.AllManaged(UsableRanges(m), FramesLeft(m))
  {
    var fs, t, k := UsableRanges(m), FramesLeft(m), HeapIndex(m);
    forall p | S.Covers(PageSpans(t), p) ensures S.Covers(PageSpans(fs), p) {
      var i :| 0 <= i < |t| && PageSpans(t)[i].Has(p);
      assert PageSpans(fs)[if i < k then i else i + 1].Has(p);
    }
  }

  /** Whatever the firmware map's order: after the hand-off no frame is ever handed out twice exactly if the runs left are
      in address order. */
  lemma {:induction false} HandOutsAreSafeIff(m: Ranges)
    requires AllPaged(UsableRanges(m)) && |m| <= MAX_MEMORY_RANGES && UsableRanges(m) != []
    ensures O.NeverTwice(UsableRanges(m), FramesLeft(m)) <==> S.Ascending(PageSpans(FramesLeft(m)))
  {
    FramesLeftAreManaged(m);
    O.NeverTwiceIffInOrder(UsableRanges(m), FramesLeft(m));
  }

  /** What the frame table is built from, and what the map becomes, as far as pages are concerned. */
  lemma DoneIsSound(entries: seq<Descriptor>, fb: Option<Window>, image: Window, stack: Window,
                    m: Ranges, heap: HeapRegion, m': Ranges)
    requires DisjointFirmware(entries) && Run(entries, fb, image, stack) == Done(m, heap, m')
    ensures PairwiseApart(m) && AllProper(m) && MapForFrames(entries, fb, image, stack) == Some(m)
    ensures UsableRanges(m) != [] && heap == HeapOf(m)
    ensures Given(m, (heap.start, heap.size)) == Some(m')
  {
    DoneMeans(entries, fb, image, stack, m, heap, m');
    MapForFramesKeeps(entries, fb, image, stack);
  }

  /** Every page handed out after the hand-off was usable to the firmware and lies outside every window. It is usable in
      the map still unless it is one of the heap's, and then it was released before. */
  lemma LaterFramesAreUsable(entries: seq<Descriptor>, fb: Option<Window>, image: Window, stack: Window,
                             m: Ranges, heap: HeapRegion, m': Ranges,
                             states: seq<seq<FreeRange>>, events: seq<R.Event>, i: nat, p: int)
    requires DisjointFirmware(entries) && Run(entries, fb, image, stack) == Done(m, heap, m')
    requires RunAfter(m, states, events) && i < |events| && R.HandsOut(events[i], p)
    ensures forall a :: OnPage(a, p) ==> TypedAt(entries, a, {CONVENTIONAL}) && Outside(a, AllWindows(fb, image, stack))
    ensures UsablePage(m', p) <==> !HeapPage(heap, p)
    ensures HeapPage(heap, p) ==> EverReleased(events, i, p)
  {
    DoneIsSound(entries, fb, image, stack, m, heap, m');
    HandedOutPage(m, states, events, i, p);
    UsablePageAfterHeap(m, heap, m', p);
    UsablePageOfFirmware(entries, fb, image, stack, p);
  }

  /** Nor is the page where the stack was found ever handed out. */
  lemma LaterFramesSpareStack(entries: seq<Descriptor>, fb: Option<Window>, image: Window, stackAddress: U64,
                              m: Ranges, heap: HeapRegion, m': Ranges,
                              states: seq<seq<FreeRange>>, events: seq<R.Event>, i: nat, p: int)
    requires DisjointFirmware(entries) && Run(entries, fb, image, StackWindow(stackAddress)) == Done(m, heap, m')
    requires RunAfter(m, states, events) && i < |events| && R.HandsOut(events[i], p)
    ensures !OnPage(stackAddress, p)
  {
    var ws := AllWindows(fb, image, StackWindow(stackAddress));
    LaterFramesAreUsable(entries, fb, image, StackWindow(stackAddress), m, heap, m', states, events, i, p);
    StackWindowIs(stackAddress, stackAddress / PAGE_SIZE);
    assert ws[|ws| - 1] == StackWindow(stackAddress);
  }

  // ------------------------------------------------------------------ the objects

  /** What `initialize_heap` answers. */
  function Answer(r: HandOff.Result): Machine.Result<HeapRegion, H.HeapError> {
    match r
    case NoMap => Err(H.MemoryMapUnavailable)
    case WindowRefused(_) => Err(H.MemoryReservationFailed)
    case NothingUsable(_) => Err(H.NoConventionalMemory)
    case HeapRefused(_, _) => Err(H.MemoryReservationFailed)
    case Done(_, heap, _) => Ok(heap)
  }

  lemma LongestAnswer(m: Ranges)
    requires AllProper(m)
    ensures var answer := Answer(TakeLongest(m));
      && (answer == Err(H.NoConventionalMemory) <==> UsableRanges(m) == [])
      && (answer.Ok? ==> UsableRanges(m) != [] && answer.value == HeapOf(m))
      && (answer.Err? ==> answer.error == H.NoConventionalMemory || answer.error == H.MemoryReservationFailed)
  {
    var r := TakeLongest(m);
    match r
    case NothingUsable(_) =>
    case HeapRefused(_, _) =>
    case Done(_, _, _) =>
  }

  /** The errors tell the stages apart: no map, no usable frame in it, or a reservation that cannot be made. */
  lemma AnswerIs(entries: seq<Descriptor>, fb: Option<Window>, image: Window, stack: Window)
    ensures var answer, map' := Answer(Run(entries, fb, image, stack)), MapForFrames(entries, fb, image, stack);
      && (answer == Err(H.MemoryMapUnavailable) <==> Initialized(entries, fb).Err?)
      && (answer == Err(H.NoConventionalMemory) <==> map'.Some? && UsableRanges(map'.value) == [])
      && (answer.Ok? ==> map'.Some? && AllProper(map'.value) && UsableRanges(map'.value) != []
                         && answer.value == HeapOf(map'.value))
      && (answer.Err? ==> answer.error == H.MemoryMapUnavailable || answer.error == H.NoConventionalMemory
                          || answer.error == H.MemoryReservationFailed)
  {
    match Initialized(entries, fb)
    case Err(_) =>
    case Ok(m) =>
      InitializedIsProper(entries, fb);
      match Given(m, image)
      case None =>
      case Some(m1) =>
        GivenIsProper(m, image);
        match Given(m1, stack)
        case None =>
        case Some(m2) =>
          GivenIsProper(m1, stack);
          assert MapForFrames(entries, fb, image, stack) == Some(m2);
          assert Run(entries, fb, image, stack) == TakeLongest(m2);
          LongestAnswer(m2);
  }

  /** Every byte of the region is conventional memory, clear of framebuffer, image and stack window, and off the page of
      the stack. */
  ghost predicate SafeHeap(entries: seq<Descriptor>, fb: Option<Window>, image: Window, stackAddress: U64,
                           heap: HeapRegion) {
    forall a :: heap.start <= a < heap.start + heap.size ==>
      && TypedAt(entries, a, {CONVENTIONAL}) && Outside(a, AllWindows(fb, image, StackWindow(stackAddress)))
      && a / PAGE_SIZE != stackAddress / PAGE_SIZE
  }

  /** What the region handed over is made of, from descriptors that do not overlap. */
  lemma HeapIsSafe(entries: seq<Descriptor>, fb: Option<Window>, image: Window, stackAddress: U64, heap: HeapRegion)
    requires DisjointFirmware(entries) && Answer(Run(entries, fb, image, StackWindow(stackAddress))) == Ok(heap)
    ensures SafeHeap(entries, fb, image, stackAddress, heap)
  {
    AnswerIs(entries, fb, image, StackWindow(stackAddress));
    forall a | heap.start <= a < heap.start + heap.size
      ensures TypedAt(entries, a, {CONVENTIONAL}) && Outside(a, AllWindows(fb, image, StackWindow(stackAddress)))
      ensures a / PAGE_SIZE != stackAddress / PAGE_SIZE
    {
      HeapIsClear(entries, fb, image, StackWindow(stackAddress), a);
      HeapSparesStack(entries, fb, image, stackAddress, a);
    }
  }

  /** The frame allocator manages the usable ranges of `m`, and `free` are left; it can hand out frames, and it is sound
      if `m` permits. */
  ghost predicate Manages(allocator: FrameAllocator, m: Ranges, free: seq<FreeRange>)
    reads allocator, allocator.ranges, allocator.managed
  {
    && allocator.Fixed() && allocator.State().managed == UsableRanges(m) && allocator.State().table == free
    && Counted(allocator.State()) && (FrameReady(m) ==> allocator.Valid())
  }

  /** Taking all of the longest run leaves the others. */
  lemma WholeRunTaken(m: Ranges)
    requires AllProper(m) && UsableRanges(m) != []
    ensures AllSpacious(UsableRanges(m))
    ensures var fs, k := UsableRanges(m), HeapIndex(m); TakeFrames(fs, k, fs[k].frames) == FramesLeft(m)
  {
    UsableRangesSpacious(m);
  }

  /** Takes the whole of the longest run, if there is any. */
  method TakeHeap(allocator: FrameAllocator, ghost m: Ranges) returns (heap: Option<HeapRegion>)
    requires AllProper(m) && Manages(allocator, m, UsableRanges(m))
    modifies allocator`rangeCount, allocator`freeFrames, allocator.ranges
    ensures heap == if UsableRanges(m) == [] then None else Some(HeapOf(m))
    ensures Manages(allocator, m, if UsableRanges(m) == [] then [] else FramesLeft(m))
  {
    if UsableRanges(m) != [] { WholeRunTaken(m); }
    var heapFrames := allocator.LargestFreeFrames();
    if heapFrames == 0 {
      return None;
    }
    var range := allocator.AllocateContiguous(heapFrames);
    return Some(HeapRegion(range.value.start, range.value.length));
  }

  class KernelMemory {
    var heapStart: U64
    var heapSize: U64
    var memoryMap: MemoryMapSnapshot?
    var frames: FrameAllocator?

    ghost function Arrays(): set<object>
      reads this, memoryMap, frames
    {
      (if memoryMap == null then {} else {memoryMap.ranges}) + if frames == null then {} else {frames.ranges, frames.managed}
    }

    ghost predicate Valid()
      reads this, memoryMap, frames, Arrays()
    {
      && (memoryMap != null ==> memoryMap.Valid())
      && (frames != null ==> memoryMap != null && frames.Fixed())
      && (heapSize != 0 ==> frames != null)
    }

    /** The owned map reads `m`. */
    ghost predicate MapIs(m: Ranges)
      reads this, memoryMap, frames, Arrays()
    {
      memoryMap != null && memoryMap.Valid() && memoryMap.Table() == m
    }

    ghost predicate FramesAre(m: Ranges, free: seq<FreeRange>)
      reads this, memoryMap, frames, Arrays()
    {
      frames != null && Manages(frames, m, free)
    }

    ghost predicate Holds(r: HandOff.Result)
      reads this, memoryMap, frames, Arrays()
    {
      Valid() && LeftBehind(r)
    }

    /** Nothing of the heap is recorded and no frame allocator exists. */
    predicate NoFrames()
      reads this
    {
      heapSize == 0 && frames == null
    }

    /** The state a hand-off leaves behind, wherever it stops. */
    ghost predicate LeftBehind(r: HandOff.Result)
      reads this, memoryMap, frames, Arrays()
    {
      match r
      case NoMap => memoryMap == null && NoFrames()
      case WindowRefused(m) => MapIs(m) && NoFrames()
      case NothingUsable(m) => MapIs(m) && FramesAre(m, []) && heapSize == 0
      case HeapRefused(m, heap) =>
        UsableRanges(m) != [] && MapIs(m) && FramesAre(m, FramesLeft(m)) && heapSize == 0
      case Done(m, heap, m') =>
        && UsableRanges(m) != [] && MapIs(m') && FramesAre(m, FramesLeft(m))
        && heapStart == heap.start && heapSize == heap.size
    }

    constructor ()
      ensures Valid() && heapSize == 0 && memoryMap == null && frames == null
    {
      heapStart, heapSize, memoryMap, frames := 0, 0, null, null;
    }

    /** Sets up the owned map, once. */
    method InitializeMap(entries: seq<Descriptor>, framebuffer: Option<Window>) returns (r: Machine.Result<(), MapError>)
      requires Valid()
      modifies this`memoryMap
      ensures Valid()
      ensures old(memoryMap) != null ==> r == Err(AlreadyInitialized) && memoryMap == old(memoryMap)
      ensures old(memoryMap) == null ==>
        match Initialized(entries, framebuffer)
        case Ok(m) => r.Ok? && MapIs(m) && fresh(memoryMap) && fresh(memoryMap.ranges)
        case Err(e) => r == Err(e) && memoryMap == null
    {
      if memoryMap != null {
        return Err(AlreadyInitialized);
      }
      var snapshot := MemoryMap.Initialize(entries, framebuffer);
      if snapshot.Err? {
        return Err(snapshot.error);
      }
      memoryMap := snapshot.value;
      return Ok(());
    }

    /** Gives a window of the owned map to the kernel. */
    method ReserveForKernel(w: Window) returns (r: Machine.Result<(), MapError>)
      requires Valid()
      modifies memoryMap
      ensures Valid()
      ensures memoryMap == null ==> r == Err(NotInitialized)
      ensures memoryMap != null ==> memoryMap.ranges == old(memoryMap.ranges) || fresh(memoryMap.ranges)
      ensures memoryMap != null ==>
        && (r.Ok? <==> Given(old(memoryMap.Table()), w).Some?)
        && MapIs(if r.Ok? then Given(old(memoryMap.Table()), w).value else old(memoryMap.Table()))
    {
      if memoryMap == null {
        return Err(NotInitialized);
      }
      r := memoryMap.ReserveRange(w.0, w.1, Kernel);
    }

    /** Builds the frame allocator from the owned map, once. */
    method InitializeFrames() returns (ok: bool)
      requires Valid()
      modifies this`frames
      ensures Valid() && (ok <==> old(frames) == null && memoryMap != null)
      ensures !ok ==> frames == old(frames)
      ensures ok ==> var m := memoryMap.Table();
        && FramesAre(m, UsableRanges(m)) && fresh(frames) && fresh(frames.ranges) && fresh(frames.managed)
    {
      if frames != null || memoryMap == null {
        return false;
      }
      frames := new FrameAllocator(memoryMap.ranges[..memoryMap.count]);
      return true;
    }

    /** The owned map with image and stack marked in it, or the point at which that fails. */
    method MarkWindows(entries: seq<Descriptor>, framebuffer: Option<Window>, kernelImage: Window, stack: Window)
      returns (r: Machine.Result<(), H.HeapError>)
      requires Valid() && heapSize == 0
      modifies this`memoryMap
      ensures Valid()
      ensures old(memoryMap) != null ==> r == Err(H.MemoryMapUnavailable) && memoryMap == old(memoryMap)
      ensures old(memoryMap) == null && r.Ok? ==>
        && memoryMap != null && fresh(memoryMap) && fresh(memoryMap.ranges)
        && Run(entries, framebuffer, kernelImage, stack) == TakeLongest(memoryMap.Table())
      ensures old(memoryMap) == null && r.Err? ==>
        var run := Run(entries, framebuffer, kernelImage, stack);
        Answer(run) == Err(r.error) && LeftBehind(run)
    {
      var initialized := InitializeMap(entries, framebuffer);
      if initialized.Err? {
        return Err(H.MemoryMapUnavailable);
      }
      InitializedIsProper(entries, framebuffer);
      ghost var m := memoryMap.Table();
      var reserved := ReserveForKernel(kernelImage);
      if reserved.Err? {
        return Err(H.MemoryReservationFailed);
      }
      GivenIsProper(m, kernelImage);
      reserved := ReserveForKernel(stack);
      return if reserved.Err? then Err(H.MemoryReservationFailed) else Ok(());
    }

    /** The frame allocator over the owned map, with its longest run taken out. */
    method TakeFromFrames() returns (heap: Option<HeapRegion>)
      requires Valid() && heapSize == 0 && memoryMap != null && frames == null
      modifies this`frames
      ensures Valid()
      ensures var m := memoryMap.Table();
        && heap == (if UsableRanges(m) == [] then None else Some(HeapOf(m)))
        && FramesAre(m, if UsableRanges(m) == [] then [] else FramesLeft(m))
    {
      // There is a map and there are no frames yet, so this cannot fail.
      var built := InitializeFrames();
      ghost var m := memoryMap.Table();
      heap := TakeHeap(frames, m);
      assert memoryMap.Table() == m;
    }

    /** Marks the heap in the owned map and records it. */
    method RecordHeap(heap: HeapRegion, ghost m: Ranges) returns (ok: bool)
      requires Valid() && heapSize == 0 && MapIs(m) && UsableRanges(m) != [] && FramesAre(m, FramesLeft(m))
      modifies this`heapStart, this`heapSize, memoryMap
      ensures Valid() && FramesAre(m, FramesLeft(m))
      ensures match Given(m, (heap.start, heap.size))
        case None => !ok && MapIs(m) && heapSize == 0
        case Some(m') => ok && MapIs(m') && heapStart == heap.start && heapSize == heap.size
    {
      var reserved := ReserveForKernel((heap.start, heap.size));
      if reserved.Err? {
        return false;
      }
      heapStart, heapSize := heap.start, heap.size;
      return true;
    }

    /** Takes the heap from the frames and marks it in the map. */
    method HandOverHeap() returns (r: Machine.Result<HeapRegion, H.HeapError>)
      requires Valid() && heapSize == 0 && memoryMap != null && frames == null
      modifies this, memoryMap
      ensures Valid()
      ensures var run := TakeLongest(old(memoryMap.Table())); r == Answer(run) && LeftBehind(run)
      ensures r.Ok? ==> WholePages(r.value)
    {
      ghost var m := memoryMap.Table();
      var heap := TakeFromFrames();
      if heap.None? {
        return Err(H.NoConventionalMemory);
      }
      var ok := RecordHeap(heap.value, m);
      return if ok then Ok(heap.value) else Err(H.MemoryReservationFailed);
    }

    /** `stackAddress` is where the boot stack was found to lie. What comes back and what stays behind are those of `Run`,
        on any descriptors and windows at all; a second attempt fails, whether the first one did or not. */
    method InitializeHeap(entries: seq<Descriptor>, framebuffer: Option<Window>, kernelImage: Window, stackAddress: U64)
      returns (r: Machine.Result<HeapRegion, H.HeapError>)
      requires Valid()
      modifies this
      ensures Valid()
      ensures old(heapSize) != 0 ==> r == Err(H.AlreadyInitialized) && unchanged(this)
      ensures old(heapSize) == 0 && old(memoryMap) != null ==> r == Err(H.MemoryMapUnavailable) && unchanged(this)
      ensures old(heapSize) == 0 && old(memoryMap) == null ==>
        var run := Run(entries, framebuffer, kernelImage, StackWindow(stackAddress));
        r == Answer(run) && LeftBehind(run)
      ensures r.Ok? ==> WholePages(r.value)
      ensures r.Ok? && DisjointFirmware(entries) ==>
        SafeHeap(entries, framebuffer, kernelImage, stackAddress, r.value)
    {
      if heapSize != 0 {
        return Err(H.AlreadyInitialized);
      }
      var marked := MarkWindows(entries, framebuffer, kernelImage, StackWindow(stackAddress));
      if marked.Err? {
        return Err(marked.error);
      }
      r := HandOverHeap();
      if r.Ok? && DisjointFirmware(entries) { HeapIsSafe(entries, framebuffer, kernelImage, stackAddress, r.value); }
    }
  }

  /** The allocator accepts the heap of a neat map: it starts on a page. */
  lemma NeatHeapIsAligned(entries: seq<Descriptor>, fb: Option<Window>, image: Window, stack: Window,
                          m: Ranges, heap: HeapRegion, m': Ranges)
    requires AlignedFirmware(entries) && Run(entries, fb, image, stack) == Done(m, heap, m')
    requires NeatEnds(Copied(entries), AllWindows(fb, image, stack))
    ensures heap.start % PAGE_SIZE == 0 && heap.start % L.HEADER_ALIGN == 0
  {
    DoneMeans(entries, fb, image, stack, m, heap, m');
    TableIsPagedIffNeat(entries, fb, image, stack);
    HeapStartsOnPage(m);
    PagesAreAligned(heap.start);
  }

  /** The allocator as the heap region leaves it. */
  ghost predicate Started(allocator: H.AgnostOSAllocator, heap: HeapRegion)
    reads allocator
  {
    && allocator.lo == heap.start && allocator.hi == heap.start + heap.size
    && allocator.free == (if heap.start > 0 then [S.Span(heap.start, heap.size)] else [])
    && allocator.State().Lost() == if heap.start > 0 then 0 else heap.size
  }

  /** Consumes the region. */
  method InitializeGlobal(allocator: H.AgnostOSAllocator, heap: HeapRegion) returns (r: Machine.Result<(), H.HeapError>)
    requires allocator.Valid() && WholePages(heap)
    requires allocator.lo == allocator.hi && allocator.free == [] && allocator.live == []
    modifies allocator
    ensures allocator.Valid()
    ensures r == if heap.start % L.HEADER_ALIGN != 0 then Err(H.Misaligned) else Ok(())
    ensures r.Ok? ==> Started(allocator, heap) && allocator.live == []
  {
    r := allocator.Init(heap.start, heap.size);
  }

  /** What the hand-off left behind is not touched. */
  method InitializeBeside(memory: KernelMemory, allocator: H.AgnostOSAllocator, heap: HeapRegion, ghost run: HandOff.Result)
    returns (r: Machine.Result<(), H.HeapError>)
    requires memory.Holds(run) && allocator.Valid() && WholePages(heap)
    requires allocator.lo == allocator.hi && allocator.free == [] && allocator.live == []
    modifies allocator
    ensures memory.Holds(run) && allocator.Valid()
    ensures r == if heap.start % L.HEADER_ALIGN != 0 then Err(H.Misaligned) else Ok(())
    ensures r.Ok? ==> Started(allocator, heap) && allocator.live == []
  {
    assert allocator !in memory.Arrays();
    r := InitializeGlobal(allocator, heap);
  }

  /** The part of the start-up that ends with a working heap. The region is never too small; the list is the one chunk
      it makes unless that chunk lies at address zero. */
  method StartHeap(memory: KernelMemory, allocator: H.AgnostOSAllocator, entries: seq<Descriptor>,
                   framebuffer: Option<Window>, kernelImage: Window, stackAddress: U64)
    returns (r: Machine.Result<(), H.HeapError>)
    requires memory.Valid() && memory.heapSize == 0 && memory.memoryMap == null && allocator.Valid()
    requires allocator.lo == allocator.hi && allocator.free == [] && allocator.live == []
    modifies memory, allocator
    ensures memory.Valid() && allocator.Valid()
    ensures var run := Run(entries, framebuffer, kernelImage, StackWindow(stackAddress));
      && memory.LeftBehind(run)
      && r == (if !run.Done? then Err(Answer(run).error)
               else if run.heap.start % L.HEADER_ALIGN != 0 then Err(H.Misaligned) else Ok(()))
      && (r.Ok? ==> Started(allocator, run.heap) && allocator.live == [])
  {
    ghost var run := Run(entries, framebuffer, kernelImage, StackWindow(stackAddress));
    var region := memory.InitializeHeap(entries, framebuffer, kernelImage, stackAddress);
    if region.Err? {
      return Err(region.error);
    }
    r := InitializeBeside(memory, allocator, region.value, run);
  }
}

/** What the hand-off of physical memory comes to, as a function of what the firmware and the loader supply. */
module HandOff {
  import opened Machine
  import opened MemoryMap
  import opened Frames
  import opened Windows
  import S = Spans
  import R = FrameRuns

  datatype HeapRegion = HeapRegion(start: U64, size: U64)

  const STACK_WINDOW_PAGES: int := 64

  function StackWindow(stackAddress: U64): Window {
    var page := stackAddress - stackAddress % PAGE_SIZE;
    (Max(0, page - 32 * PAGE_SIZE), STACK_WINDOW_PAGES * PAGE_SIZE)
  }

  /** Wherever the stack is: its window is 64 pages from a page boundary on, 32 pages below the page of the address or at
      zero, and holds all of that page. */
  lemma StackWindowIs(stackAddress: U64, p: int)
    requires p * PAGE_SIZE <= stackAddress < (p + 1) * PAGE_SIZE
    ensures StackWindow(stackAddress).0 == (if p >= 32 then (p - 32) * PAGE_SIZE else 0)
    ensures StackWindow(stackAddress).1 == 64 * PAGE_SIZE
    ensures forall a :: p * PAGE_SIZE <= a < (p + 1) * PAGE_SIZE ==> Inside(a, StackWindow(stackAddress))
  {
    assert stackAddress / PAGE_SIZE == p;
  }

  /** How far the hand-off gets, with the map it leaves behind. */
  datatype Result =
    | NoMap
    | WindowRefused(map': Ranges)
    | NothingUsable(map': Ranges)
    | HeapRefused(map': Ranges, heap: HeapRegion)
    | Done(before: Ranges, heap: HeapRegion, map': Ranges)

  /** The run the heap takes: the last of the longest usable ranges, whole frames only. */
  function HeapIndex(m: Ranges): (k: nat)
    requires UsableRanges(m) != []
    ensures k < |UsableRanges(m)|
  {
    R.LastLongest(PageSpans(UsableRanges(m)))
  }

  function HeapOf(m: Ranges): (heap: HeapRegion)
    requires AllProper(m) && UsableRanges(m) != []
    ensures heap.size > 0 && heap.start + heap.size <= U64_MAX && heap.size % PAGE_SIZE == 0
  {
    UsableRangesSpacious(m);
    var f := UsableRanges(m)[HeapIndex(m)];
    HeapRegion(f.start, f.frames * PAGE_SIZE)
  }

  /** The frame table once the heap's run is gone from it. */
  function FramesLeft(m: Ranges): seq<FreeRange>
    requires UsableRanges(m) != []
  {
    UsableRanges(m)[..HeapIndex(m)] + UsableRanges(m)[HeapIndex(m) + 1..]
  }

  /** The map once a window belongs to the kernel, if that works. */
  function Given(m: Ranges, w: Window): Option<Ranges> {
    if ReserveError(m, w.0, w.1, Kernel).Some? then None else Some(Reserve(m, w.0, EndOf(w), Kernel))
  }

  function TakeLongest(m: Ranges): (r: Result)
    requires AllProper(m)
    ensures r.NothingUsable? || r.HeapRefused? || r.Done?
    ensures r.NothingUsable? <==> UsableRanges(m) == []
    ensures r.Done? ==> r.heap == HeapOf(m)
  {
    if UsableRanges(m) == [] then NothingUsable(m)
    else
      var heap := HeapOf(m);
      match Given(m, (heap.start, heap.size))
      case None => HeapRefused(m, heap)
      case Some(m') => Done(m, heap, m')
  }

  lemma InitializedIsProper(entries: seq<Descriptor>, fb: Option<Window>)
    requires Initialized(entries, fb).Ok?
    ensures AllGood(entries) && AllProper(Copied(entries)) && AllProper(Initialized(entries, fb).value)
  {
    CopySucceedsIff(entries);
    if fb.Some? && ReserveError(Copied(entries), fb.value.0, fb.value.1, Device).None? {
      ReserveKeepsShape(Copied(entries), fb.value.0, EndOf(fb.value), Device);
    }
  }

  lemma GivenIsProper(m: Ranges, w: Window)
    requires AllProper(m) && Given(m, w).Some?
    ensures AllProper(Given(m, w).value)
  {
    ReserveKeepsShape(m, w.0, EndOf(w), Kernel);
  }

  function AfterWindows(m: Ranges, image: Window, stack: Window): Result
    requires AllProper(m)
  {
    match Given(m, image)
    case None => WindowRefused(m)
    case Some(m1) =>
      GivenIsProper(m, image);
      match Given(m1, stack)
      case None => WindowRefused(m1)
      case Some(m2) =>
        GivenIsProper(m1, stack);
        TakeLongest(m2)
  }

  function Run(entries: seq<Descriptor>, fb: Option<Window>, image: Window, stack: Window): Result {
    match Initialized(entries, fb)
    case Err(_) => NoMap
    case Ok(m) =>
      InitializedIsProper(entries, fb);
      AfterWindows(m, image, stack)
  }

  /** The windows in the order they are marked. */
  function AllWindows(fb: Option<Window>, image: Window, stack: Window): seq<Window> {
    (if fb.Some? then [fb.value] else []) + [image, stack]
  }

  // ---------------------------------------------------------------- the firmware

  /** Descriptors that do not overlap. */
  ghost predicate DisjointFirmware(entries: seq<Descriptor>) { AllGood(entries) && PairwiseApart(Copied(entries)) }

  /** Usable memory starts on pages (section 7.2 of the UEFI Specification). */
  ghost predicate AlignedFirmware(entries: seq<Descriptor>) { AllGood(entries) && StartsAligned(Copied(entries)) }

  /** The conventional descriptors come in address order and do not overlap. */
  ghost predicate OrderedFirmware(entries: seq<Descriptor>) { AllGood(entries) && UsableAscending(Copied(entries)) }

  lemma FramebufferMarks(rs: Ranges, w: Window)
    requires MarkFramebuffer(rs, Some(w)).Ok?
    ensures Marks(rs, w, Device, MarkFramebuffer(rs, Some(w)).value)
  {
  }

  lemma GivenMarks(m: Ranges, w: Window)
    requires Given(m, w).Some?
    ensures Marks(m, w, Kernel, Given(m, w).value)
  {
  }

  lemma FramebufferMarked(rs: Ranges, fb: Option<Window>)
    requires AllProper(rs) && MarkFramebuffer(rs, fb).Ok?
    ensures Marked(rs, if fb.Some? then [fb.value] else [], MarkFramebuffer(rs, fb).value)
  {
    NothingMarked(rs);
    if fb.Some? {
      FramebufferMarks(rs, fb.value);
      MarkOneMore(rs, [], rs, fb.value, Device, MarkFramebuffer(rs, fb).value);
      assert [] + [fb.value] == [fb.value];
    }
  }

  /** The map the frame allocator is built from, once every window is marked. */
  function MapForFrames(entries: seq<Descriptor>, fb: Option<Window>, image: Window, stack: Window): Option<Ranges> {
    match Initialized(entries, fb)
    case Err(_) => None
    case Ok(m) =>
      match Given(m, image)
      case None => None
      case Some(m1) => Given(m1, stack)
  }

  lemma TakeLongestDone(m: Ranges, before: Ranges, heap: HeapRegion, m': Ranges)
    requires AllProper(m) && TakeLongest(m) == Done(before, heap, m')
    ensures before == m && UsableRanges(m) != [] && heap == HeapOf(m) && Given(m, (heap.start, heap.size)) == Some(m')
  {
  }

  lemma AfterWindowsDone(m: Ranges, image: Window, stack: Window, before: Ranges, heap: HeapRegion, m': Ranges)
    requires AllProper(m) && AfterWindows(m, image, stack) == Done(before, heap, m')
    ensures Given(m, image).Some? && Given(Given(m, image).value, stack) == Some(before)
    ensures AllProper(before) && UsableRanges(before) != [] && heap == HeapOf(before)
    ensures Given(before, (heap.start, heap.size)) == Some(m')
  {
    GivenIsProper(m, image);
    GivenIsProper(Given(m, image).value, stack);
    TakeLongestDone(Given(Given(m, image).value, stack).value, before, heap, m');
  }

  /** What a complete hand-off went through. */
  lemma DoneMeans(entries: seq<Descriptor>, fb: Option<Window>, image: Window, stack: Window,
                  m: Ranges, heap: HeapRegion, m': Ranges)
    requires Run(entries, fb, image, stack) == Done(m, heap, m')
    ensures MapForFrames(entries, fb, image, stack) == Some(m) && AllProper(m)
    ensures UsableRanges(m) != [] && heap == HeapOf(m) && Given(m, (heap.start, heap.size)) == Some(m')
  {
    InitializedIsProper(entries, fb);
    AfterWindowsDone(Initialized(entries, fb).value, image, stack, m, heap, m');
  }

  lemma TwoMoreMarked(rs: Ranges, ws: seq<Window>, m: Ranges, image: Window, m1: Ranges, stack: Window, m2: Ranges)
    requires Marked(rs, ws, m) && Given(m, image) == Some(m1) && Given(m1, stack) == Some(m2)
    ensures Marked(rs, ws + [image, stack], m2)
  {
    GivenMarks(m, image);
    MarkOneMore(rs, ws, m, image, Kernel, m1);
    GivenMarks(m1, stack);
    MarkOneMore(rs, ws + [image], m1, stack, Kernel, m2);
    assert ws + [image] + [stack] == ws + [image, stack];
  }

  /** What the map is made of. */
  lemma MapIsMadeOf(entries: seq<Descriptor>, fb: Option<Window>, image: Window, stack: Window)
    returns (m0: Ranges, m1: Ranges)
    requires MapForFrames(entries, fb, image, stack).Some?
    ensures AllGood(entries) && AllProper(Copied(entries))
    ensures MarkFramebuffer(Copied(entries), fb) == Ok(m0) && AllProper(m0) && Given(m0, image) == Some(m1)
    ensures Given(m1, stack) == MapForFrames(entries, fb, image, stack)
  {
    InitializedIsProper(entries, fb);
    m0 := Initialized(entries, fb).value;
    m1 := Given(m0, image).value;
  }

  lemma AllWindowsMarked(entries: seq<Descriptor>, fb: Option<Window>, image: Window, stack: Window)
    requires MapForFrames(entries, fb, image, stack).Some?
    ensures AllGood(entries)
    ensures Marked(Copied(entries), AllWindows(fb, image, stack), MapForFrames(entries, fb, image, stack).value)
  {
    var m0, m1 := MapIsMadeOf(entries, fb, image, stack);
    FramebufferMarked(Copied(entries), fb);
    TwoMoreMarked(Copied(entries), if fb.Some? then [fb.value] else [], m0, image, m1, stack,
                  MapForFrames(entries, fb, image, stack).value);
  }

  lemma FramebufferKeeps(rs: Ranges, fb: Option<Window>)
    requires AllProper(rs) && MarkFramebuffer(rs, fb).Ok?
    ensures var m := MarkFramebuffer(rs, fb).value;
      && AllProper(m) && (UsableAscending(rs) ==> UsableAscending(m)) && (PairwiseApart(rs) ==> PairwiseApart(m))
  {
    if fb.Some? {
      FramebufferMarks(rs, fb.value);
      MarksKeepsProper(rs, fb.value, Device, MarkFramebuffer(rs, fb).value);
      if PairwiseApart(rs) { MarksKeepsApart(rs, fb.value, Device, MarkFramebuffer(rs, fb).value); }
    }
  }

  lemma GivenKeeps(m: Ranges, w: Window)
    requires AllProper(m) && Given(m, w).Some?
    ensures var m' := Given(m, w).value;
      && AllProper(m') && (UsableAscending(m) ==> UsableAscending(m')) && (PairwiseApart(m) ==> PairwiseApart(m'))
  {
    GivenMarks(m, w);
    MarksKeepsProper(m, w, Kernel, Given(m, w).value);
    if PairwiseApart(m) { MarksKeepsApart(m, w, Kernel, Given(m, w).value); }
  }

  /** Marking keeps a disjoint map disjoint and ordered usable ranges in order. */
  lemma MapForFramesKeeps(entries: seq<Descriptor>, fb: Option<Window>, image: Window, stack: Window)
    requires MapForFrames(entries, fb, image, stack).Some?
    ensures var m := MapForFrames(entries, fb, image, stack).value;
      && AllGood(entries) && AllProper(m)
      && (UsableAscending(Copied(entries)) ==> UsableAscending(m))
      && (PairwiseApart(Copied(entries)) ==> PairwiseApart(m))
  {
    var m0, m1 := MapIsMadeOf(entries, fb, image, stack);
    FramebufferKeeps(Copied(entries), fb);
    GivenKeeps(m0, image);
    GivenKeeps(m1, stack);
  }

  /** What is usable then is what the firmware called usable, outside every window, however windows and descriptors lie. */
  lemma UsableInMapForFrames(entries: seq<Descriptor>, fb: Option<Window>, image: Window, stack: Window, a: int)
    requires MapForFrames(entries, fb, image, stack).Some?
    ensures AllGood(entries)
    ensures KindAt(MapForFrames(entries, fb, image, stack).value, a) == Some(Usable)
       <==> KindAt(Copied(entries), a) == Some(Usable) && Outside(a, AllWindows(fb, image, stack))
    ensures KindAt(MapForFrames(entries, fb, image, stack).value, a) == Some(Usable)
       <==> TypedAt(entries, a, {CONVENTIONAL}) && Outside(a, AllWindows(fb, image, stack))
  {
    AllWindowsMarked(entries, fb, image, stack);
    KindOfCopy(entries, a);
    assert UsableMarked(Copied(entries), AllWindows(fb, image, stack), MapForFrames(entries, fb, image, stack).value, a);
  }

  /** The frame table is page-aligned exactly when no window ends off a page with a frame of usable memory after it,
      whatever the order of the descriptors and whether or not they overlap. */
  lemma TableIsPagedIffNeat(entries: seq<Descriptor>, fb: Option<Window>, image: Window, stack: Window)
    requires AlignedFirmware(entries) && MapForFrames(entries, fb, image, stack).Some?
    ensures AllPaged(UsableRanges(MapForFrames(entries, fb, image, stack).value))
       <==> NeatEnds(Copied(entries), AllWindows(fb, image, stack))
  {
    AllWindowsMarked(entries, fb, image, stack);
    PagedIffNeat(Copied(entries), AllWindows(fb, image, stack), MapForFrames(entries, fb, image, stack).value);
  }

  /** From ordered descriptors the table is then also in order. */
  lemma FrameReadyIffNeat(entries: seq<Descriptor>, fb: Option<Window>, image: Window, stack: Window)
    requires AlignedFirmware(entries) && OrderedFirmware(entries) && MapForFrames(entries, fb, image, stack).Some?
    ensures FrameReady(MapForFrames(entries, fb, image, stack).value)
       <==> NeatEnds(Copied(entries), AllWindows(fb, image, stack))
  {
    TableIsPagedIffNeat(entries, fb, image, stack);
    MapForFramesKeeps(entries, fb, image, stack);
    var m := MapForFrames(entries, fb, image, stack).value;
    if AllPaged(UsableRanges(m)) { UsableRangesSound(m); }
  }

  // -------------------------------------------------------------------- the heap

  /** No run of the frame table built from `rs` is longer than `frames`. */
  ghost predicate IsLongest(rs: Ranges, frames: int) {
    forall i :: 0 <= i < |rs| && rs[i].kind == Usable ==> rs[i].length / PAGE_SIZE <= frames
  }

  /** The heap takes the front of a usable range, and no run is longer. */
  lemma HeapIsLongest(m: Ranges) returns (o: nat)
    requires AllProper(m) && UsableRanges(m) != []
    ensures o < |m| && HasFrames(m[o])
    ensures HeapOf(m) == HeapRegion(m[o].start, m[o].length / PAGE_SIZE * PAGE_SIZE)
    ensures IsLongest(m, HeapOf(m).size / PAGE_SIZE)
  {
    var fs, k := UsableRanges(m), HeapIndex(m);
    o := UsableRangeOrigin(m, k);
    forall i | 0 <= i < |m| && m[i].kind == Usable ensures m[i].length / PAGE_SIZE <= fs[k].frames {
      if HasFrames(m[i]) {
        var j := UsableRangeHasRun(m, i);
        assert PageSpans(fs)[j].length <= PageSpans(fs)[k].length;
      }
    }
  }

  lemma HeapIsUsable(m: Ranges, a: int)
    requires AllProper(m) && PairwiseApart(m) && UsableRanges(m) != []
    requires Inside(a, (HeapOf(m).start, HeapOf(m).size))
    ensures KindAt(m, a) == Some(Usable)
  {
    var o := HeapIsLongest(m);
    assert m[o].Contains(a);
    RangeAtIs(m, o, a);
  }

  /** The heap lies in memory the firmware reported as usable, clear of every window; neither alignment nor order plays
      a part. */
  lemma HeapIsClear(entries: seq<Descriptor>, fb: Option<Window>, image: Window, stack: Window, a: int)
    requires DisjointFirmware(entries) && MapForFrames(entries, fb, image, stack).Some?
    requires var m := MapForFrames(entries, fb, image, stack).value;
      AllProper(m) && UsableRanges(m) != [] && Inside(a, (HeapOf(m).start, HeapOf(m).size))
    ensures TypedAt(entries, a, {CONVENTIONAL}) && Outside(a, AllWindows(fb, image, stack))
  {
    MapForFramesKeeps(entries, fb, image, stack);
    HeapIsUsable(MapForFrames(entries, fb, image, stack).value, a);
    UsableInMapForFrames(entries, fb, image, stack, a);
  }

  /** No byte of the heap lies on the page where the stack was found. */
  lemma HeapSparesStack(entries: seq<Descriptor>, fb: Option<Window>, image: Window, stackAddress: U64, a: int)
    requires DisjointFirmware(entries) && MapForFrames(entries, fb, image, StackWindow(stackAddress)).Some?
    requires var m := MapForFrames(entries, fb, image, StackWindow(stackAddress)).value;
      AllProper(m) && UsableRanges(m) != [] && Inside(a, (HeapOf(m).start, HeapOf(m).size))
    ensures a / PAGE_SIZE != stackAddress / PAGE_SIZE
  {
    var ws := AllWindows(fb, image, StackWindow(stackAddress));
    HeapIsClear(entries, fb, image, StackWindow(stackAddress), a);
    StackWindowIs(stackAddress, stackAddress / PAGE_SIZE);
    assert ws[|ws| - 1] == StackWindow(stackAddress);
  }

  // ------------------------------------------------------------ every address

  /** The kind of an address once the windows are marked: what the map knew of image and stack is the kernel's, what it
      knew of the framebuffer is the device's, and so is all of a framebuffer it knew nothing of. */
  lemma KindInMapForFrames(entries: seq<Descriptor>, fb: Option<Window>, image: Window, stack: Window, a: int)
    requires MapForFrames(entries, fb, image, stack).Some?
    ensures AllGood(entries)
    ensures var firmware := KindAt(Copied(entries), a);
      var known := firmware.Some?
        || (fb.Some? && Inside(a, fb.value) && Unknown(Copied(entries), fb.value.0, EndOf(fb.value)));
      KindAt(MapForFrames(entries, fb, image, stack).value, a) ==
        if !known then None
        else if Inside(a, image) || Inside(a, stack) then Some(Kernel)
        else if fb.Some? && Inside(a, fb.value) then Some(Device)
        else firmware
  {
    var m0, m1 := MapIsMadeOf(entries, fb, image, stack);
    if fb.Some? { FramebufferIsDevice(Copied(entries), fb.value.0, fb.value.1, a); }
    ReserveReclassifies(m0, image.0, EndOf(image), Kernel, a);
    GivenIsProper(m0, image);
    ReserveReclassifies(m1, stack.0, EndOf(stack), Kernel, a);
  }

  /** The heap's addresses become the kernel's and no other address changes. */
  lemma HeapIsKernels(m: Ranges, heap: HeapRegion, m': Ranges, a: int)
    requires AllProper(m) && PairwiseApart(m) && TakeLongest(m) == Done(m, heap, m')
    ensures KindAt(m', a) == if Inside(a, (heap.start, heap.size)) then Some(Kernel) else KindAt(m, a)
  {
    TakeLongestDone(m, m, heap, m');
    GivenIsKernels(m, (heap.start, heap.size), m', a);
    if Inside(a, (heap.start, heap.size)) { HeapIsUsable(m, a); }
  }

  lemma GivenIsKernels(m: Ranges, w: Window, m': Ranges, a: int)
    requires AllProper(m) && Given(m, w) == Some(m')
    ensures KindAt(m', a) == if Inside(a, w) && KindAt(m, a).Some? then Some(Kernel) else KindAt(m, a)
  {
    ReserveReclassifies(m, w.0, EndOf(w), Kernel, a);
  }

  // --------------------------------------------------------------- when it succeeds

  lemma WindowFits(m: Ranges, w: Window, kind: MemoryKind)
    requires AllProper(m) && PairwiseApart(m) && |m| + 2 <= MAX_MEMORY_RANGES
    requires ProperWindow(w) && AnyOverlap(m, w.0, EndOf(w))
    ensures ReserveError(m, w.0, w.1, kind) == None && |Reserve(m, w.0, EndOf(w), kind)| <= |m| + 2
  {
    ReserveAddsAtMostTwo(m, w.0, EndOf(w), kind);
  }

  /** A usable frame clear of a window stays, as does a window's overlap with the map, when another is marked. */
  lemma FrameAndOverlapStay(m: Ranges, w: Window, kind: MemoryKind, m': Ranges, a: int, other: Window)
    requires AllProper(m) && Marks(m, w, kind, m') && ProperWindow(other)
    ensures UsableStretch(m, a, a + PAGE_SIZE) && (a + PAGE_SIZE <= w.0 || EndOf(w) <= a) ==>
      UsableStretch(m', a, a + PAGE_SIZE)
    ensures AnyOverlap(m, other.0, EndOf(other)) ==> AnyOverlap(m', other.0, EndOf(other))
  {
    if m' == Reserve(m, w.0, EndOf(w), kind) {
      if UsableStretch(m, a, a + PAGE_SIZE) && (a + PAGE_SIZE <= w.0 || EndOf(w) <= a) {
        StretchSurvives(m, w.0, EndOf(w), kind, a, a + PAGE_SIZE);
      }
      if AnyOverlap(m, other.0, EndOf(other)) { OverlapSurvives(m, w.0, EndOf(w), kind, other); }
    } else {
      var added := [MemoryRange(w.0, w.1, MMIO, kind)];
      if UsableStretch(m, a, a + PAGE_SIZE) { StretchConcat(m, added, a, a + PAGE_SIZE); }
      if i :| 0 <= i < |m| && Overlaps(m[i], other.0, EndOf(other)) { assert (m + added)[i] == m[i]; }
    }
  }

  lemma FrameMeansRun(m: Ranges, a: int)
    requires AllProper(m) && UsableStretch(m, a, a + PAGE_SIZE)
    ensures UsableRanges(m) != []
  {
    var i :| 0 <= i < |m| && m[i].kind == Usable && m[i].start <= a && a + PAGE_SIZE <= m[i].End();
    var j := UsableRangeHasRun(m, i);
  }

  lemma {:induction false} HeapFits(m: Ranges)
    requires AllProper(m) && PairwiseApart(m) && |m| + 2 <= MAX_MEMORY_RANGES && UsableRanges(m) != []
    ensures TakeLongest(m).Done?
  {
    var o := HeapIsLongest(m);
    var heap := HeapOf(m);
    assert Overlaps(m[o], heap.start, heap.start + heap.size);
    WindowFits(m, (heap.start, heap.size), Kernel);
  }

  /** `w` meets the map and stays clear of the page at `a`. */
  ghost predicate GoodWindow(rs: Ranges, w: Window, a: int) {
    ProperWindow(w) && AnyOverlap(rs, w.0, EndOf(w)) && (a + PAGE_SIZE <= w.0 || EndOf(w) <= a)
  }

  ghost predicate Roomy(m: Ranges) { AllProper(m) && PairwiseApart(m) }

  lemma GivenFits(m: Ranges, w: Window, a: int)
    requires Roomy(m) && |m| + 2 <= MAX_MEMORY_RANGES && GoodWindow(m, w, a) && UsableStretch(m, a, a + PAGE_SIZE)
    ensures Given(m, w).Some?
    ensures Roomy(Given(m, w).value) && |Given(m, w).value| <= |m| + 2
    ensures UsableStretch(Given(m, w).value, a, a + PAGE_SIZE)
  {
    WindowFits(m, w, Kernel);
    GivenMarks(m, w);
    GivenKeeps(m, w);
    FrameAndOverlapStay(m, w, Kernel, Given(m, w).value, a, w);
  }

  lemma FramebufferFits(rs: Ranges, fb: Option<Window>, a: int)
    requires Roomy(rs) && |rs| + 2 <= MAX_MEMORY_RANGES && UsableStretch(rs, a, a + PAGE_SIZE)
    requires fb.Some? ==> ProperWindow(fb.value) && (a + PAGE_SIZE <= fb.value.0 || EndOf(fb.value) <= a)
    ensures MarkFramebuffer(rs, fb).Ok?
    ensures var m := MarkFramebuffer(rs, fb).value; Roomy(m) && |m| <= |rs| + 2 && UsableStretch(m, a, a + PAGE_SIZE)
  {
    if fb.Some? {
      var w := fb.value;
      ReserveAddsAtMostTwo(rs, w.0, EndOf(w), Device);
      FramebufferMarks(rs, w);
      FramebufferKeeps(rs, fb);
      FrameAndOverlapStay(rs, w, Device, MarkFramebuffer(rs, fb).value, a, w);
    }
  }

  /** The hand-off succeeds whenever there are descriptors, all good and disjoint, the windows are proper, image and stack
      meet the map, eight entries are to spare, and one whole usable frame is clear of all of them. */
  lemma HandOffSucceeds(entries: seq<Descriptor>, fb: Option<Window>, image: Window, stack: Window, a: int)
    requires entries != [] && DisjointFirmware(entries) && |entries| + 8 <= MAX_MEMORY_RANGES
    requires UsableStretch(Copied(entries), a, a + PAGE_SIZE)
    requires fb.Some? ==> ProperWindow(fb.value) && (a + PAGE_SIZE <= fb.value.0 || EndOf(fb.value) <= a)
    requires GoodWindow(Copied(entries), image, a) && GoodWindow(Copied(entries), stack, a)
    ensures Run(entries, fb, image, stack).Done?
  {
    var rs := Copied(entries);
    CopySucceedsIff(entries);
    FramebufferFits(rs, fb, a);
    var m := MarkFramebuffer(rs, fb).value;
    if fb.Some? {
      FramebufferMarks(rs, fb.value);
      FrameAndOverlapStay(rs, fb.value, Device, m, a, image);
      FrameAndOverlapStay(rs, fb.value, Device, m, a, stack);
    }
    GivenFits(m, image, a);
    var m1 := Given(m, image).value;
    GivenMarks(m, image);
    FrameAndOverlapStay(m, image, Kernel, m1, a, stack);
    GivenFits(m1, stack, a);
    var m2 := Given(m1, stack).value;
    FrameMeansRun(m2, a);
    HeapFits(m2);
  }

  lemma SmallFirmware(entries: seq<Descriptor>)
    requires entries == [Descriptor(0, 1024, CONVENTIONAL)]
    ensures AlignedFirmware(entries) && OrderedFirmware(entries) && DisjointFirmware(entries)
    ensures Copied(entries) == [MemoryRange(0, 0x40_0000, CONVENTIONAL, Usable)]
  {
  }

  lemma WindowInRange(r: MemoryRange, w: Window, a: int)
    requires ProperWindow(w) && r.start <= w.0 && EndOf(w) <= r.End() && (a + PAGE_SIZE <= w.0 || EndOf(w) <= a)
    ensures GoodWindow([r], w, a)
  {
    assert Overlaps([r][0], w.0, EndOf(w));
  }

  lemma PageEndsAreNeat(rs: Ranges, image: Window, stack: Window)
    requires EndOf(image) % PAGE_SIZE == 0 && EndOf(stack) % PAGE_SIZE == 0
    ensures NeatEnds(rs, AllWindows(None, image, stack))
  {
    assert AllWindows(None, image, stack) == [image, stack];
  }

  /** The demands on firmware and windows can be met: one usable region of four megabytes with image and stack in it. */
  lemma SmallMachine(entries: seq<Descriptor>, image: Window, stack: Window)
    requires entries == [Descriptor(0, 1024, CONVENTIONAL)] && image == (0x1000, 0x2000) && stack == (0xE_0000, 0x4_0000)
    ensures stack == StackWindow(0x10_0234)
    ensures AlignedFirmware(entries) && OrderedFirmware(entries) && DisjointFirmware(entries)
    ensures NeatEnds(Copied(entries), AllWindows(None, image, stack))
    ensures Run(entries, None, image, stack).Done?
  {
    var r := MemoryRange(0, 0x40_0000, CONVENTIONAL, Usable);
    OneRegionDone(entries, image, stack, r, 0x20_0000);
    PageEndsAreNeat([r], image, stack);
  }

  /** Where a usable range can start in a map of one region once windows are marked: where the region does, or right
      after a window. */
  lemma UsableStartsIn(r: MemoryRange, ws: seq<Window>, m: Ranges, o: nat)
    requires Marked([r], ws, m) && o < |m| && m[o].kind == Usable
    ensures m[o].start == r.start || Follows([r], ws, m[o].start, 1)
  {
    assert UsableFrom(m[o], m[o].start, 1) && EdgesMarked([r], ws, m, m[o].start, 1);
    EdgesOfOne(r, m[o].start, 1);
  }

  lemma NothingFollows(r: MemoryRange, image: Window, stack: Window, a: int)
    requires EndOf(image) == r.End() && EndOf(stack) == image.0 && ProperWindow(image)
    ensures !Follows([r], AllWindows(None, image, stack), a, 1)
  {
    var ws := AllWindows(None, image, stack);
    EdgesOfOne(r, a, 1);
    assert ws == [image, stack] && ws[0] == image;
  }

  /** Image and stack at the top of the one region: the heap starts at address zero. */
  lemma HeapAtZeroMachine(entries: seq<Descriptor>, image: Window, stack: Window)
    requires entries == [Descriptor(0, 1024, CONVENTIONAL)]
    requires image == (0x3F_0000, 0x1_0000) && stack == (0x3B_0000, 0x4_0000)
    ensures stack == StackWindow(0x3D_0234)
    ensures Run(entries, None, image, stack).Done? && Run(entries, None, image, stack).heap.start == 0
  {
    var r := MemoryRange(0, 0x40_0000, CONVENTIONAL, Usable);
    OneRegionDone(entries, image, stack, r, 0x1000);
    HeapAtStart(entries, image, stack, r);
  }

  lemma HeapAtStart(entries: seq<Descriptor>, image: Window, stack: Window, r: MemoryRange)
    requires Run(entries, None, image, stack).Done? && AllGood(entries) && Copied(entries) == [r]
    requires EndOf(image) == r.End() && EndOf(stack) == image.0 && ProperWindow(image)
    ensures Run(entries, None, image, stack).heap.start == r.start
  {
    var run := Run(entries, None, image, stack);
    DoneMeans(entries, None, image, stack, run.before, run.heap, run.map');
    AllWindowsMarked(entries, None, image, stack);
    var o := HeapIsLongest(run.before);
    UsableStartsIn(r, AllWindows(None, image, stack), run.before, o);
    NothingFollows(r, image, stack, run.before[o].start);
  }

  lemma FrameAfterImage(r: MemoryRange, image: Window, stack: Window)
    requires r.kind == Usable && ProperWindow(stack)
    ensures Follows([r], AllWindows(None, image, stack), EndOf(image), PAGE_SIZE) <==>
      r.start < EndOf(image) && EndOf(image) + PAGE_SIZE <= r.End() && !Meets(EndOf(image), PAGE_SIZE, stack)
  {
    var ws := AllWindows(None, image, stack);
    EdgesOfOne(r, EndOf(image), PAGE_SIZE);
    assert ws == [image, stack] && ws[0] == image && ws[1] == stack;
  }

  /** An image one byte longer than two pages: the hand-off works, and the frame table holds a run that starts off a page. */
  lemma UnneatMachine(entries: seq<Descriptor>, image: Window, stack: Window)
    requires entries == [Descriptor(0, 1024, CONVENTIONAL)] && image == (0x1000, 0x2001) && stack == (0xE_0000, 0x4_0000)
    ensures stack == StackWindow(0x10_0234)
    ensures Run(entries, None, image, stack).Done? && MapForFrames(entries, None, image, stack).Some?
    ensures !AllPaged(UsableRanges(MapForFrames(entries, None, image, stack).value))
  {
    var r := MemoryRange(0, 0x40_0000, CONVENTIONAL, Usable);
    OneRegionDone(entries, image, stack, r, 0x20_0000);
    FrameAfterImage(r, image, stack);
    assert AllWindows(None, image, stack)[0] == image;
    TableIsPagedIffNeat(entries, None, image, stack);
  }

  /** The same image with the stack less than a page after it: the map keeps a usable sliver off a page, and the table is
      as it should be. */
  lemma SliverMachine(entries: seq<Descriptor>, image: Window, stack: Window)
    requires entries == [Descriptor(0, 1024, CONVENTIONAL)] && image == (0x1000, 0x2001) && stack == (0x4000, 0x4_0000)
    ensures stack == StackWindow(0x2_4234)
    ensures Run(entries, None, image, stack).Done? && MapForFrames(entries, None, image, stack).Some?
    ensures !StartsAligned(MapForFrames(entries, None, image, stack).value)
    ensures FrameReady(MapForFrames(entries, None, image, stack).value)
  {
    var r := MemoryRange(0, 0x40_0000, CONVENTIONAL, Usable);
    OneRegionDone(entries, image, stack, r, 0x20_0000);
    SliverIsNeat(r, image, stack);
    FrameReadyIffNeat(entries, None, image, stack);
    SliverStays(entries, image, stack, r);
  }

  lemma SliverIsNeat(r: MemoryRange, image: Window, stack: Window)
    requires r.kind == Usable && ProperWindow(stack) && EndOf(stack) % PAGE_SIZE == 0
    requires Meets(EndOf(image), PAGE_SIZE, stack)
    ensures NeatEnds([r], AllWindows(None, image, stack))
  {
    FrameAfterImage(r, image, stack);
    assert AllWindows(None, image, stack) == [image, stack];
  }

  lemma SliverStays(entries: seq<Descriptor>, image: Window, stack: Window, r: MemoryRange)
    requires MapForFrames(entries, None, image, stack).Some? && AllGood(entries) && Copied(entries) == [r]
    requires r.kind == Usable && r.start < EndOf(image) < stack.0 < r.End() && EndOf(image) % PAGE_SIZE != 0
    ensures !StartsAligned(MapForFrames(entries, None, image, stack).value)
  {
    var m, ws, a := MapForFrames(entries, None, image, stack).value, AllWindows(None, image, stack), EndOf(image);
    AllWindowsMarked(entries, None, image, stack);
    EdgesOfOne(r, a, 1);
    assert ws == [image, stack] && ws[0] == image;
    assert Follows([r], ws, a, 1) && EdgesMarked([r], ws, m, a, 1);
    var i :| 0 <= i < |m| && UsableFrom(m[i], a, 1);
  }

  lemma OneRegionDone(entries: seq<Descriptor>, image: Window, stack: Window, r: MemoryRange, a: int)
    requires entries == [Descriptor(0, 1024, CONVENTIONAL)] && r == MemoryRange(0, 0x40_0000, CONVENTIONAL, Usable)
    requires ProperWindow(image) && EndOf(image) <= r.End() && (a + PAGE_SIZE <= image.0 || EndOf(image) <= a)
    requires ProperWindow(stack) && EndOf(stack) <= r.End() && (a + PAGE_SIZE <= stack.0 || EndOf(stack) <= a)
    requires 0 <= a && a + PAGE_SIZE <= r.End()
    ensures AlignedFirmware(entries) && OrderedFirmware(entries) && DisjointFirmware(entries) && Copied(entries) == [r]
    ensures Run(entries, None, image, stack).Done? && MapForFrames(entries, None, image, stack).Some?
  {
    SmallFirmware(entries);
    WindowInRange(r, image, a);
    WindowInRange(r, stack, a);
    assert [r][0] == r && UsableStretch([r], a, a + PAGE_SIZE);
    HandOffSucceeds(entries, None, image, stack, a);
    var run := Run(entries, None, image, stack);
    DoneMeans(entries, None, image, stack, run.before, run.heap, run.map');
  }
}

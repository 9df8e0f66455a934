/** Physical 4 KiB frames: a fixed table of free runs built from the usable ranges of the memory map. */
module Frames {
  import opened Machine
  import opened Spans
  import opened FrameRuns
  import MemoryMap

  datatype FrameError = OutOfMemory | InvalidAddress | FreeRangeStorageFull

  datatype PhysicalRange = PhysicalRange(start: U64, length: U64)

  datatype FreeRange = FreeRange(start: U64, frames: U64) {
    function End(): U64 { SaturatingAdd(start, SaturatingMul(frames, PAGE_SIZE)) }
  }

  /** Non-empty and inside the address space. */
  predicate Spacious(r: FreeRange) { r.frames > 0 && r.start + r.frames * PAGE_SIZE <= U64_MAX }

  ghost predicate AllSpacious(rs: seq<FreeRange>) { forall i :: 0 <= i < |rs| ==> Spacious(rs[i]) }

  predicate Paged(r: FreeRange) { r.start % PAGE_SIZE == 0 && Spacious(r) }

  ghost predicate AllPaged(rs: seq<FreeRange>) { forall i :: 0 <= i < |rs| ==> Paged(rs[i]) }

  function PageSpan(r: FreeRange): Span { Span(r.start / PAGE_SIZE, r.frames) }

  /** A table of byte ranges as spans of page numbers. */
  function PageSpans(rs: seq<FreeRange>): (s: seq<Span>)
    ensures |s| == |rs| && forall i :: 0 <= i < |rs| ==> s[i] == PageSpan(rs[i])
  {
    seq(|rs|, i requires 0 <= i < |rs| => PageSpan(rs[i]))
  }

  lemma PageSpansConcat(a: seq<FreeRange>, b: seq<FreeRange>)
    ensures PageSpans(a + b) == PageSpans(a) + PageSpans(b)
  {
  }

  // ------------------------------------------------- the usable part of the map

  predicate HasFrames(r: MemoryMap.MemoryRange) { r.kind == MemoryMap.Usable && r.length / PAGE_SIZE > 0 }

  /** The table `new` builds: one run for every usable range that holds a whole frame. */
  function UsableRanges(rs: MemoryMap.Ranges): (fs: seq<FreeRange>)
    ensures |fs| <= |rs|
  {
    if rs == [] then []
    else
      var last := rs[|rs| - 1];
      UsableRanges(rs[..|rs| - 1])
      + if HasFrames(last) then [FreeRange(last.start, last.length / PAGE_SIZE)] else []
  }

  /** What the frame allocator relies on: a table of page-aligned runs in address order that do not overlap. */
  ghost predicate FrameReady(rs: MemoryMap.Ranges) {
    AllPaged(UsableRanges(rs)) && Ascending(PageSpans(UsableRanges(rs)))
  }

  /** Every run stems from a usable range of the map. */
  lemma {:induction false} UsableRangeOrigin(rs: MemoryMap.Ranges, i: nat) returns (o: nat)
    requires i < |UsableRanges(rs)|
    ensures o < |rs| && HasFrames(rs[o])
    ensures UsableRanges(rs)[i] == FreeRange(rs[o].start, rs[o].length / PAGE_SIZE)
  {
    var rest := rs[..|rs| - 1];
    if i < |UsableRanges(rest)| { o := UsableRangeOrigin(rest, i); } else { o := |rs| - 1; }
  }

  /** Two runs stem from two usable ranges, in the same order. */
  lemma {:induction false} UsableRangeOrigins(rs: MemoryMap.Ranges, i: nat, j: nat) returns (o: nat, q: nat)
    requires i < j < |UsableRanges(rs)|
    ensures o < q < |rs| && HasFrames(rs[o]) && HasFrames(rs[q])
    ensures UsableRanges(rs)[i] == FreeRange(rs[o].start, rs[o].length / PAGE_SIZE)
    ensures UsableRanges(rs)[j] == FreeRange(rs[q].start, rs[q].length / PAGE_SIZE)
  {
    var rest := rs[..|rs| - 1];
    if j < |UsableRanges(rest)| {
      o, q := UsableRangeOrigins(rest, i, j);
    } else {
      o := UsableRangeOrigin(rest, i);
      q := |rs| - 1;
    }
  }

  /** The table lists a run exactly for every usable range of at least 4096 bytes: it starts where the range does and has
      all its whole frames. */
  lemma {:induction false} ListedIff(rs: MemoryMap.Ranges, f: FreeRange)
    ensures f in UsableRanges(rs) <==> exists i :: 0 <= i < |rs| && IsRunOf(rs[i], f)
  {
    if rs != [] {
      var rest, last := rs[..|rs| - 1], rs[|rs| - 1];
      ListedIff(rest, f);
      if i :| 0 <= i < |rs| && IsRunOf(rs[i], f) {
        assert i < |rest| ==> rest[i] == rs[i];
      }
      if i :| 0 <= i < |rest| && IsRunOf(rest[i], f) { assert rs[i] == rest[i]; }
    }
  }

  predicate IsRunOf(r: MemoryMap.MemoryRange, f: FreeRange) {
    r.kind == MemoryMap.Usable && r.length >= 4096 && f.start == r.start && f.frames == r.length / 4096
  }

  /** Usable ranges in address order give runs in address order. */
  lemma UsableRangesSound(rs: MemoryMap.Ranges)
    requires MemoryMap.AllProper(rs) && MemoryMap.UsableAscending(rs) && AllPaged(UsableRanges(rs))
    ensures FrameReady(rs)
  {
    var s := PageSpans(UsableRanges(rs));
    forall i, j | 0 <= i < j < |s| ensures s[i].End() <= s[j].start {
      var o, q := UsableRangeOrigins(rs, i, j);
      assert rs[o].End() <= rs[q].start;
    }
  }

  /** Every run the table lists lies inside the address space, whatever the order of the map. */
  lemma UsableRangesSpacious(rs: MemoryMap.Ranges)
    requires MemoryMap.AllProper(rs)
    ensures AllSpacious(UsableRanges(rs))
  {
    forall i | 0 <= i < |UsableRanges(rs)| ensures Spacious(UsableRanges(rs)[i]) {
      var o := UsableRangeOrigin(rs, i);
    }
  }

  /** What the fixed table can hold. */
  function Kept(fs: seq<FreeRange>): seq<FreeRange> { if |fs| <= MAX_MEMORY_RANGES then fs else fs[..MAX_MEMORY_RANGES] }

  lemma KeptNext(fs: seq<FreeRange>, f: FreeRange)
    ensures Kept(fs + [f]) == if |Kept(fs)| < MAX_MEMORY_RANGES then Kept(fs) + [f] else Kept(fs)
    ensures Total(PageSpans(Kept(fs) + [f])) == Total(PageSpans(Kept(fs))) + f.frames
  {
    PageSpansConcat(Kept(fs), [f]);
    assert PageSpans([f]) == [PageSpan(f)];
    TotalConcat(PageSpans(Kept(fs)), [PageSpan(f)]);
    assert [PageSpan(f)][1..] == [];
  }

  /** What one more entry of the map adds to the table. */
  lemma UsableNext(rs: MemoryMap.Ranges, i: nat)
    requires i < |rs|
    ensures var t, f := Kept(UsableRanges(rs[..i])), FreeRange(rs[i].start, rs[i].length / PAGE_SIZE);
      && Kept(UsableRanges(rs[..i + 1])) == (if HasFrames(rs[i]) && |t| < MAX_MEMORY_RANGES then t + [f] else t)
      && Total(PageSpans(t + [f])) == Total(PageSpans(t)) + f.frames
  {
    assert rs[..i + 1][..i] == rs[..i];
    KeptNext(UsableRanges(rs[..i]), FreeRange(rs[i].start, rs[i].length / PAGE_SIZE));
  }

  lemma ReadyTableIsSound(rs: MemoryMap.Ranges, f: FrameState)
    requires FrameReady(rs) && |rs| <= MAX_MEMORY_RANGES && f.table == f.managed == Kept(UsableRanges(rs))
    requires f.freeFrames == f.totalFrames == Min(Total(f.Free()), U64_MAX)
    ensures Sound(f) && f.table == UsableRanges(rs)
  {
    PagesInAddressSpace(UsableRanges(rs));
  }

  /** No run is longer than all of them together. */
  lemma {:induction false} RunWithinTotal(rs: seq<FreeRange>, k: nat)
    requires k < |rs|
    ensures rs[k].frames <= Total(PageSpans(rs)) && 0 <= Total(PageSpans(rs))
  {
    assert PageSpans(rs)[1..] == PageSpans(rs[1..]);
    if k > 0 { RunWithinTotal(rs[1..], k - 1); } else if |rs| > 1 { RunWithinTotal(rs[1..], 0); }
  }

  // ------------------------------------------------------------------ the state

  datatype FrameState = FrameState(
    table: seq<FreeRange>, managed: seq<FreeRange>, totalFrames: int, freeFrames: int)
  {
    function Free(): seq<Span> { PageSpans(table) }

    function Managed(): seq<Span> { PageSpans(managed) }
  }

  ghost predicate Sound(f: FrameState) {
    && AllPaged(f.table) && AllPaged(f.managed) && Ascending(f.Free()) && Ascending(f.Managed())
    && (forall p :: Covers(f.Free(), p) ==> Covers(f.Managed(), p))
    && f.freeFrames == Total(f.Free()) && f.totalFrames == Total(f.Managed())
  }

  lemma PagesInAddressSpace(rs: seq<FreeRange>)
    requires AllPaged(rs) && Ascending(PageSpans(rs))
    ensures 0 <= Total(PageSpans(rs)) <= U64_MAX / PAGE_SIZE
  {
    TotalBound(PageSpans(rs), U64_MAX / PAGE_SIZE);
  }

  /** Takes `n` frames off the front of run `k`. */
  function TakeFrames(rs: seq<FreeRange>, k: nat, n: int): seq<FreeRange>
    requires k < |rs| && Spacious(rs[k]) && 0 < n <= rs[k].frames
  {
    if rs[k].frames == n then rs[..k] + rs[k + 1..]
    else rs[k := FreeRange(rs[k].start + n * PAGE_SIZE, rs[k].frames - n)]
  }

  lemma TakeFramesSpans(rs: seq<FreeRange>, k: nat, n: int)
    requires k < |rs| && Spacious(rs[k]) && 0 < n <= rs[k].frames
    ensures PageSpans(TakeFrames(rs, k, n)) == TakeFront(PageSpans(rs), k, n)
  {
  }

  lemma TakeFramesIsTakeFront(rs: seq<FreeRange>, k: nat, n: int)
    requires AllSpacious(rs) && k < |rs| && 0 < n <= rs[k].frames
    ensures AllSpacious(TakeFrames(rs, k, n)) && (AllPaged(rs) ==> AllPaged(TakeFrames(rs, k, n)))
    ensures PageSpans(TakeFrames(rs, k, n)) == TakeFront(PageSpans(rs), k, n)
  {
    TakeFramesSpans(rs, k, n);
  }

  function Taken(f: FrameState, k: nat, n: int): FrameState
    requires k < |f.table| && Spacious(f.table[k]) && 0 < n <= f.table[k].frames
  {
    f.(table := TakeFrames(f.table, k, n), freeFrames := f.freeFrames - n)
  }

  /** What handing out frames relies on, and keeps: runs inside the address space, and the count of their frames. */
  ghost predicate Counted(f: FrameState) { AllSpacious(f.table) && f.freeFrames == Total(f.Free()) }

  lemma TakingIsCounted(f: FrameState, k: nat, n: int)
    requires Counted(f) && k < |f.table| && 0 < n <= f.table[k].frames
    ensures Counted(Taken(f, k, n)) && n <= f.freeFrames
  {
    TakeFramesIsTakeFront(f.table, k, n);
    if f.table[k].frames == n { WithoutTotal(f.Free(), k); } else { ShrinkTotal(f.Free(), k, n); }
    RunWithinTotal(f.table, k);
  }

  /** The table is small enough for the count of its frames never to saturate. */
  lemma {:induction false} SpaciousTotal(rs: seq<FreeRange>)
    requires AllSpacious(rs)
    ensures 0 <= Total(PageSpans(rs)) <= |rs| * (U64_MAX / PAGE_SIZE)
  {
    if rs != [] {
      assert PageSpans(rs)[1..] == PageSpans(rs[1..]);
      SpaciousTotal(rs[1..]);
    }
  }

  lemma KeptIsCounted(rs: MemoryMap.Ranges, f: FrameState)
    requires MemoryMap.AllProper(rs) && f.table == Kept(UsableRanges(rs)) && f.freeFrames == Min(Total(f.Free()), U64_MAX)
    ensures Counted(f)
  {
    UsableRangesSpacious(rs);
    SpaciousTotal(f.table);
  }

  lemma TakingIsSound(f: FrameState, k: nat, n: int)
    requires Sound(f) && k < |f.table| && 0 < n <= f.table[k].frames
    ensures Sound(Taken(f, k, n)) && n <= f.freeFrames
    ensures Taken(f, k, n).Free() == TakeFront(f.Free(), k, n)
  {
    TakeFramesIsTakeFront(f.table, k, n);
    TakeFrontEffect(f.Free(), k, n);
    PagesInAddressSpace(TakeFrames(f.table, k, n));
  }

  /** A free page next to a run, in terms of the free set alone. */
  ghost predicate NextToFree(s: seq<Span>, page: int) { Covers(s, page - 1) || Covers(s, page + 1) }

  lemma JoinsMeansNeighbour(s: seq<Span>, page: int)
    requires Ascending(s) && !Covers(s, page)
    ensures JoinsLeft(s, Span(page, 1)) <==> Covers(s, page - 1)
    ensures JoinsRight(s, Span(page, 1)) <==> Covers(s, page + 1)
  {
    var b, k := Span(page, 1), Position(s, page);
    NotCoveredIsApart(s, page);
    InsertPosition(s, b);
    if JoinsLeft(s, b) { assert s[k - 1].Has(page - 1); }
    if JoinsRight(s, b) { assert s[k].Has(page + 1); }
    if Covers(s, page - 1) {
      var i :| 0 <= i < |s| && s[i].Has(page - 1);
      assert i < k;
      if i < k - 1 { assert s[i].End() <= s[k - 1].start; }
    }
    if Covers(s, page + 1) {
      var i :| 0 <= i < |s| && s[i].Has(page + 1);
      assert i >= k;
      if i > k { assert s[k].End() <= s[i].start; }
    }
  }

  lemma ReleasingIsSound(f: FrameState, table: seq<FreeRange>, page: int)
    requires Sound(f) && Covers(f.Managed(), page) && !Covers(f.Free(), page)
    requires AllPaged(table) && PageSpans(table) == Insert(f.Free(), Span(page, 1))
    ensures Sound(f.(table := table, freeFrames := f.freeFrames + 1))
  {
    NotCoveredIsApart(f.Free(), page);
    InsertKeepsOrder(f.Free(), Span(page, 1));
    InsertCovers(f.Free(), Span(page, 1));
    InsertTotal(f.Free(), Span(page, 1));
  }

  lemma LastLongestIs(s: seq<Span>, k: nat)
    requires k < |s|
    requires forall i :: 0 <= i < |s| ==> s[i].length <= s[k].length
    requires forall i :: k < i < |s| ==> s[i].length != s[k].length
    ensures k == LastLongest(s)
  {
    var m := LastLongest(s);
  }

  // -------------------------------------------------------- the checks of release

  predicate HoldsPage(r: FreeRange, address: U64) {
    address >= r.start && SaturatingAdd(address, PAGE_SIZE) <= r.End()
  }

  lemma HoldsPageMeans(r: FreeRange, address: U64)
    requires Paged(r) && address % PAGE_SIZE == 0
    ensures HoldsPage(r, address) <==> PageSpan(r).Has(address / PAGE_SIZE)
    ensures HoldsPage(r, address) ==> address + PAGE_SIZE <= U64_MAX
  {
  }

  /** Index of the first run at or after `address`. */
  ghost predicate IsPlace(rs: seq<FreeRange>, address: U64, k: nat) {
    && k <= |rs|
    && (forall i :: 0 <= i < k ==> rs[i].start < address)
    && (k < |rs| ==> address <= rs[k].start)
  }

  function Place(rs: seq<FreeRange>, address: U64): (k: nat)
    ensures IsPlace(rs, address, k)
  {
    if rs == [] || rs[0].start >= address then 0 else 1 + Place(rs[1..], address)
  }

  lemma {:induction false} PlaceIs(rs: seq<FreeRange>, address: U64, k: nat)
    requires IsPlace(rs, address, k)
    ensures k == Place(rs, address)
  {
    if k > 0 { PlaceIs(rs[1..], address, k - 1); }
  }

  predicate Collides(rs: seq<FreeRange>, k: nat, address: U64)
    requires k <= |rs|
  {
    (k > 0 && rs[k - 1].End() > address) || (k < |rs| && SaturatingAdd(address, PAGE_SIZE) > rs[k].start)
  }

  lemma PlaceIsPosition(rs: seq<FreeRange>, address: U64, k: nat)
    requires AllPaged(rs) && address % PAGE_SIZE == 0 && IsPlace(rs, address, k)
    ensures k == Position(PageSpans(rs), address / PAGE_SIZE)
  {
    var s, p := PageSpans(rs), Position(PageSpans(rs), address / PAGE_SIZE);
    assert k < |rs| ==> address / PAGE_SIZE <= s[k].start;
    assert p < |rs| ==> address <= rs[p].start;
  }

  lemma CollisionIsFree(rs: seq<FreeRange>, k: nat, address: U64)
    requires AllPaged(rs) && IsPlace(rs, address, k) && Collides(rs, k, address)
    requires address % PAGE_SIZE == 0 && address + PAGE_SIZE <= U64_MAX
    ensures Covers(PageSpans(rs), address / PAGE_SIZE)
  {
    var i := if k > 0 && rs[k - 1].End() > address then k - 1 else k;
    assert PageSpans(rs)[i].Has(address / PAGE_SIZE);
  }

  /** A run holding the page either starts before it and ends after it, or starts with it. */
  lemma HoldsPageInside(r: FreeRange, address: U64)
    requires Paged(r) && address % PAGE_SIZE == 0 && PageSpan(r).Has(address / PAGE_SIZE)
    ensures r.start <= address < r.End()
  {
  }

  /** A free page lies in the run before its place or in the one at it. */
  lemma FreePageIsNear(rs: seq<FreeRange>, k: nat, address: U64) returns (i: nat)
    requires AllPaged(rs) && Ascending(PageSpans(rs)) && IsPlace(rs, address, k)
    requires address % PAGE_SIZE == 0 && Covers(PageSpans(rs), address / PAGE_SIZE)
    ensures i < |rs| && (i == k - 1 || i == k) && rs[i].start <= address < rs[i].End()
  {
    var s, page := PageSpans(rs), address / PAGE_SIZE;
    forall j | 0 <= j < k - 1 ensures !s[j].Has(page) { assert s[j].End() <= s[k - 1].start; }
    i :| 0 <= i < |s| && s[i].Has(page);
    HoldsPageInside(rs[i], address);
  }

  lemma FreeMeansCollision(rs: seq<FreeRange>, k: nat, address: U64)
    requires AllPaged(rs) && Ascending(PageSpans(rs)) && IsPlace(rs, address, k)
    requires Covers(PageSpans(rs), address / PAGE_SIZE)
    requires address % PAGE_SIZE == 0 && address + PAGE_SIZE <= U64_MAX
    ensures Collides(rs, k, address)
  {
    var i := FreePageIsNear(rs, k, address);
  }

  lemma CollidesMeansFree(rs: seq<FreeRange>, k: nat, address: U64)
    requires AllPaged(rs) && Ascending(PageSpans(rs)) && IsPlace(rs, address, k)
    requires address % PAGE_SIZE == 0 && address + PAGE_SIZE <= U64_MAX
    ensures Collides(rs, k, address) <==> Covers(PageSpans(rs), address / PAGE_SIZE)
  {
    if Collides(rs, k, address) { CollisionIsFree(rs, k, address); }
    if Covers(PageSpans(rs), address / PAGE_SIZE) { FreeMeansCollision(rs, k, address); }
  }

  // --------------------------------------------------------- the table after release

  predicate ExtendsPrevious(rs: seq<FreeRange>, k: nat, address: U64)
    requires k <= |rs|
  {
    k > 0 && rs[k - 1].End() == address
  }

  predicate ExtendsNext(rs: seq<FreeRange>, k: nat, address: U64)
    requires k <= |rs|
  {
    k < |rs| && SaturatingAdd(address, PAGE_SIZE) == rs[k].start
  }

  /** The page at `address` with the runs it touches. */
  function JoinedRun(rs: seq<FreeRange>, k: nat, address: U64): FreeRange
    requires AllSpacious(rs) && k <= |rs|
  {
    FreeRange(if ExtendsPrevious(rs, k, address) then rs[k - 1].start else address,
              (if ExtendsPrevious(rs, k, address) then rs[k - 1].frames else 0) + 1
              + if ExtendsNext(rs, k, address) then rs[k].frames else 0)
  }

  /** The page joined to the run before it, to the one after it, to both, or on its own. */
  function ReleasedTable(rs: seq<FreeRange>, k: nat, address: U64): seq<FreeRange>
    requires AllSpacious(rs) && k <= |rs|
  {
    rs[..if ExtendsPrevious(rs, k, address) then k - 1 else k]
    + [JoinedRun(rs, k, address)]
    + rs[if ExtendsNext(rs, k, address) then k + 1 else k..]
  }

  lemma GrownEnd(r: FreeRange, address: U64)
    requires Spacious(r) && r.End() == address
    ensures r.frames < U64_MAX && FreeRange(r.start, r.frames + 1).End() == SaturatingAdd(address, PAGE_SIZE)
  {
  }

  /** The run before the page grows in place, and swallows the next one if that touches. */
  lemma GrownTable(rs: seq<FreeRange>, k: nat, address: U64)
    requires AllSpacious(rs) && k <= |rs| && ExtendsPrevious(rs, k, address)
    ensures var grown := rs[k - 1].frames + 1;
      ReleasedTable(rs, k, address) == if !ExtendsNext(rs, k, address) then rs[k - 1 := FreeRange(rs[k - 1].start, grown)]
        else var t := rs[k - 1 := FreeRange(rs[k - 1].start, grown + rs[k].frames)]; t[..k] + t[k + 1..]
  {
  }

  /** The joined run ends where the page does or where the run it swallowed did. */
  lemma JoinedIsSpacious(rs: seq<FreeRange>, k: nat, address: U64)
    requires AllSpacious(rs) && k <= |rs| && address + PAGE_SIZE <= U64_MAX
    ensures Spacious(JoinedRun(rs, k, address))
    ensures AllPaged(rs) && address % PAGE_SIZE == 0 ==> Paged(JoinedRun(rs, k, address))
  {
  }

  lemma SplicedSpacious(rs: seq<FreeRange>, lo: nat, hi: nat, r: FreeRange)
    requires AllSpacious(rs) && Spacious(r) && lo <= hi <= |rs|
    ensures AllSpacious(rs[..lo] + [r] + rs[hi..])
    ensures AllPaged(rs) && Paged(r) ==> AllPaged(rs[..lo] + [r] + rs[hi..])
  {
  }

  lemma ReleasedIsSpacious(rs: seq<FreeRange>, k: nat, address: U64)
    requires AllSpacious(rs) && k <= |rs| && address + PAGE_SIZE <= U64_MAX
    ensures AllSpacious(ReleasedTable(rs, k, address))
    ensures AllPaged(rs) && address % PAGE_SIZE == 0 ==> AllPaged(ReleasedTable(rs, k, address))
  {
    JoinedIsSpacious(rs, k, address);
    SplicedSpacious(rs, if ExtendsPrevious(rs, k, address) then k - 1 else k,
                    if ExtendsNext(rs, k, address) then k + 1 else k, JoinedRun(rs, k, address));
  }

  lemma ExtendsMeansJoins(rs: seq<FreeRange>, k: nat, address: U64)
    requires AllPaged(rs) && IsPlace(rs, address, k)
    requires address % PAGE_SIZE == 0 && address + PAGE_SIZE <= U64_MAX
    ensures var s, b := PageSpans(rs), Span(address / PAGE_SIZE, 1);
      && k == Position(s, b.start)
      && (ExtendsPrevious(rs, k, address) <==> JoinsLeft(s, b))
      && (ExtendsNext(rs, k, address) <==> JoinsRight(s, b))
  {
    PlaceIsPosition(rs, address, k);
  }

  lemma PageSpansSplice(rs: seq<FreeRange>, lo: nat, hi: nat, r: FreeRange)
    requires lo <= hi <= |rs|
    ensures PageSpans(rs[..lo] + [r] + rs[hi..]) == Splice(PageSpans(rs), lo, hi, PageSpan(r))
  {
  }

  lemma ReleasedIsInsert(rs: seq<FreeRange>, k: nat, address: U64)
    requires AllPaged(rs) && IsPlace(rs, address, k)
    requires address % PAGE_SIZE == 0 && address + PAGE_SIZE <= U64_MAX
    ensures AllPaged(ReleasedTable(rs, k, address))
    ensures PageSpans(ReleasedTable(rs, k, address)) == Insert(PageSpans(rs), Span(address / PAGE_SIZE, 1))
  {
    ExtendsMeansJoins(rs, k, address);
    ReleasedIsSpacious(rs, k, address);
    PageSpansSplice(rs, if ExtendsPrevious(rs, k, address) then k - 1 else k,
                    if ExtendsNext(rs, k, address) then k + 1 else k, JoinedRun(rs, k, address));
  }

  /** One frame more, whatever the page joins. */
  lemma ReleasedTotal(rs: seq<FreeRange>, k: nat, address: U64)
    requires AllSpacious(rs) && k <= |rs|
    ensures Total(PageSpans(ReleasedTable(rs, k, address))) == Total(PageSpans(rs)) + 1
  {
    var lo := if ExtendsPrevious(rs, k, address) then k - 1 else k;
    var hi := if ExtendsNext(rs, k, address) then k + 1 else k;
    var s := PageSpans(rs);
    PageSpansSplice(rs, lo, hi, JoinedRun(rs, k, address));
    SpliceTotal(s, lo, hi, PageSpan(JoinedRun(rs, k, address)));
    TotalConcat(s[lo..k], s[k..hi]);
    assert s[lo..hi] == s[lo..k] + s[k..hi];
    assert s[lo..k] == if lo < k then [s[k - 1]] else [];
    assert s[k..hi] == if k < hi then [s[k]] else [];
  }

  function GivenBack(f: FrameState, k: nat, address: U64): FrameState
    requires AllSpacious(f.table) && k <= |f.table|
  {
    f.(table := ReleasedTable(f.table, k, address), freeFrames := Min(f.freeFrames + 1, U64_MAX))
  }

  lemma GivingBackIsCounted(f: FrameState, k: nat, address: U64)
    requires Counted(f) && |f.table| <= MAX_MEMORY_RANGES && k <= |f.table| && address + PAGE_SIZE <= U64_MAX
    ensures Counted(GivenBack(f, k, address))
  {
    ReleasedIsSpacious(f.table, k, address);
    ReleasedTotal(f.table, k, address);
    SpaciousTotal(f.table);
  }

  /** The checks of `release`: an aligned page inside a managed run that no run next to its place reaches into. */
  ghost predicate Accepts(managed: seq<FreeRange>, rs: seq<FreeRange>, address: U64) {
    && address % PAGE_SIZE == 0 && InRuns(managed, address)
    && !Collides(rs, Place(rs, address), address)
  }

  predicate InRuns(rs: seq<FreeRange>, address: U64) { exists j :: 0 <= j < |rs| && HoldsPage(rs[j], address) }

  predicate HasRoom(rs: seq<FreeRange>, address: U64) {
    var k := Place(rs, address);
    ExtendsPrevious(rs, k, address) || ExtendsNext(rs, k, address) || |rs| < MAX_MEMORY_RANGES
  }

  /** Holding a page, among aligned runs, is covering it. */
  lemma InRunsMeans(rs: seq<FreeRange>, address: U64)
    requires AllPaged(rs) && address % PAGE_SIZE == 0
    ensures InRuns(rs, address) <==> Covers(PageSpans(rs), address / PAGE_SIZE)
    ensures InRuns(rs, address) ==> address + PAGE_SIZE <= U64_MAX
  {
    forall j | 0 <= j < |rs| ensures HoldsPage(rs[j], address) <==> PageSpans(rs)[j].Has(address / PAGE_SIZE) {
      HoldsPageMeans(rs[j], address);
    }
    if j :| 0 <= j < |rs| && HoldsPage(rs[j], address) { HoldsPageMeans(rs[j], address); }
  }

  /** On a sound state the checks pass exactly for an aligned managed page that is not free. */
  lemma AcceptsMeans(f: FrameState, address: U64)
    requires Sound(f)
    ensures Accepts(f.managed, f.table, address) <==>
      && address % PAGE_SIZE == 0 && Covers(f.Managed(), address / PAGE_SIZE) && !Covers(f.Free(), address / PAGE_SIZE)
    ensures Accepts(f.managed, f.table, address) ==> address + PAGE_SIZE <= U64_MAX
  {
    if address % PAGE_SIZE == 0 {
      InRunsMeans(f.managed, address);
      if InRuns(f.managed, address) { CollidesMeansFree(f.table, Place(f.table, address), address); }
    }
  }

  /** Everything a successful release does to a sound state, and when it needs no new run. */
  lemma ReleaseEffect(f: FrameState, address: U64)
    requires Sound(f) && Accepts(f.managed, f.table, address)
    ensures var k, page := Place(f.table, address), address / PAGE_SIZE;
      && Sound(GivenBack(f, k, address)) && f.freeFrames + 1 <= U64_MAX
      && Step(f.Managed(), f.Free(), Released(page), PageSpans(ReleasedTable(f.table, k, address)))
      && (ExtendsPrevious(f.table, k, address) || ExtendsNext(f.table, k, address) <==> NextToFree(f.Free(), page))
  {
    var k := Place(f.table, address);
    AcceptsMeans(f, address);
    JoinsMeansNeighbour(f.Free(), address / PAGE_SIZE);
    ExtendsMeansJoins(f.table, k, address);
    ReleasedIsInsert(f.table, k, address);
    ReleasingIsSound(f, ReleasedTable(f.table, k, address), address / PAGE_SIZE);
    PagesInAddressSpace(f.table);
  }

  /** One successful call as it changes the table, whatever the order of the runs. */
  ghost predicate TableStep(managed: seq<FreeRange>, rs: seq<FreeRange>, e: Event, rs': seq<FreeRange>) {
    match e
    case Allocated(page) =>
      rs != [] && Spacious(rs[0]) && page == rs[0].start / PAGE_SIZE && rs' == TakeFrames(rs, 0, 1)
    case AllocatedRun(start, count) =>
      && rs != []
      && var k := LastLongest(PageSpans(rs));
         Spacious(rs[k]) && 0 < count <= rs[k].frames && start == rs[k].start / PAGE_SIZE && rs' == TakeFrames(rs, k, count)
    case Released(page) =>
      && AllSpacious(rs) && 0 <= page * PAGE_SIZE <= U64_MAX
      && Accepts(managed, rs, page * PAGE_SIZE) && HasRoom(rs, page * PAGE_SIZE)
      && rs' == ReleasedTable(rs, Place(rs, page * PAGE_SIZE), page * PAGE_SIZE)
  }

  lemma TakenIsStep(f: FrameState, k: nat, n: int)
    requires Counted(f) && k < |f.table| && 0 < n <= f.table[k].frames
    ensures k == 0 && n == 1 ==>
      TableStep(f.managed, f.table, Allocated(f.table[k].start / PAGE_SIZE), Taken(f, k, n).table)
    ensures k == LastLongest(f.Free()) ==>
      TableStep(f.managed, f.table, AllocatedRun(f.table[k].start / PAGE_SIZE, n), Taken(f, k, n).table)
  {
  }

  /** A call that hands out frames, in terms of the free set alone. */
  ghost predicate ServedSoundly(f: FrameState, e: Event, f': FrameState) {
    Sound(f') && f'.managed == f.managed && Step(f.Managed(), f.Free(), e, f'.Free())
  }

  lemma TakenIsServed(f: FrameState, k: nat, n: int)
    requires Sound(f) && k < |f.table| && 0 < n <= f.table[k].frames
    ensures k == 0 && n == 1 ==> ServedSoundly(f, Allocated(f.table[k].start / PAGE_SIZE), Taken(f, k, n))
    ensures k == LastLongest(f.Free()) ==>
      ServedSoundly(f, AllocatedRun(f.table[k].start / PAGE_SIZE, n), Taken(f, k, n))
  {
    TakingIsSound(f, k, n);
  }

  /** What `release` answers, on any state. */
  ghost function ReleaseAnswer(f: FrameState, address: U64): Result<(), FrameError> {
    if !Accepts(f.managed, f.table, address) then Err(InvalidAddress)
    else if !HasRoom(f.table, address) then Err(FreeRangeStorageFull)
    else Ok(())
  }

  /** What it leaves behind. */
  ghost function AfterRelease(f: FrameState, address: U64): FrameState
    requires AllSpacious(f.table)
  {
    if ReleaseAnswer(f, address).Ok? then GivenBack(f, Place(f.table, address), address) else f
  }

  lemma ReleaseIsStep(f: FrameState, address: U64)
    requires Counted(f) && |f.table| <= MAX_MEMORY_RANGES
    ensures address + PAGE_SIZE <= U64_MAX ==> Counted(AfterRelease(f, address))
    ensures ReleaseAnswer(f, address).Ok? ==>
      TableStep(f.managed, f.table, Released(address / PAGE_SIZE), AfterRelease(f, address).table)
  {
    if address + PAGE_SIZE <= U64_MAX { GivingBackIsCounted(f, Place(f.table, address), address); }
    assert address % PAGE_SIZE == 0 ==> address / PAGE_SIZE * PAGE_SIZE == address;
  }

  /** A release in terms of the free set alone: which of the errors occurs, and what is free then. */
  ghost predicate ReleasedSoundly(f: FrameState, address: U64, r: Result<(), FrameError>, f': FrameState) {
    var page, free := address / PAGE_SIZE, f.Free();
    && Sound(f')
    && r == (if address % PAGE_SIZE != 0 || !Covers(f.Managed(), page) || Covers(free, page) then Err(InvalidAddress)
             else if |free| >= MAX_MEMORY_RANGES && !NextToFree(free, page) then Err(FreeRangeStorageFull)
             else Ok(()))
    && (if r.Ok? then f'.managed == f.managed && Step(f.Managed(), free, Released(page), f'.Free()) else f' == f)
  }

  /** On a sound state `release` takes back exactly the managed pages that are not free. */
  lemma ReleaseIsSound(f: FrameState, address: U64)
    requires Sound(f)
    ensures AllSpacious(f.table) && ReleasedSoundly(f, address, ReleaseAnswer(f, address), AfterRelease(f, address))
  {
    AcceptsMeans(f, address);
    if Accepts(f.managed, f.table, address) { ReleaseEffect(f, address); }
  }

  // ------------------------------------------------------------------ the allocator

  class FrameAllocator {
    const ranges: array<FreeRange>
    var rangeCount: nat
    const managed: array<FreeRange>
    var managedCount: nat
    var totalFrames: U64
    var freeFrames: U64

    ghost predicate Fixed()
      reads this
    {
      && ranges.Length == MAX_MEMORY_RANGES && managed.Length == MAX_MEMORY_RANGES && ranges != managed
      && rangeCount <= MAX_MEMORY_RANGES && managedCount <= MAX_MEMORY_RANGES
    }

    ghost function State(): FrameState
      requires Fixed()
      reads this, ranges, managed
    {
      FrameState(ranges[..rangeCount], managed[..managedCount], totalFrames, freeFrames)
    }

    ghost predicate Valid()
      reads this, ranges, managed
    {
      Fixed() && Sound(State())
    }

    /** Lists the usable ranges as they come, as far as the table reaches; the other operations rely on more. */
    constructor (rs: seq<MemoryMap.MemoryRange>)
      ensures Fixed() && fresh(ranges) && fresh(managed)
      ensures State().table == State().managed == Kept(UsableRanges(rs))
      ensures freeFrames == totalFrames == Min(Total(State().Free()), U64_MAX)
      ensures MemoryMap.AllProper(rs) ==> Counted(State())
      ensures FrameReady(rs) && |rs| <= MAX_MEMORY_RANGES ==> Valid() && State().table == UsableRanges(rs)
    {
      ranges := new FreeRange[MAX_MEMORY_RANGES](_ => FreeRange(0, 0));
      managed := new FreeRange[MAX_MEMORY_RANGES](_ => FreeRange(0, 0));
      rangeCount, managedCount, totalFrames, freeFrames := 0, 0, 0, 0;
      new;
      AddUsable(rs);
      if MemoryMap.AllProper(rs) { KeptIsCounted(rs, State()); }
      if FrameReady(rs) && |rs| <= MAX_MEMORY_RANGES { ReadyTableIsSound(rs, State()); }
    }

    /** The loop of `new`: every usable range with a whole frame, as long as both tables have room. */
    method AddUsable(rs: seq<MemoryMap.MemoryRange>)
      requires Fixed() && rangeCount == managedCount == 0 && totalFrames == freeFrames == 0
      modifies this, ranges, managed
      ensures Fixed() && State().table == State().managed == Kept(UsableRanges(rs))
      ensures freeFrames == totalFrames == Min(Total(State().Free()), U64_MAX)
    {
      for i := 0 to |rs|
        invariant Fixed() && State().table == State().managed == Kept(UsableRanges(rs[..i]))
        invariant totalFrames == freeFrames == Min(Total(State().Free()), U64_MAX)
      {
        UsableNext(rs, i);
        Consider(rs[i]);
      }
      assert rs[..|rs|] == rs;
    }

    /** The body of that loop. */
    method Consider(range: MemoryMap.MemoryRange)
      requires Fixed() && rangeCount == managedCount
      modifies this, ranges, managed
      ensures Fixed() && rangeCount == managedCount
      ensures var added := HasFrames(range) && old(rangeCount) < MAX_MEMORY_RANGES;
        var frames := range.length / PAGE_SIZE;
        && State().table == old(State().table) + (if added then [FreeRange(range.start, frames)] else [])
        && State().managed == old(State().managed) + (if added then [FreeRange(range.start, frames)] else [])
        && totalFrames == SaturatingAdd(old(totalFrames), if added then frames else 0)
        && freeFrames == SaturatingAdd(old(freeFrames), if added then frames else 0)
    {
      if range.kind != MemoryMap.Usable || rangeCount == MAX_MEMORY_RANGES || managedCount == MAX_MEMORY_RANGES {
        return;
      }
      var frames := range.length / PAGE_SIZE;
      if frames == 0 {
        return;
      }
      Append(FreeRange(range.start, frames));
    }

    /** Adds a free run to both tables. */
    method Append(range: FreeRange)
      requires Fixed() && rangeCount < MAX_MEMORY_RANGES && managedCount < MAX_MEMORY_RANGES
      modifies this, ranges, managed
      ensures Fixed() && rangeCount == old(rangeCount) + 1 && managedCount == old(managedCount) + 1
      ensures ranges[..rangeCount] == old(ranges[..rangeCount]) + [range]
      ensures managed[..managedCount] == old(managed[..managedCount]) + [range]
      ensures totalFrames == SaturatingAdd(old(totalFrames), range.frames)
      ensures freeFrames == SaturatingAdd(old(freeFrames), range.frames)
    {
      ranges[rangeCount] := range;
      rangeCount := rangeCount + 1;
      managed[managedCount] := range;
      managedCount := managedCount + 1;
      totalFrames := SaturatingAdd(totalFrames, range.frames);
      freeFrames := SaturatingAdd(freeFrames, range.frames);
    }

    /** Closes the gap at `index`. */
    method RemoveRange(index: nat)
      requires Fixed() && index < rangeCount
      modifies this`rangeCount, ranges
      ensures rangeCount == old(rangeCount) - 1
      ensures ranges[..rangeCount] == old(ranges[..index]) + old(ranges[index + 1..rangeCount])
    {
      for current := index to rangeCount - 1
        modifies ranges
        invariant forall j :: 0 <= j < index ==> ranges[j] == old(ranges[j])
        invariant forall j :: index <= j < current ==> ranges[j] == old(ranges[j + 1])
        invariant forall j :: current <= j < rangeCount ==> ranges[j] == old(ranges[j])
      {
        ranges[current] := ranges[current + 1];
      }
      rangeCount := rangeCount - 1;
    }

    /** Takes `frames` frames off the front of the run at `index` and drops the run when nothing is left of it. */
    method TakeAt(index: nat, frames: U64)
      requires Fixed() && index < rangeCount && Spacious(ranges[index]) && 0 < frames <= ranges[index].frames
      requires frames <= freeFrames
      modifies this`rangeCount, this`freeFrames, ranges
      ensures Fixed() && State() == Taken(old(State()), index, frames)
    {
      ghost var rs, ms := ranges[..rangeCount], managed[..managedCount];
      var range := ranges[index];
      // Neither the product nor the sum overflows: the run lies inside the address space.
      ranges[index] := FreeRange(range.start + frames * PAGE_SIZE, range.frames - frames);
      if ranges[index].frames == 0 {
        RemoveRange(index);
      }
      freeFrames := freeFrames - frames;
      assert ranges[..rangeCount] == TakeFrames(rs, index, frames);
      assert managed[..managedCount] == ms;
    }

    /** Works on any table of runs inside the address space; on a sound one it keeps everything. */
    method Allocate() returns (r: Result<U64, FrameError>)
      requires Fixed() && Counted(State())
      modifies this`rangeCount, this`freeFrames, ranges
      ensures Fixed() && Counted(State())
      ensures r == if old(State().table) == [] then Err(OutOfMemory) else Ok(old(State().table)[0].start)
      ensures State() == if r.Ok? then Taken(old(State()), 0, 1) else old(State())
      ensures r.Ok? ==> TableStep(State().managed, old(State().table), Allocated(r.value / PAGE_SIZE), State().table)
      ensures old(Valid()) && r.Ok? ==> ServedSoundly(old(State()), Allocated(r.value / PAGE_SIZE), State())
    {
      if rangeCount == 0 {
        return Err(OutOfMemory);
      }
      TakingIsCounted(State(), 0, 1);
      TakenIsStep(State(), 0, 1);
      if Valid() { TakenIsServed(State(), 0, 1); }
      var address := ranges[0].start;
      TakeAt(0, 1);
      return Ok(address);
    }

    /** The longest run that has room, the last one when several tie; `None` when none has. */
    method FindLongest(frames: U64) returns (index: Option<nat>)
      requires Fixed()
      ensures index.None? <==> forall i :: 0 <= i < rangeCount ==> ranges[i].frames < frames
      ensures index.Some? ==> index.value < rangeCount && frames <= ranges[index.value].frames
                              && index.value == LastLongest(State().Free())
    {
      index := None;
      for i := 0 to rangeCount
        invariant index.None? <==> forall j :: 0 <= j < i ==> ranges[j].frames < frames
        invariant index.Some? ==>
          && index.value < i && frames <= ranges[index.value].frames
          && (forall j :: 0 <= j < i ==> ranges[j].frames <= ranges[index.value].frames)
          && (forall j :: index.value < j < i ==> ranges[j].frames != ranges[index.value].frames)
      {
        if ranges[i].frames >= frames && (index.None? || ranges[i].frames >= ranges[index.value].frames) {
          index := Some(i);
        }
      }
      if index.Some? {
        LastLongestIs(State().Free(), index.value);
      }
    }

    /** Works on any table of runs inside the address space; on a sound one it keeps everything. */
    method AllocateContiguous(frames: U64) returns (r: Result<PhysicalRange, FrameError>)
      requires Fixed() && Counted(State())
      modifies this`rangeCount, this`freeFrames, ranges
      ensures Fixed() && Counted(State())
      ensures r.Ok? <==> frames > 0 && exists i :: 0 <= i < |old(State().table)| && frames <= old(State().table)[i].frames
      ensures r.Err? ==> r.error == OutOfMemory && State() == old(State())
      ensures r.Ok? ==>
        var f, k := old(State()), LastLongest(old(State().Free()));
        && 0 < frames <= f.table[k].frames && State() == Taken(f, k, frames)
        && r.value == PhysicalRange(f.table[k].start, frames * PAGE_SIZE)
        && TableStep(f.managed, f.table, AllocatedRun(r.value.start / PAGE_SIZE, frames), State().table)
      ensures old(Valid()) && r.Ok? ==>
        ServedSoundly(old(State()), AllocatedRun(r.value.start / PAGE_SIZE, frames), State())
    {
      if frames == 0 {
        return Err(OutOfMemory);
      }
      var found := FindLongest(frames);
      if found.None? {
        return Err(OutOfMemory);
      }
      var index := found.value;
      TakingIsCounted(State(), index, frames);
      TakenIsStep(State(), index, frames);
      if Valid() { TakenIsServed(State(), index, frames); }
      var result := PhysicalRange(ranges[index].start, frames * PAGE_SIZE);
      TakeAt(index, frames);
      return Ok(result);
    }

    method LargestFreeFrames() returns (frames: U64)
      requires Fixed()
      ensures frames == if State().table == [] then 0 else State().Free()[LastLongest(State().Free())].length
    {
      frames := 0;
      for i := 0 to rangeCount
        invariant i == 0 ==> frames == 0
        invariant i > 0 ==> exists j :: 0 <= j < i && ranges[j].frames == frames
        invariant forall j :: 0 <= j < i ==> ranges[j].frames <= frames
      {
        frames := Max(frames, ranges[i].frames);
      }
    }

    /** Shifts the tail of the table up by one. */
    method ShiftUp(index: nat)
      requires Fixed() && index <= rangeCount < MAX_MEMORY_RANGES
      modifies ranges
      ensures forall j :: 0 <= j < index ==> ranges[j] == old(ranges[j])
      ensures forall j :: index < j <= rangeCount ==> ranges[j] == old(ranges[j - 1])
    {
      var moveIndex := rangeCount;
      while moveIndex > index
        modifies ranges
        invariant index <= moveIndex <= rangeCount
        invariant forall j :: 0 <= j < moveIndex ==> ranges[j] == old(ranges[j])
        invariant forall j :: moveIndex < j <= rangeCount ==> ranges[j] == old(ranges[j - 1])
      {
        ranges[moveIndex] := ranges[moveIndex - 1];
        moveIndex := moveIndex - 1;
      }
    }

    /** Makes room at `index` and puts `range` there. */
    method InsertRange(index: nat, range: FreeRange)
      requires Fixed() && index <= rangeCount < MAX_MEMORY_RANGES
      modifies this`rangeCount, ranges
      ensures rangeCount == old(rangeCount) + 1
      ensures ranges[..rangeCount] == old(ranges[..index]) + [range] + old(ranges[index..rangeCount])
    {
      ShiftUp(index);
      ranges[index] := range;
      rangeCount := rangeCount + 1;
    }

    method InManaged(address: U64) returns (b: bool)
      requires Fixed()
      ensures b <==> InRuns(State().managed, address)
    {
      ghost var m := State().managed;
      b := false;
      for i := 0 to managedCount
        invariant b <==> exists j :: 0 <= j < i && HoldsPage(m[j], address)
      {
        b := b || HoldsPage(managed[i], address);
      }
    }

    method FindPlace(address: U64) returns (index: nat)
      requires Fixed()
      ensures index == Place(State().table, address)
    {
      index := 0;
      while index < rangeCount && ranges[index].start < address
        invariant index <= rangeCount
        invariant forall i :: 0 <= i < index ==> ranges[i].start < address
      {
        index := index + 1;
      }
      PlaceIs(State().table, address, index);
    }

    /** The run before `index` takes over the frames of the one at `index`. */
    method SwallowNext(index: nat)
      requires Fixed() && 0 < index < rangeCount && ranges[index - 1].frames + ranges[index].frames <= U64_MAX
      modifies this`rangeCount, ranges
      ensures Fixed()
      ensures var rs := old(ranges[..rangeCount]);
        var t := rs[index - 1 := FreeRange(rs[index - 1].start, rs[index - 1].frames + rs[index].frames)];
        ranges[..rangeCount] == t[..index] + t[index + 1..]
    {
      ghost var rs := ranges[..rangeCount];
      ranges[index - 1] := FreeRange(ranges[index - 1].start, ranges[index - 1].frames + ranges[index].frames);
      ghost var t := rs[index - 1 := ranges[index - 1]];
      assert ranges[..rangeCount] == t;
      RemoveRange(index);
    }

    /** Grows the run before `index` by the page at `address`, and joins it to the next run when they meet. */
    method GrowPrevious(index: nat, address: U64)
      requires Fixed() && AllSpacious(ranges[..rangeCount]) && index <= rangeCount
      requires ExtendsPrevious(ranges[..rangeCount], index, address)
      modifies this`rangeCount, ranges
      ensures Fixed() && ranges[..rangeCount] == ReleasedTable(old(ranges[..rangeCount]), index, address)
    {
      ghost var rs := ranges[..rangeCount];
      GrownEnd(rs[index - 1], address);
      ranges[index - 1] := FreeRange(ranges[index - 1].start, ranges[index - 1].frames + 1);
      assert ranges[..rangeCount] == rs[index - 1 := ranges[index - 1]];
      if index < rangeCount && ranges[index - 1].End() == ranges[index].start {
        SwallowNext(index);
      }
      GrownTable(rs, index, address);
    }

    /** Joins the page at `address` to the run at `index - 1`, at `index`, or both, or adds a run for it. */
    method JoinPage(index: nat, address: U64) returns (ok: bool)
      requires Fixed() && AllSpacious(ranges[..rangeCount]) && index <= rangeCount
      modifies this`rangeCount, ranges
      ensures Fixed()
      ensures ok <==> old(ExtendsPrevious(ranges[..rangeCount], index, address)
                       || ExtendsNext(ranges[..rangeCount], index, address) || rangeCount < MAX_MEMORY_RANGES)
      ensures ranges[..rangeCount] ==
        if ok then ReleasedTable(old(ranges[..rangeCount]), index, address) else old(ranges[..rangeCount])
    {
      ghost var rs := ranges[..rangeCount];
      if index > 0 && ranges[index - 1].End() == address {
        GrowPrevious(index, address);
      } else if index < rangeCount && SaturatingAdd(address, PAGE_SIZE) == ranges[index].start {
        ranges[index] := FreeRange(address, ranges[index].frames + 1);
        assert ranges[..rangeCount] == rs[..index] + [ranges[index]] + rs[index + 1..];
      } else {
        if rangeCount == MAX_MEMORY_RANGES {
          return false;
        }
        InsertRange(index, FreeRange(address, 1));
        assert ranges[..rangeCount] == rs[..index] + [FreeRange(address, 1)] + rs[index..];
      }
      return true;
    }

    /** The checks of `release`, and the page's place in the table. */
    method Releasable(address: U64) returns (ok: bool, index: nat)
      requires Fixed()
      ensures ok <==> Accepts(State().managed, State().table, address)
      ensures ok ==> index == Place(State().table, address)
    {
      index := 0;
      if address % PAGE_SIZE != 0 {
        return false, index;
      }
      var inManaged := InManaged(address);
      if !inManaged {
        return false, index;
      }
      index := FindPlace(address);
      if index > 0 && ranges[index - 1].End() > address {
        return false, index;
      }
      if index < rangeCount && SaturatingAdd(address, PAGE_SIZE) > ranges[index].start {
        return false, index;
      }
      return true, index;
    }

    /** Puts a page back into the table, if it fits. */
    method Accept(index: nat, address: U64) returns (ok: bool)
      requires Fixed() && AllSpacious(State().table) && index == Place(State().table, address)
      modifies this`rangeCount, this`freeFrames, ranges
      ensures Fixed() && ok == old(HasRoom(State().table, address))
      ensures State() == if ok then GivenBack(old(State()), index, address) else old(State())
    {
      ghost var ms := managed[..managedCount];
      ok := JoinPage(index, address);
      if ok {
        freeFrames := SaturatingAdd(freeFrames, 1);
      }
      assert managed[..managedCount] == ms;
    }

    /** Exact on any table of runs inside the address space. On a sound one it takes back exactly the managed pages that
        are not free. */
    method Release(address: U64) returns (r: Result<(), FrameError>)
      requires Fixed() && Counted(State())
      modifies this`rangeCount, this`freeFrames, ranges
      ensures Fixed() && (address + PAGE_SIZE <= U64_MAX ==> Counted(State()))
      ensures r == ReleaseAnswer(old(State()), address) && State() == AfterRelease(old(State()), address)
      ensures r.Ok? ==> TableStep(State().managed, old(State().table), Released(address / PAGE_SIZE), State().table)
      ensures old(Valid()) ==> ReleasedSoundly(old(State()), address, r, State())
    {
      ReleaseIsStep(State(), address);
      if Valid() { ReleaseIsSound(State(), address); }
      var valid, index := Releasable(address);
      if !valid {
        return Err(InvalidAddress);
      }
      var ok := Accept(index, address);
      return if ok then Ok(()) else Err(FreeRangeStorageFull);
    }
  }
}

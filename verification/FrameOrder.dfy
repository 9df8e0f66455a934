/** Why the frame table has to be in address order: exactly then no frame is ever handed out twice. */
module FrameOrder {
  import opened Machine
  import opened Spans
  import opened FrameRuns
  import opened Frames
  import MemoryMap

  // --------------------------------------------------------------- runs of the code

  ghost predicate TableRun(managed: seq<FreeRange>, states: seq<seq<FreeRange>>, events: seq<Event>) {
    && |states| == |events| + 1
    && (forall i :: 0 <= i < |events| ==> TableStepAt(managed, states, events, i))
  }

  ghost predicate TableStepAt(managed: seq<FreeRange>, states: seq<seq<FreeRange>>, events: seq<Event>, i: nat)
    requires i < |events| && |states| == |events| + 1
  {
    TableStep(managed, states[i], events[i], states[i + 1])
  }

  predicate ReleasedBetween(events: seq<Event>, i: nat, j: nat, p: int)
    requires i < j < |events|
  {
    exists k :: i < k < j && events[k] == Released(p)
  }

  /** No page is handed out twice without being released in between. */
  ghost predicate HandedOutOnce(events: seq<Event>) {
    forall i, j, p :: 0 <= i < j < |events| && HandsOut(events[i], p) && HandsOut(events[j], p) ==>
      ReleasedBetween(events, i, j, p)
  }

  /** That holds of every run from the table `rs`. */
  ghost predicate NeverTwice(managed: seq<FreeRange>, rs: seq<FreeRange>) {
    forall states, events :: TableRun(managed, states, events) && states[0] == rs ==> HandedOutOnce(events)
  }

  // ------------------------------------------------------------------ in order

  lemma ReleaseRefines(managed: seq<FreeRange>, rs: seq<FreeRange>, page: int, rs': seq<FreeRange>)
    requires AllPaged(managed) && AllPaged(rs) && Ascending(PageSpans(rs)) && TableStep(managed, rs, Released(page), rs')
    ensures AllPaged(rs') && Step(PageSpans(managed), PageSpans(rs), Released(page), PageSpans(rs'))
  {
    var address := page * PAGE_SIZE;
    assert address / PAGE_SIZE == page;
    InRunsMeans(managed, address);
    CollidesMeansFree(rs, Place(rs, address), address);
    ReleasedIsInsert(rs, Place(rs, address), address);
  }

  /** On a table in address order a call does what the free set says. */
  lemma StepRefines(managed: seq<FreeRange>, rs: seq<FreeRange>, e: Event, rs': seq<FreeRange>)
    requires AllPaged(managed) && AllPaged(rs) && Ascending(PageSpans(rs)) && TableStep(managed, rs, e, rs')
    ensures AllPaged(rs') && Ascending(PageSpans(rs'))
    ensures Step(PageSpans(managed), PageSpans(rs), e, PageSpans(rs'))
  {
    match e {
      case Allocated(page) => TakeFramesIsTakeFront(rs, 0, 1);
      case AllocatedRun(start, count) => TakeFramesIsTakeFront(rs, LastLongest(PageSpans(rs)), count);
      case Released(page) => ReleaseRefines(managed, rs, page, rs');
    }
    StepKeepsOrder(PageSpans(managed), PageSpans(rs), e, PageSpans(rs'));
  }

  lemma {:induction false} RunStaysInOrder(managed: seq<FreeRange>, states: seq<seq<FreeRange>>, events: seq<Event>, n: nat)
    requires AllPaged(managed) && TableRun(managed, states, events) && n <= |events|
    requires AllPaged(states[0]) && Ascending(PageSpans(states[0]))
    ensures AllPaged(states[n]) && Ascending(PageSpans(states[n]))
  {
    if n > 0 {
      RunStaysInOrder(managed, states, events, n - 1);
      assert TableStepAt(managed, states, events, n - 1);
      StepRefines(managed, states[n - 1], events[n - 1], states[n]);
    }
  }

  function AllSpans(states: seq<seq<FreeRange>>): (ss: seq<seq<Span>>)
    ensures |ss| == |states| && forall i :: 0 <= i < |ss| ==> ss[i] == PageSpans(states[i])
  {
    seq(|states|, i requires 0 <= i < |states| => PageSpans(states[i]))
  }

  lemma RunRefines(managed: seq<FreeRange>, states: seq<seq<FreeRange>>, events: seq<Event>)
    requires AllPaged(managed) && TableRun(managed, states, events)
    requires AllPaged(states[0]) && Ascending(PageSpans(states[0]))
    ensures Run(PageSpans(managed), AllSpans(states), events)
  {
    var ss := AllSpans(states);
    forall i | 0 <= i < |events| ensures StepAt(PageSpans(managed), ss, events, i) {
      RunStaysInOrder(managed, states, events, i);
      assert TableStepAt(managed, states, events, i);
      StepRefines(managed, states[i], events[i], states[i + 1]);
    }
  }

  lemma OrderIsSafe(managed: seq<FreeRange>, rs: seq<FreeRange>)
    requires AllPaged(managed) && AllPaged(rs) && Ascending(PageSpans(rs))
    ensures NeverTwice(managed, rs)
  {
    forall states, events | TableRun(managed, states, events) && states[0] == rs ensures HandedOutOnce(events) {
      RunRefines(managed, states, events);
      forall i, j, p | 0 <= i < j < |events| && HandsOut(events[i], p) && HandsOut(events[j], p)
        ensures ReleasedBetween(events, i, j, p)
      {
        NoDoubleHandOut(PageSpans(managed), AllSpans(states), events, i, j, p);
      }
    }
  }

  // --------------------------------------------------------------- in any order

  lemma TakenLists(rs: seq<FreeRange>, k: nat, n: int, p: int)
    requires AllPaged(rs) && k < |rs| && 0 < n <= rs[k].frames
    ensures AllPaged(TakeFrames(rs, k, n))
    ensures PageSpan(rs[k]).start <= p < PageSpan(rs[k]).start + n ==> Covers(PageSpans(rs), p)
    ensures Covers(PageSpans(TakeFrames(rs, k, n)), p) ==> Covers(PageSpans(rs), p)
  {
    var t, s := TakeFrames(rs, k, n), PageSpans(rs);
    TakeFramesIsTakeFront(rs, k, n);
    if PageSpan(rs[k]).start <= p < PageSpan(rs[k]).start + n { assert s[k].Has(p); }
    if i :| 0 <= i < |t| && PageSpans(t)[i].Has(p) { assert s[if rs[k].frames == n && i >= k then i + 1 else i].Has(p); }
  }

  /** The joined run holds the page and what the runs it joins held. */
  lemma JoinedHolds(rs: seq<FreeRange>, k: nat, address: U64, p: int)
    requires AllPaged(rs) && k <= |rs| && address % PAGE_SIZE == 0 && address + PAGE_SIZE <= U64_MAX
    ensures PageSpan(JoinedRun(rs, k, address)).Has(p) <==>
      || p == address / PAGE_SIZE
      || (ExtendsPrevious(rs, k, address) && PageSpan(rs[k - 1]).Has(p))
      || (ExtendsNext(rs, k, address) && PageSpan(rs[k]).Has(p))
  {
  }

  lemma ReleasedLists(rs: seq<FreeRange>, k: nat, address: U64, p: int)
    requires AllPaged(rs) && k <= |rs| && address % PAGE_SIZE == 0 && address + PAGE_SIZE <= U64_MAX
    ensures AllPaged(ReleasedTable(rs, k, address))
    ensures Covers(PageSpans(ReleasedTable(rs, k, address)), p) ==> Covers(PageSpans(rs), p) || p == address / PAGE_SIZE
    ensures p == address / PAGE_SIZE ==> Covers(PageSpans(ReleasedTable(rs, k, address)), p)
  {
    var s, r := PageSpans(rs), JoinedRun(rs, k, address);
    var lo := if ExtendsPrevious(rs, k, address) then k - 1 else k;
    var hi := if ExtendsNext(rs, k, address) then k + 1 else k;
    ReleasedIsSpacious(rs, k, address);
    PageSpansSplice(rs, lo, hi, r);
    SpliceCovers(s, lo, hi, PageSpan(r), p);
    JoinedHolds(rs, k, address, p);
    if PageSpan(r).Has(p) && p != address / PAGE_SIZE { assert s[if lo < k && s[k - 1].Has(p) then k - 1 else k].Has(p); }
  }

  /** What a call lists, order or no order: nothing new but the page released, and that one is managed. */
  lemma StepLists(managed: seq<FreeRange>, rs: seq<FreeRange>, e: Event, rs': seq<FreeRange>, p: int)
    requires AllPaged(managed) && AllPaged(rs) && TableStep(managed, rs, e, rs')
    ensures AllPaged(rs')
    ensures HandsOut(e, p) ==> Covers(PageSpans(rs), p)
    ensures Covers(PageSpans(rs'), p) ==> Covers(PageSpans(rs), p) || e == Released(p)
    ensures e == Released(p) ==> Covers(PageSpans(managed), p) && Covers(PageSpans(rs'), p)
  {
    match e {
      case Allocated(page) => TakenLists(rs, 0, 1, p);
      case AllocatedRun(start, count) => TakenLists(rs, LastLongest(PageSpans(rs)), count, p);
      case Released(page) =>
        var address := page * PAGE_SIZE;
        assert address / PAGE_SIZE == page;
        InRunsMeans(managed, address);
        ReleasedLists(rs, Place(rs, address), address, p);
    }
  }

  /** The checks pass for every managed page that no run lists. */
  lemma UnlistedIsAccepted(managed: seq<FreeRange>, rs: seq<FreeRange>, page: int)
    requires AllPaged(managed) && AllPaged(rs) && Covers(PageSpans(managed), page) && !Covers(PageSpans(rs), page)
    ensures 0 <= page * PAGE_SIZE && page * PAGE_SIZE + PAGE_SIZE <= U64_MAX && Accepts(managed, rs, page * PAGE_SIZE)
  {
    var i :| 0 <= i < |managed| && PageSpans(managed)[i].Has(page);
    var address := page * PAGE_SIZE;
    assert address / PAGE_SIZE == page;
    InRunsMeans(managed, address);
    if Collides(rs, Place(rs, address), address) { CollisionIsFree(rs, Place(rs, address), address); }
  }

  // ------------------------------------------------------------ draining the table

  lemma TakingShrinks(rs: seq<FreeRange>)
    requires AllSpacious(rs) && rs != []
    ensures AllSpacious(TakeFrames(rs, 0, 1)) && PageSpans(TakeFrames(rs, 0, 1)) == TakeFront(PageSpans(rs), 0, 1)
    ensures 0 <= Total(PageSpans(TakeFrames(rs, 0, 1))) == Total(PageSpans(rs)) - 1
  {
    TakeFramesIsTakeFront(rs, 0, 1);
    if rs[0].frames == 1 { WithoutTotal(PageSpans(rs), 0); } else { ShrinkTotal(PageSpans(rs), 0, 1); }
    SpaciousTotal(TakeFrames(rs, 0, 1));
  }

  /** One frame after the other until none is left. */
  function DrainEvents(rs: seq<FreeRange>): seq<Event>
    requires AllSpacious(rs)
    decreases Total(PageSpans(rs))
  {
    if rs == [] then []
    else
      TakingShrinks(rs);
      [Allocated(rs[0].start / PAGE_SIZE)] + DrainEvents(TakeFrames(rs, 0, 1))
  }

  function DrainTables(rs: seq<FreeRange>): (states: seq<seq<FreeRange>>)
    requires AllSpacious(rs)
    ensures |states| == |DrainEvents(rs)| + 1 && states[0] == rs
    decreases Total(PageSpans(rs))
  {
    if rs == [] then [rs]
    else
      TakingShrinks(rs);
      [rs] + DrainTables(TakeFrames(rs, 0, 1))
  }

  lemma RunFrom(managed: seq<FreeRange>, rs: seq<FreeRange>, e: Event, states: seq<seq<FreeRange>>, events: seq<Event>)
    requires TableRun(managed, states, events) && TableStep(managed, rs, e, states[0])
    ensures TableRun(managed, [rs] + states, [e] + events)
  {
    forall i | 0 <= i < |events| + 1 ensures TableStepAt(managed, [rs] + states, [e] + events, i) {
      if i > 0 { assert TableStepAt(managed, states, events, i - 1); }
    }
  }

  lemma {:induction false} DrainIsRun(managed: seq<FreeRange>, rs: seq<FreeRange>)
    requires AllSpacious(rs)
    ensures TableRun(managed, DrainTables(rs), DrainEvents(rs))
    ensures forall k :: 0 <= k < |DrainEvents(rs)| ==> DrainEvents(rs)[k].Allocated?
    decreases Total(PageSpans(rs))
  {
    if rs != [] {
      var t := TakeFrames(rs, 0, 1);
      TakingShrinks(rs);
      DrainIsRun(managed, t);
      RunFrom(managed, rs, Allocated(rs[0].start / PAGE_SIZE), DrainTables(t), DrainEvents(t));
    }
  }

  lemma DrainUnfolds(rs: seq<FreeRange>)
    requires AllSpacious(rs) && rs != []
    ensures AllSpacious(TakeFrames(rs, 0, 1))
    ensures DrainEvents(rs) == [Allocated(rs[0].start / PAGE_SIZE)] + DrainEvents(TakeFrames(rs, 0, 1))
  {
    TakingShrinks(rs);
  }

  /** A page listed in run `a` that is not the very next to go stays listed. */
  lemma StillListed(rs: seq<FreeRange>, a: nat, p: int) returns (a': nat)
    requires AllSpacious(rs) && a < |rs| && PageSpan(rs[a]).Has(p)
    requires a > 0 || p != rs[0].start / PAGE_SIZE
    ensures var t := TakeFrames(rs, 0, 1); a' < |t| && PageSpan(t[a']).Has(p)
    ensures a' == if rs[0].frames == 1 then a - 1 else a
  {
    a' := if rs[0].frames == 1 then a - 1 else a;
  }

  lemma {:induction false} DrainReaches(rs: seq<FreeRange>, a: nat, p: int) returns (n: nat)
    requires AllSpacious(rs) && a < |rs| && PageSpan(rs[a]).Has(p)
    ensures n < |DrainEvents(rs)| && DrainEvents(rs)[n] == Allocated(p)
    decreases Total(PageSpans(rs))
  {
    if a == 0 && p == rs[0].start / PAGE_SIZE {
      n := 0;
    } else {
      TakingShrinks(rs);
      var a' := StillListed(rs, a, p);
      n := DrainReaches(TakeFrames(rs, 0, 1), a', p);
      n := n + 1;
    }
  }

  /** A page listed twice is handed out twice. */
  lemma {:induction false} DrainRepeats(rs: seq<FreeRange>, a: nat, b: nat, p: int) returns (n: nat, m: nat)
    requires AllSpacious(rs) && a < b < |rs| && PageSpan(rs[a]).Has(p) && PageSpan(rs[b]).Has(p)
    ensures n < m < |DrainEvents(rs)| && DrainEvents(rs)[n] == DrainEvents(rs)[m] == Allocated(p)
    decreases Total(PageSpans(rs))
  {
    DrainUnfolds(rs);
    TakingShrinks(rs);
    var b' := StillListed(rs, b, p);
    if a == 0 && p == rs[0].start / PAGE_SIZE {
      m := DrainReaches(TakeFrames(rs, 0, 1), b', p);
      n, m := 0, m + 1;
    } else {
      var a' := StillListed(rs, a, p);
      n, m := DrainRepeats(TakeFrames(rs, 0, 1), a', b', p);
      n, m := n + 1, m + 1;
    }
  }

  lemma ListedTwiceIsUnsafe(managed: seq<FreeRange>, rs: seq<FreeRange>, a: nat, b: nat, p: int)
    requires AllSpacious(rs) && a < b < |rs| && PageSpan(rs[a]).Has(p) && PageSpan(rs[b]).Has(p)
    ensures !NeverTwice(managed, rs)
  {
    var n, m := DrainRepeats(rs, a, b, p);
    DrainIsRun(managed, rs);
    var events := DrainEvents(rs);
    assert HandsOut(events[n], p) && HandsOut(events[m], p) && !ReleasedBetween(events, n, m, p);
  }

  lemma UnsafeAfterStep(managed: seq<FreeRange>, rs: seq<FreeRange>, e: Event, rs': seq<FreeRange>)
    requires TableStep(managed, rs, e, rs') && !NeverTwice(managed, rs')
    ensures !NeverTwice(managed, rs)
  {
    var states, events :| TableRun(managed, states, events) && states[0] == rs' && !HandedOutOnce(events);
    var i, j, p :| 0 <= i < j < |events| && HandsOut(events[i], p) && HandsOut(events[j], p)
                   && !ReleasedBetween(events, i, j, p);
    RunFrom(managed, rs, e, states, events);
    var all := [e] + events;
    assert all[i + 1] == events[i] && all[j + 1] == events[j];
    forall k | i + 1 < k < j + 1 ensures all[k] != Released(p) { assert all[k] == events[k - 1]; }
    assert ([rs] + states)[0] == rs && !HandedOutOnce(all);
  }

  // ---------------------------------------------------------------- out of order

  /** Run `j` comes after run `i` and lies below it. */
  predicate Inverted(rs: seq<FreeRange>, i: nat, j: nat) {
    i < j < |rs| && PageSpan(rs[j]).End() <= PageSpan(rs[i]).start
  }

  ghost predicate RunsApart(rs: seq<FreeRange>, i: nat, j: nat)
    requires i < |rs| && j < |rs|
  {
    PageSpan(rs[i]).End() <= PageSpan(rs[j]).start || PageSpan(rs[j]).End() <= PageSpan(rs[i]).start
  }

  /** The place of an inverted run's first page comes before the run, so only another run with the page could stop its
      release. */
  lemma OnlyAnotherRunStopsIt(rs: seq<FreeRange>, i: nat, j: nat) returns (c: nat)
    requires AllPaged(rs) && Inverted(rs, i, j) && Collides(rs, Place(rs, rs[j].start), rs[j].start)
    ensures c < j && PageSpan(rs[c]).Has(rs[j].start / PAGE_SIZE) && !RunsApart(rs, c, j)
  {
    var address := rs[j].start;
    var k := Place(rs, address);
    c := if k > 0 && rs[k - 1].End() > address then k - 1 else k;
  }

  /** Once it is accepted, the page is listed twice. */
  lemma AcceptedTwice(rs: seq<FreeRange>, i: nat, j: nat) returns (a: nat, b: nat)
    requires AllPaged(rs) && Inverted(rs, i, j)
    ensures var t := ReleasedTable(rs, Place(rs, rs[j].start), rs[j].start);
      && a < b < |t| && PageSpan(t[a]).Has(rs[j].start / PAGE_SIZE) && PageSpan(t[b]).Has(rs[j].start / PAGE_SIZE)
  {
    var address := rs[j].start;
    var k := Place(rs, address);
    var hi := if ExtendsNext(rs, k, address) then k + 1 else k;
    a := if ExtendsPrevious(rs, k, address) then k - 1 else k;
    b := a + 1 + (j - hi);
    assert k <= i;
    assert ReleasedTable(rs, k, address)[a] == JoinedRun(rs, k, address);
    assert ReleasedTable(rs, k, address)[b] == rs[j];
  }

  lemma InvertedWithRoom(managed: seq<FreeRange>, rs: seq<FreeRange>, i: nat, j: nat)
    requires AllPaged(managed) && AllPaged(rs) && |rs| < MAX_MEMORY_RANGES && Inverted(rs, i, j)
    requires Covers(PageSpans(managed), rs[j].start / PAGE_SIZE)
    ensures !NeverTwice(managed, rs)
  {
    var address := rs[j].start;
    var k, page := Place(rs, address), address / PAGE_SIZE;
    if Collides(rs, k, address) {
      var c := OnlyAnotherRunStopsIt(rs, i, j);
      ListedTwiceIsUnsafe(managed, rs, c, j, page);
    } else {
      InRunsMeans(managed, address);
      var t := ReleasedTable(rs, k, address);
      var a, b := AcceptedTwice(rs, i, j);
      ReleasedIsSpacious(rs, k, address);
      ListedTwiceIsUnsafe(managed, t, a, b, page);
      assert page * PAGE_SIZE == address;
      UnsafeAfterStep(managed, rs, Released(page), t);
    }
  }

  // A full table takes no run back, but a run can be emptied without touching the inversion.

  ghost predicate AllManaged(managed: seq<FreeRange>, rs: seq<FreeRange>) {
    forall p :: Covers(PageSpans(rs), p) ==> Covers(PageSpans(managed), p)
  }

  /** Where run `m` is once frames have been taken off run `k`. */
  function IndexAfter(rs: seq<FreeRange>, k: nat, n: int, m: nat): int
    requires k < |rs|
  {
    if rs[k].frames == n && m > k then m - 1 else m
  }

  lemma TakingKeepsManaged(managed: seq<FreeRange>, rs: seq<FreeRange>, k: nat, n: int)
    requires AllPaged(rs) && k < |rs| && 0 < n <= rs[k].frames && AllManaged(managed, rs)
    ensures AllPaged(TakeFrames(rs, k, n)) && AllManaged(managed, TakeFrames(rs, k, n))
    ensures 0 <= Total(PageSpans(TakeFrames(rs, k, n))) < Total(PageSpans(rs))
  {
    var t, s := TakeFrames(rs, k, n), PageSpans(rs);
    TakeFramesIsTakeFront(rs, k, n);
    if rs[k].frames == n { WithoutTotal(s, k); } else { ShrinkTotal(s, k, n); }
    SpaciousTotal(t);
    forall p | Covers(PageSpans(t), p) ensures Covers(s, p) {
      var m :| 0 <= m < |t| && PageSpans(t)[m].Has(p);
      assert s[if rs[k].frames == n && m >= k then m + 1 else m].Has(p);
    }
  }

  lemma TakingKeepsInverted(rs: seq<FreeRange>, k: nat, n: int, i: nat, j: nat)
    requires AllPaged(rs) && k < |rs| && 0 < n <= rs[k].frames && Inverted(rs, i, j)
    requires rs[k].frames == n ==> k != i && k != j
    ensures Inverted(TakeFrames(rs, k, n), IndexAfter(rs, k, n, i), IndexAfter(rs, k, n, j))
  {
  }

  /** Emptying the first run: its frames go one by one. */
  lemma FirstFrameOff(managed: seq<FreeRange>, rs: seq<FreeRange>, i: nat, j: nat) returns (t: seq<FreeRange>, e: Event)
    requires AllPaged(rs) && AllManaged(managed, rs) && Inverted(rs, i, j) && i > 0
    ensures TableStep(managed, rs, e, t) && AllPaged(t) && AllManaged(managed, t) && |t| <= |rs|
    ensures Inverted(t, IndexAfter(rs, 0, 1, i), IndexAfter(rs, 0, 1, j))
    ensures 0 <= Total(PageSpans(t)) < Total(PageSpans(rs))
  {
    t, e := TakeFrames(rs, 0, 1), Allocated(rs[0].start / PAGE_SIZE);
    TakingKeepsManaged(managed, rs, 0, 1);
    TakingKeepsInverted(rs, 0, 1, i, j);
  }

  /** Emptying the last run: longer runs are cut down to one frame first, and then the last is the longest. */
  lemma LongestRunOff(managed: seq<FreeRange>, rs: seq<FreeRange>, i: nat, j: nat) returns (t: seq<FreeRange>, e: Event)
    requires AllPaged(rs) && AllManaged(managed, rs) && Inverted(rs, i, j) && j < |rs| - 1
    ensures TableStep(managed, rs, e, t) && AllPaged(t) && AllManaged(managed, t) && |t| <= |rs|
    ensures Inverted(t, i, j)
    ensures 0 <= Total(PageSpans(t)) < Total(PageSpans(rs))
  {
    var k := LastLongest(PageSpans(rs));
    var n := if rs[k].frames > 1 then rs[k].frames - 1 else 1;
    if rs[k].frames == 1 { assert k < |rs| - 1 ==> PageSpans(rs)[|rs| - 1].length < 1; }
    t, e := TakeFrames(rs, k, n), AllocatedRun(rs[k].start / PAGE_SIZE, n);
    TakingKeepsManaged(managed, rs, k, n);
    TakingKeepsInverted(rs, k, n, i, j);
  }

  /** Between a first and a last run that are inverted, any third is out of order with one of them. */
  lemma AnotherInversion(managed: seq<FreeRange>, rs: seq<FreeRange>, i: nat, j: nat)
    requires AllPaged(rs) && Inverted(rs, i, j) && i + 1 < j
    ensures !NeverTwice(managed, rs) || Inverted(rs, i, i + 1) || Inverted(rs, i + 1, j)
  {
    var x, y, z := PageSpan(rs[i]), PageSpan(rs[i + 1]), PageSpan(rs[j]);
    if y.start < x.End() && x.start < y.End() { ListedTwiceIsUnsafe(managed, rs, i, i + 1, Max(x.start, y.start)); }
    if y.start < z.End() && z.start < y.End() { ListedTwiceIsUnsafe(managed, rs, i + 1, j, Max(y.start, z.start)); }
  }

  lemma {:induction false} InvertedIsUnsafe(managed: seq<FreeRange>, rs: seq<FreeRange>, i: nat, j: nat)
    requires AllPaged(managed) && AllPaged(rs) && |rs| <= MAX_MEMORY_RANGES && AllManaged(managed, rs) && Inverted(rs, i, j)
    ensures !NeverTwice(managed, rs)
    decreases Total(PageSpans(rs)), if i == 0 && j == |rs| - 1 then 1 else 0
  {
    SpaciousTotal(rs);
    if |rs| < MAX_MEMORY_RANGES {
      assert PageSpans(rs)[j].Has(rs[j].start / PAGE_SIZE);
      InvertedWithRoom(managed, rs, i, j);
    } else if i > 0 {
      var t, e := FirstFrameOff(managed, rs, i, j);
      InvertedIsUnsafe(managed, t, IndexAfter(rs, 0, 1, i), IndexAfter(rs, 0, 1, j));
      UnsafeAfterStep(managed, rs, e, t);
    } else if j < |rs| - 1 {
      var t, e := LongestRunOff(managed, rs, i, j);
      InvertedIsUnsafe(managed, t, i, j);
      UnsafeAfterStep(managed, rs, e, t);
    } else {
      AnotherInversion(managed, rs, i, j);
      if Inverted(rs, i, i + 1) {
        InvertedIsUnsafe(managed, rs, i, i + 1);
      } else if Inverted(rs, i + 1, j) {
        InvertedIsUnsafe(managed, rs, i + 1, j);
      }
    }
  }

  lemma FindDisorder(rs: seq<FreeRange>) returns (i: nat, j: nat)
    requires AllPaged(rs) && !Ascending(PageSpans(rs))
    ensures i < j < |rs| && PageSpan(rs[i]).End() > PageSpan(rs[j]).start
  {
    var s := PageSpans(rs);
    i, j :| 0 <= i < j < |s| && s[i].End() > s[j].start;
  }

  lemma DisorderIsUnsafe(managed: seq<FreeRange>, rs: seq<FreeRange>, i: nat, j: nat)
    requires AllPaged(managed) && AllPaged(rs) && |rs| <= MAX_MEMORY_RANGES && AllManaged(managed, rs)
    requires i < j < |rs| && PageSpan(rs[i]).End() > PageSpan(rs[j]).start
    ensures !NeverTwice(managed, rs)
  {
    var s, t := PageSpan(rs[i]), PageSpan(rs[j]);
    if t.End() <= s.start {
      InvertedIsUnsafe(managed, rs, i, j);
    } else {
      ListedTwiceIsUnsafe(managed, rs, i, j, Max(s.start, t.start));
    }
  }

  /** Over every run from a table of aligned, managed runs no frame is handed out twice exactly if the table is in
      address order without overlaps. Nothing sorts the firmware map or the table built from it. */
  lemma NeverTwiceIffInOrder(managed: seq<FreeRange>, rs: seq<FreeRange>)
    requires AllPaged(managed) && AllPaged(rs) && |rs| <= MAX_MEMORY_RANGES && AllManaged(managed, rs)
    ensures NeverTwice(managed, rs) <==> Ascending(PageSpans(rs))
  {
    if Ascending(PageSpans(rs)) {
      OrderIsSafe(managed, rs);
    } else {
      var i, j := FindDisorder(rs);
      DisorderIsUnsafe(managed, rs, i, j);
    }
  }

  // ------------------------------------------------------------ the check of release

  /** The check at the page's place tells whether the page is free. */
  ghost predicate CheckTellsFree(rs: seq<FreeRange>, address: U64) {
    Collides(rs, Place(rs, address), address) <==> Covers(PageSpans(rs), address / PAGE_SIZE)
  }

  ghost predicate Disjoint(rs: seq<FreeRange>) { forall i, j :: 0 <= i < j < |rs| ==> RunsApart(rs, i, j) }

  lemma CheckMissesInverted(rs: seq<FreeRange>, i: nat, j: nat)
    requires AllPaged(rs) && Disjoint(rs) && Inverted(rs, i, j)
    ensures !CheckTellsFree(rs, rs[j].start)
  {
    assert PageSpans(rs)[j].Has(rs[j].start / PAGE_SIZE);
    if Collides(rs, Place(rs, rs[j].start), rs[j].start) {
      var c := OnlyAnotherRunStopsIt(rs, i, j);
    }
  }

  ghost predicate CheckIsExact(rs: seq<FreeRange>) {
    forall address: U64 :: address % PAGE_SIZE == 0 && address + PAGE_SIZE <= U64_MAX ==> CheckTellsFree(rs, address)
  }

  lemma OrderMakesCheckExact(rs: seq<FreeRange>)
    requires AllPaged(rs) && Ascending(PageSpans(rs))
    ensures CheckIsExact(rs)
  {
    forall address: U64 | address % PAGE_SIZE == 0 && address + PAGE_SIZE <= U64_MAX ensures CheckTellsFree(rs, address) {
      CollidesMeansFree(rs, Place(rs, address), address);
    }
  }

  lemma DisorderFoolsCheck(rs: seq<FreeRange>)
    requires AllPaged(rs) && Disjoint(rs) && !Ascending(PageSpans(rs))
    ensures !CheckIsExact(rs)
  {
    var i, j := FindDisorder(rs);
    assert RunsApart(rs, i, j);
    CheckMissesInverted(rs, i, j);
  }

  /** Among disjoint runs it tells so for every page exactly if they are in address order. */
  lemma CheckIsExactIffInOrder(rs: seq<FreeRange>)
    requires AllPaged(rs) && Disjoint(rs)
    ensures CheckIsExact(rs) <==> Ascending(PageSpans(rs))
  {
    if Ascending(PageSpans(rs)) { OrderMakesCheckExact(rs); } else { DisorderFoolsCheck(rs); }
  }

  // -------------------------------------------------------------- runs off a page

  /** What is left of a run starts as far off a page as the run did, and so do all its frames. */
  lemma TakingKeepsOffset(rs: seq<FreeRange>, k: nat, n: int, i: nat, f: nat) returns (j: nat)
    requires k < |rs| && Spacious(rs[k]) && 0 < n <= rs[k].frames && i < |TakeFrames(rs, k, n)|
    ensures j < |rs| && (TakeFrames(rs, k, n)[i].start + f * PAGE_SIZE) % PAGE_SIZE == rs[j].start % PAGE_SIZE
  {
    j := if rs[k].frames == n && i >= k then i + 1 else i;
  }

  /** A frame that lies in a managed run is refused by `release` whatever is free, and so lost once it is handed out,
      exactly if it lies off a page. */
  lemma LostIffOffPage(f: FrameState, address: U64)
    requires InRuns(f.managed, address)
    ensures (forall g: FrameState :: g.managed == f.managed ==> ReleaseAnswer(g, address) == Err(InvalidAddress))
       <==> address % PAGE_SIZE != 0
  {
    if address % PAGE_SIZE == 0 { assert ReleaseAnswer(f.(table := []), address) != Err(InvalidAddress); }
  }

  // ---------------------------------------------------------------------- the input

  const BELOW := FreeRange(0x1000, 1)
  const ABOVE := FreeRange(0x5000, 1)

  /** The check at the upper run's index lets the release of the lower one pass. */
  lemma FreePageIsTakenBack()
    ensures var rs := [ABOVE, BELOW];
      Covers(PageSpans(rs), 1) && TableStep(rs, rs, Released(1), [BELOW, ABOVE, BELOW])
  {
    var rs := [ABOVE, BELOW];
    assert PageSpans(rs)[1].Has(1) && HoldsPage(rs[1], 0x1000);
    assert Place(rs, 0x1000) == 0;
    assert ReleasedTable(rs, 0, 0x1000) == [BELOW, ABOVE, BELOW];
  }

  lemma TwoRegions(entries: seq<MemoryMap.Descriptor>)
    requires entries == [MemoryMap.Descriptor(0x5000, 1, MemoryMap.CONVENTIONAL),
                         MemoryMap.Descriptor(0x1000, 1, MemoryMap.CONVENTIONAL)]
    ensures MemoryMap.AllGood(entries) && UsableRanges(MemoryMap.Copied(entries)) == [ABOVE, BELOW]
  {
    var ms := MemoryMap.Copied(entries);
    assert ms[..1][..0] == [] && ms[..1][0] == ms[0];
    assert UsableRanges(ms[..1]) == [ABOVE] && UsableRanges(ms) == [ABOVE] + [BELOW];
  }

  /** Two regions of one page the wrong way round: a free page is taken back, and then handed out twice. */
  lemma TwoRegionsOutOfOrder(entries: seq<MemoryMap.Descriptor>)
    requires entries == [MemoryMap.Descriptor(0x5000, 1, MemoryMap.CONVENTIONAL),
                         MemoryMap.Descriptor(0x1000, 1, MemoryMap.CONVENTIONAL)]
    ensures MemoryMap.AllGood(entries)
    ensures var rs := UsableRanges(MemoryMap.Copied(entries));
      && Covers(PageSpans(rs), 1) && TableStep(rs, rs, Released(1), [BELOW, ABOVE, BELOW]) && !NeverTwice(rs, rs)
  {
    TwoRegions(entries);
    FreePageIsTakenBack();
    ListedTwiceIsUnsafe([ABOVE, BELOW], [BELOW, ABOVE, BELOW], 0, 2, 1);
    UnsafeAfterStep([ABOVE, BELOW], [ABOVE, BELOW], Released(1), [BELOW, ABOVE, BELOW]);
  }
}

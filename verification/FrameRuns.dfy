/** What any run of the frame allocator keeps, stated over its table of free pages. */
module FrameRuns {
  import opened Spans

  /** One successful call; pages are counted in units of the frame size. */
  datatype Event = Allocated(page: int) | AllocatedRun(start: int, count: int) | Released(page: int)

  predicate HandsOut(e: Event, p: int) {
    match e
    case Allocated(page) => p == page
    case AllocatedRun(start, count) => start <= p < start + count
    case Released(_) => false
  }

  /** Index of the longest span, the last one when several are equally long. */
  function LastLongest(s: seq<Span>): (k: nat)
    requires s != []
    ensures k < |s|
    ensures forall i :: 0 <= i < |s| ==> s[i].length <= s[k].length
    ensures forall i :: k < i < |s| ==> s[i].length < s[k].length
  {
    if |s| == 1 then 0
    else
      var k := LastLongest(s[1..]) + 1;
      if s[0].length <= s[k].length then k else 0
  }

  /** What a successful call does to the table of free spans. */
  ghost predicate Step(managed: seq<Span>, s: seq<Span>, e: Event, s': seq<Span>) {
    match e
    case Allocated(page) => s != [] && page == s[0].start && s' == TakeFront(s, 0, 1)
    case AllocatedRun(start, count) =>
      && s != [] && 0 < count <= s[LastLongest(s)].length && start == s[LastLongest(s)].start
      && s' == TakeFront(s, LastLongest(s), count)
    case Released(page) => Covers(managed, page) && !Covers(s, page) && s' == Insert(s, Span(page, 1))
  }

  ghost predicate Run(managed: seq<Span>, states: seq<seq<Span>>, events: seq<Event>) {
    && |states| == |events| + 1
    && (forall i :: 0 <= i < |events| ==> StepAt(managed, states, events, i))
  }

  ghost predicate StepAt(managed: seq<Span>, states: seq<seq<Span>>, events: seq<Event>, i: nat)
    requires i < |events| && |states| == |events| + 1
  {
    Step(managed, states[i], events[i], states[i + 1])
  }

  lemma NotCoveredIsApart(s: seq<Span>, page: int)
    requires Ascending(s) && !Covers(s, page)
    ensures Apart(s, Span(page, 1))
  {
    forall p | Span(page, 1).Has(p) ensures !Covers(s, p) { assert p == page; }
    UncoveredIsApart(s, Span(page, 1));
  }

  lemma StepKeepsOrder(managed: seq<Span>, s: seq<Span>, e: Event, s': seq<Span>)
    requires Ascending(s) && Step(managed, s, e, s')
    ensures Ascending(s') && (Canonical(s) ==> Canonical(s'))
  {
    match e
    case Allocated(page) => TakeFrontEffect(s, 0, 1);
    case AllocatedRun(start, count) => TakeFrontEffect(s, LastLongest(s), count);
    case Released(page) =>
      NotCoveredIsApart(s, page);
      InsertKeepsOrder(s, Span(page, 1));
      if Canonical(s) { InsertKeepsGaps(s, Span(page, 1)); }
  }

  /** A call changes the free set by exactly the pages it hands out or takes back. */
  lemma StepCovers(managed: seq<Span>, s: seq<Span>, e: Event, s': seq<Span>, p: int)
    requires Ascending(s) && Step(managed, s, e, s')
    ensures HandsOut(e, p) ==> Covers(s, p) && !Covers(s', p)
    ensures e == Released(p) ==> !Covers(s, p) && Covers(s', p)
    ensures !HandsOut(e, p) && e != Released(p) ==> (Covers(s', p) <==> Covers(s, p))
  {
    match e
    case Allocated(page) =>
      TakeFrontEffect(s, 0, 1);
      assert s[0].Has(page);
    case AllocatedRun(start, count) =>
      var k := LastLongest(s);
      TakeFrontEffect(s, k, count);
      if HandsOut(e, p) { assert s[k].Has(p); }
    case Released(page) =>
      NotCoveredIsApart(s, page);
      InsertCoversPoint(s, Span(page, 1), p);
  }

  lemma {:induction false} RunKeepsOrder(managed: seq<Span>, states: seq<seq<Span>>, events: seq<Event>, i: nat)
    requires Run(managed, states, events) && Ascending(states[0]) && i <= |events|
    ensures Ascending(states[i]) && (Canonical(states[0]) ==> Canonical(states[i]))
  {
    if i > 0 {
      RunKeepsOrder(managed, states, events, i - 1);
      assert StepAt(managed, states, events, i - 1);
      StepKeepsOrder(managed, states[i - 1], events[i - 1], states[i]);
    }
  }

  lemma RunCovers(managed: seq<Span>, states: seq<seq<Span>>, events: seq<Event>, i: nat, p: int)
    requires Run(managed, states, events) && i < |events| && Ascending(states[i])
    ensures HandsOut(events[i], p) ==> Covers(states[i], p) && !Covers(states[i + 1], p)
    ensures events[i] == Released(p) ==> Covers(managed, p) && !Covers(states[i], p) && Covers(states[i + 1], p)
    ensures !HandsOut(events[i], p) && events[i] != Released(p) ==> (Covers(states[i + 1], p) <==> Covers(states[i], p))
  {
    assert StepAt(managed, states, events, i);
    StepCovers(managed, states[i], events[i], states[i + 1], p);
  }

  lemma {:induction false} StaysTaken(managed: seq<Span>, states: seq<seq<Span>>, events: seq<Event>, i: nat, j: nat, p: int)
    requires Run(managed, states, events) && Ascending(states[0]) && i < j <= |events|
    requires HandsOut(events[i], p) && forall k :: i < k < j ==> events[k] != Released(p)
    ensures !Covers(states[j], p)
  {
    RunKeepsOrder(managed, states, events, j - 1);
    RunCovers(managed, states, events, j - 1, p);
    if j > i + 1 { StaysTaken(managed, states, events, i, j - 1, p); }
  }

  /** No page is handed out twice without being released in between. */
  lemma NoDoubleHandOut(managed: seq<Span>, states: seq<seq<Span>>, events: seq<Event>, i: nat, j: nat, p: int)
    requires Run(managed, states, events) && Ascending(states[0]) && i < j < |events|
    requires HandsOut(events[i], p) && HandsOut(events[j], p)
    ensures exists k :: i < k < j && events[k] == Released(p)
  {
    RunKeepsOrder(managed, states, events, j);
    RunCovers(managed, states, events, j, p);
    if forall k :: i < k < j ==> events[k] != Released(p) { StaysTaken(managed, states, events, i, j, p); }
  }

  /** The pages handed out and not released since, after the first `n` calls. */
  ghost function Outstanding(events: seq<Event>, n: nat): set<int>
    requires n <= |events|
  {
    if n == 0 then {}
    else
      match events[n - 1]
      case Allocated(page) => Outstanding(events, n - 1) + {page}
      case AllocatedRun(start, count) => Outstanding(events, n - 1) + Interval(start, if count < 0 then 0 else count)
      case Released(page) => Outstanding(events, n - 1) - {page}
  }

  lemma OutstandingStep(events: seq<Event>, n: nat, p: int)
    requires 0 < n <= |events|
    ensures p in Outstanding(events, n)
       <==> HandsOut(events[n - 1], p) || (p in Outstanding(events, n - 1) && events[n - 1] != Released(p))
  {
  }

  /** Starting from a full table, a page is always either free or outstanding, never both. */
  lemma {:induction false} FreeOrOutstanding(managed: seq<Span>, states: seq<seq<Span>>, events: seq<Event>, n: nat, p: int)
    requires Run(managed, states, events) && Ascending(managed) && states[0] == managed && n <= |events|
    ensures Covers(managed, p) <==> Covers(states[n], p) || p in Outstanding(events, n)
    ensures !(Covers(states[n], p) && p in Outstanding(events, n))
  {
    if n > 0 {
      FreeOrOutstanding(managed, states, events, n - 1, p);
      RunKeepsOrder(managed, states, events, n - 1);
      RunCovers(managed, states, events, n - 1, p);
      OutstandingStep(events, n, p);
    }
  }

  /** Free plus outstanding pages always make up the managed total. */
  lemma PagesAreConserved(managed: seq<Span>, states: seq<seq<Span>>, events: seq<Event>, n: nat)
    requires Run(managed, states, events) && Ascending(managed) && states[0] == managed && n <= |events|
    ensures Total(states[n]) + |Outstanding(events, n)| == Total(managed)
  {
    RunKeepsOrder(managed, states, events, n);
    var free, out := Points(states[n]), Outstanding(events, n);
    forall p ensures (p in Points(managed) <==> p in free || p in out) && !(p in free && p in out) {
      FreeOrOutstanding(managed, states, events, n, p);
      PointsAreCovered(managed, p);
      PointsAreCovered(states[n], p);
    }
    assert Points(managed) == free + out && free !! out;
    PointsSize(managed);
    PointsSize(states[n]);
  }

  /** From coalesced tables, equal free sets mean equal tables, whatever calls led to them. */
  lemma TableIsDetermined(managed: seq<Span>, states: seq<seq<Span>>, events: seq<Event>,
                          states': seq<seq<Span>>, events': seq<Event>, n: nat, n': nat)
    requires Run(managed, states, events) && Run(managed, states', events') && n <= |events| && n' <= |events'|
    requires Canonical(managed) && states[0] == managed && states'[0] == managed
    requires Outstanding(events, n) == Outstanding(events', n')
    ensures states[n] == states'[n']
  {
    RunKeepsOrder(managed, states, events, n);
    RunKeepsOrder(managed, states', events', n');
    forall p ensures Covers(states[n], p) <==> Covers(states'[n'], p) {
      FreeOrOutstanding(managed, states, events, n, p);
      FreeOrOutstanding(managed, states', events', n', p);
    }
    CanonicalUnique(states[n], states'[n']);
  }

  /** Releasing the page that was just allocated restores a coalesced table exactly. */
  lemma AllocateThenRelease(managed: seq<Span>, s: seq<Span>, s': seq<Span>, s'': seq<Span>, page: int)
    requires Canonical(s) && Step(managed, s, Allocated(page), s') && Step(managed, s', Released(page), s'')
    ensures s'' == s
  {
    TakeThenInsert(s, 0, 1);
  }
}

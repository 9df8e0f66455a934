/** What any run of the heap keeps: its invariant, its ledger, and the contents of the blocks. */
module HeapRuns {
  import opened Machine
  import opened Spans
  import opened HeapList
  import opened Heap

  ghost predicate StepAt(states: seq<HeapState>, events: seq<Event>, i: nat)
    requires i < |events| && |states| == |events| + 1
  {
    Step(states[i], events[i], states[i + 1])
  }

  ghost predicate Run(states: seq<HeapState>, events: seq<Event>) {
    |states| == |events| + 1 && forall i :: 0 <= i < |events| ==> StepAt(states, events, i)
  }

  /** The padding and the short tail a served request costs; nothing else costs anything. */
  ghost function Cost(h: HeapState, e: Event): int {
    match e
    case Served(size, align) =>
      var need, bound := Need(size), Bound(align);
      var k := FirstFit(h.free, need, bound);
      if k < |h.free| then
        var p := AlignUp(h.free[k].start, bound);
        Waste(h.free[k], p, p + need)
      else 0
    case _ => 0
  }

  ghost function CostSum(states: seq<HeapState>, events: seq<Event>, n: nat): int
    requires |states| == |events| + 1 && n <= |events|
  {
    if n == 0 then 0 else CostSum(states, events, n - 1) + Cost(states[n - 1], events[n - 1])
  }

  lemma ServedIsSound(h: HeapState, e: Event, h': HeapState)
    requires Sound(h) && e.Served? && Step(h, e, h')
    ensures Sound(h') && h'.Lost() == h.Lost() + Cost(h, e) && AllKept(h.words, h'.words, h.live)
    ensures 0 <= Cost(h, e) < Bound(e.align) + HEADER
  {
    var need, bound := Need(e.size), Bound(e.align);
    var k := FirstFit(h.free, need, bound);
    var p := AlignUp(h.free[k].start, bound);
    AlignUpIsLeast(h.free[k].start, bound);
    BlockAligned(p, bound, e.align);
    CarvedIsSound(h, k, Span(p, need));
  }

  lemma StepIsSound(h: HeapState, e: Event, h': HeapState)
    requires Sound(h) && Step(h, e, h')
    ensures Sound(h') && h'.Lost() == h.Lost() + Cost(h, e)
  {
    match e
    case Served(_, _) => ServedIsSound(h, e, h');
    case Released(i) => GivenBackIsSound(h, i, h');
    case Written(i, a, v) => ClientStoreIsHarmless(h, i, a, v);
  }

  /** Over every run the heap stays sound, and the bytes lost are exactly those its served requests cost. */
  lemma {:induction false} RunIsSound(states: seq<HeapState>, events: seq<Event>, n: nat)
    requires Run(states, events) && Sound(states[0]) && n <= |events|
    ensures Sound(states[n]) && states[n].Lost() == states[0].Lost() + CostSum(states, events, n)
  {
    if n > 0 {
      RunIsSound(states, events, n - 1);
      assert StepAt(states, events, n - 1);
      StepIsSound(states[n - 1], events[n - 1], states[n]);
    }
  }

  // --------------------------------------------------------- what callers asked for

  /** A served request is answered with a block of its own: as long as asked, but never shorter than a header, and at
      the lowest aligned address where a free chunk has room for both. */
  lemma ServedBlock(h: HeapState, e: Event, h': HeapState)
    requires Sound(h) && e.Served? && Step(h, e, h')
    ensures |h'.live| == |h.live| + 1 && h'.live[..|h.live|] == h.live
    ensures var b := h'.live[|h.live|];
      && b.length == (if e.size >= HEADER then e.size else HEADER)
      && LowestRoom(h.free, e.size, e.align, b.start)
  {
    FirstFitAnswers(h.free, e.size, e.align);
  }

  /** What a served request leaves free: everything but the chunk the block lies in, and of that chunk only what follows
      the block, if a header fits into it. */
  lemma RestStaysFree(h: HeapState, e: Event, h': HeapState) returns (c: Span)
    requires Sound(h) && e.Served? && Step(h, e, h')
    ensures c in h.free && |h'.live| == |h.live| + 1
    ensures var b := h'.live[|h.live|];
      && c.start <= b.start && b.End() <= c.End()
      && forall a :: Covers(h'.free, a) <==>
           if c.Has(a) then a >= b.End() && c.End() - b.End() >= 16 else Covers(h.free, a)
  {
    var need, bound := Need(e.size), Bound(e.align);
    var k := FirstFit(h.free, need, bound);
    c := h.free[k];
    AlignUpIsLeast(c.start, bound);
    var end := AlignUp(c.start, bound) + need;
    forall a
      ensures Covers(h'.free, a) <==> if c.Has(a) then a >= end && c.End() - end >= 16 else Covers(h.free, a)
    {
      CarveCovers(h.free, k, end, a);
    }
  }

  /** The bytes each live block was requested for, in the order of the blocks, for a heap that started without any. */
  ghost function Requested(states: seq<HeapState>, events: seq<Event>, n: nat): (r: seq<Span>)
    requires Run(states, events) && states[0].live == [] && n <= |events|
    ensures |r| == |states[n].live|
  {
    if n == 0 then []
    else
      assert StepAt(states, events, n - 1);
      RequestedNext(states[n - 1], events[n - 1], states[n], Requested(states, events, n - 1))
  }

  /** A call that is served adds what it asked for, at the start of its block; one that returns a block takes its request
      away. */
  ghost function RequestedNext(h: HeapState, e: Event, h': HeapState, asked: seq<Span>): (r: seq<Span>)
    requires Step(h, e, h') && |asked| == |h.live|
    ensures |r| == |h'.live|
  {
    match e
    case Served(size, _) => asked + [Span(h'.live[|asked|].start, size)]
    case Released(i) => Without(asked, i)
    case Written(_, _, _) => asked
  }

  /** Each requested stretch lies at the start of its block. */
  ghost predicate StartBlocks(asked: seq<Span>, live: seq<Span>) {
    |asked| == |live| && forall i :: 0 <= i < |live| ==> asked[i].start == live[i].start && asked[i].End() <= live[i].End()
  }

  lemma StartsWithout(live: seq<Span>, asked: seq<Span>, i: nat)
    requires StartBlocks(asked, live) && i < |live|
    ensures StartBlocks(Without(asked, i), Without(live, i))
  {
    var t, u := Without(live, i), Without(asked, i);
    forall j | 0 <= j < |t| ensures u[j].start == t[j].start && u[j].End() <= t[j].End() {
      var k := if j < i then j else j + 1;
      assert t[j] == live[k] && u[j] == asked[k];
    }
  }

  lemma StartsNext(h: HeapState, e: Event, h': HeapState, asked: seq<Span>)
    requires Sound(h) && Step(h, e, h') && StartBlocks(asked, h.live)
    ensures StartBlocks(RequestedNext(h, e, h', asked), h'.live)
  {
    match e
    case Served(_, _) => ServedBlock(h, e, h');
    case Released(i) =>
      assert h'.live == Without(h.live, i);
      StartsWithout(h.live, asked, i);
    case Written(_, _, _) =>
  }

  lemma {:induction false} RequestsStartBlocks(states: seq<HeapState>, events: seq<Event>, n: nat)
    requires Run(states, events) && Sound(states[0]) && states[0].live == [] && n <= |events|
    ensures StartBlocks(Requested(states, events, n), states[n].live)
  {
    if n > 0 {
      RequestsStartBlocks(states, events, n - 1);
      assert StepAt(states, events, n - 1);
      RunIsSound(states, events, n - 1);
      StartsNext(states[n - 1], events[n - 1], states[n], Requested(states, events, n - 1));
    }
  }

  /** Over every run the stretches that live blocks were requested for lie in the heap, apart from each other and from
      every free chunk: no two callers ever share a byte. */
  lemma RequestsAreApart(states: seq<HeapState>, events: seq<Event>, n: nat)
    requires Run(states, events) && Sound(states[0]) && states[0].live == [] && n <= |events|
    ensures var asked := Requested(states, events, n);
      && (forall i :: 0 <= i < |asked| ==> states[n].lo <= asked[i].start && asked[i].End() <= states[n].hi)
      && (forall i, j :: 0 <= i < j < |asked| ==> Disjoint(asked[i], asked[j]))
      && (forall i :: 0 <= i < |asked| ==> Apart(states[n].free, asked[i]))
  {
    RunIsSound(states, events, n);
    RequestsStartBlocks(states, events, n);
    var h, asked := states[n], Requested(states, events, n);
    forall i, j | 0 <= i < j < |asked| ensures Disjoint(asked[i], asked[j]) {
      assert Disjoint(h.live[i], h.live[j]);
    }
    forall i | 0 <= i < |asked| ensures Apart(h.free, asked[i]) {
      assert Apart(h.free, h.live[i]);
    }
  }

  // ------------------------------------------------------------- block contents

  /** Event `e` is a write into block `b`. */
  ghost predicate WritesTo(h: HeapState, e: Event, b: Span) {
    e.Written? && e.i < |h.live| && h.live[e.i] == b
  }

  lemma OtherWriteKeeps(h: HeapState, e: Event, h': HeapState, j: nat)
    requires Sound(h) && Step(h, e, h') && e.Written? && j < |h.live| && h.live[e.i] != h.live[j]
    ensures Kept(h.words, h'.words, h.live[j])
  {
    assert Disjoint(h.live[e.i], h.live[j]);
    StoreKeeps(h.words, e.a, e.v, h.live[j]);
  }

  /** A call or another client's write leaves the words of a block that lives on as they were. */
  lemma StepKeepsBlock(h: HeapState, e: Event, h': HeapState, b: Span)
    requires Sound(h) && Step(h, e, h') && b in h.live && b in h'.live && !WritesTo(h, e, b)
    ensures Kept(h.words, h'.words, b)
  {
    var j :| 0 <= j < |h.live| && h.live[j] == b;
    var j' :| 0 <= j' < |h'.live| && h'.live[j'] == b;
    match e
    case Served(_, _) => ServedIsSound(h, e, h');
    case Released(_) =>
    case Written(_, _, _) => OtherWriteKeeps(h, e, h', j);
  }

  /** As long as a block lives and its owner does not write into it, its words stay what they were, whatever else is
      requested, returned or written meanwhile. */
  lemma {:induction false} BlockKeepsContents(states: seq<HeapState>, events: seq<Event>, i: nat, j: nat, b: Span)
    requires Run(states, events) && Sound(states[0]) && i <= j <= |events|
    requires forall k :: i <= k <= j ==> b in states[k].live
    requires forall k :: i <= k < j ==> !WritesTo(states[k], events[k], b)
    ensures Kept(states[i].words, states[j].words, b)
    decreases j - i
  {
    if i < j {
      BlockKeepsContents(states, events, i, j - 1, b);
      RunIsSound(states, events, j - 1);
      assert StepAt(states, events, j - 1);
      StepKeepsBlock(states[j - 1], events[j - 1], states[j], b);
      KeptTrans(states[i].words, states[j - 1].words, states[j].words, b);
    }
  }
}

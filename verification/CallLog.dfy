/** What the call tree stands for: the log of recorded calls, each with the whole call stack it was made on. */
module CallLog {
  import opened Machine
  import opened CallTree

  /** The recorded calls in order, and how many were dropped because the tree was full. */
  datatype Log = Log(calls: seq<Path>, dropped: nat)

  function Known(calls: seq<Path>): set<Path> { set q | q in calls }

  /** A call is recorded when its stack is known or the tree has room; otherwise nothing inside it is either. */
  function LogEnter(g: Log, at: Option<Path>, name: Name): (Log, Option<Path>) {
    match at
    case None => (g, None)
    case Some(path) =>
      var q := path + [name];
      if q in g.calls || |Known(g.calls)| < NODE_CAPACITY - 1 then (g.(calls := g.calls + [q]), Some(q))
      else (g.(dropped := g.dropped + 1), None)
  }

  function LogBegin(g: Log, at: Option<Path>, act: Activity): (Log, Option<Path>) {
    match act
    case Call(name, _) => LogEnter(g, at, name)
    case Suspended(_) => (g, None)
  }

  function LogRun(g: Log, at: Option<Path>, acts: seq<Activity>): Log
    decreases acts
  {
    if acts == [] then g
    else
      var (g', at') := LogBegin(g, at, acts[0]);
      LogRun(LogRun(g', at', acts[0].body), at, acts[1..])
  }

  function Count(calls: seq<Path>, q: Path): nat {
    if calls == [] then 0
    else Count(calls[..|calls| - 1], q) + if calls[|calls| - 1] == q then 1 else 0
  }

  lemma CountAppend(calls: seq<Path>, last: Path, q: Path)
    ensures Count(calls + [last], q) == Count(calls, q) + if last == q then 1 else 0
  {
    assert (calls + [last])[..|calls|] == calls;
  }

  lemma {:induction false} CountAbsent(calls: seq<Path>, q: Path)
    ensures q !in calls <==> Count(calls, q) == 0
  {
    if calls != [] {
      CountAbsent(calls[..|calls| - 1], q);
      assert calls == calls[..|calls| - 1] + [calls[|calls| - 1]];
    }
  }

  // ------------------------------------------------------------------ refinement

  function AtOf(t: Tree): Option<Path>
    requires t.current == NO_NODE || t.current < |t.nodes|
  {
    if t.current == NO_NODE then None else Some(PathOf(t.nodes, t.current))
  }

  /** Node `n` counts the recorded calls made on exactly its stack, saturating. */
  predicate Counted(nodes: Nodes, calls: seq<Path>, n: nat)
    requires n < |nodes|
  {
    PathOf(nodes, n) in calls && nodes[n].calls == Min(Count(calls, PathOf(nodes, n)), U64_MAX)
  }

  ghost predicate HasNode(nodes: Nodes, q: Path) { exists n :: 1 <= n < |nodes| && PathOf(nodes, n) == q }

  /** Every node counts its calls and every recorded stack has a node. */
  ghost predicate CountsMatch(nodes: Nodes, calls: seq<Path>) {
    && (forall n :: 1 <= n < |nodes| ==> Counted(nodes, calls, n))
    && (forall q :: q in calls ==> HasNode(nodes, q))
  }

  ghost predicate Refines(t: Tree, g: Log) {
    t.recording && CountsMatch(t.nodes, g.calls) && |Known(g.calls)| == |t.nodes| - 1 && t.dropped == g.dropped
  }

  lemma HasNodeSame(a: Nodes, b: Nodes, q: Path)
    requires SameShape(a, b, |a|) && |a| <= |b| && HasNode(a, q)
    ensures HasNode(b, q)
  {
    var n :| 1 <= n < |a| && PathOf(a, n) == q;
    PathSame(a, b, n);
  }

  lemma CountedAgain(nodes: Nodes, calls: seq<Path>, c: nat, n: nat)
    requires Linked(nodes) && SiblingsDiffer(nodes) && CountsMatch(nodes, calls) && 1 <= c < |nodes| && 1 <= n < |nodes|
    ensures Counted(CountCall(nodes, c), calls + [PathOf(nodes, c)], n)
  {
    assert Counted(nodes, calls, n);
    CountedShape(nodes, c);
    PathSame(nodes, CountCall(nodes, c), n);
    CountAppend(calls, PathOf(nodes, c), PathOf(nodes, n));
    if n != c { PathsDiffer(nodes, n, c); }
  }

  lemma CountedNode(nodes: Nodes, calls: seq<Path>, c: nat)
    requires Linked(nodes) && SiblingsDiffer(nodes) && CountsMatch(nodes, calls) && 1 <= c < |nodes|
    ensures CountsMatch(CountCall(nodes, c), calls + [PathOf(nodes, c)])
    ensures Known(calls + [PathOf(nodes, c)]) == Known(calls)
  {
    var t, calls' := CountCall(nodes, c), calls + [PathOf(nodes, c)];
    assert Counted(nodes, calls, c);
    CountedShape(nodes, c);
    forall n | 1 <= n < |t| ensures Counted(t, calls', n) { CountedAgain(nodes, calls, c, n); }
    forall q | q in calls' ensures HasNode(t, q) {
      assert q in calls;
      HasNodeSame(nodes, t, q);
    }
  }

  /** A stack whose last call has no node below the current one is not in the log. */
  lemma UnknownPath(nodes: Nodes, calls: seq<Path>, p: nat, name: Name)
    requires Linked(nodes) && SiblingsDiffer(nodes) && CountsMatch(nodes, calls) && p < |nodes|
    requires Find(nodes, p, name, |nodes|) == NO_NODE
    ensures PathOf(nodes, p) + [name] !in calls
  {
    var q := PathOf(nodes, p) + [name];
    if q in calls {
      assert HasNode(nodes, q);
      var n :| 1 <= n < |nodes| && PathOf(nodes, n) == q;
      var m := nodes[n].parent;
      assert q == PathOf(nodes, m) + [nodes[n].name];
      assert q[..|q| - 1] == PathOf(nodes, m) && q[..|q| - 1] == PathOf(nodes, p);
      assert q[|q| - 1] == name == nodes[n].name;
      if m != p { PathsDiffer(nodes, m, p); }
    }
  }

  lemma CountedBefore(nodes: Nodes, calls: seq<Path>, p: nat, name: Name, n: nat)
    requires Linked(nodes) && CountsMatch(nodes, calls) && p < |nodes| < NODE_CAPACITY && 1 <= n < |nodes|
    requires PathOf(nodes, p) + [name] !in calls
    ensures Counted(AddNode(nodes, p, name), calls + [PathOf(nodes, p) + [name]], n)
  {
    AddedNodeShape(nodes, p, name);
    assert Counted(nodes, calls, n);
    PathSame(nodes, AddNode(nodes, p, name), n);
    CountAppend(calls, PathOf(nodes, p) + [name], PathOf(nodes, n));
  }

  lemma CountedFirst(nodes: Nodes, calls: seq<Path>, p: nat, name: Name)
    requires Linked(nodes) && p < |nodes| < NODE_CAPACITY && PathOf(nodes, p) + [name] !in calls
    ensures var t, q := AddNode(nodes, p, name), PathOf(nodes, p) + [name];
      PathOf(t, |nodes|) == q && Counted(t, calls + [q], |nodes|)
  {
    var q := PathOf(nodes, p) + [name];
    AddedNodeShape(nodes, p, name);
    PathSame(nodes, AddNode(nodes, p, name), p);
    CountAbsent(calls, q);
    CountAppend(calls, q, q);
  }

  lemma AddedNode(nodes: Nodes, calls: seq<Path>, p: nat, name: Name)
    requires Linked(nodes) && SiblingsDiffer(nodes) && CountsMatch(nodes, calls) && p < |nodes| < NODE_CAPACITY
    requires Find(nodes, p, name, |nodes|) == NO_NODE
    ensures var t, q := AddNode(nodes, p, name), PathOf(nodes, p) + [name];
      PathOf(t, |nodes|) == q && CountsMatch(t, calls + [q])
  {
    var t, q := AddNode(nodes, p, name), PathOf(nodes, p) + [name];
    AddedNodeShape(nodes, p, name);
    UnknownPath(nodes, calls, p, name);
    CountedFirst(nodes, calls, p, name);
    forall n | 1 <= n < |t| ensures Counted(t, calls + [q], n) {
      if n < |nodes| { CountedBefore(nodes, calls, p, name, n); }
    }
    forall r | r in calls + [q] ensures HasNode(t, r) {
      if r in calls { HasNodeSame(nodes, t, r); } else { assert PathOf(t, |nodes|) == r; }
    }
  }

  lemma KnownGrows(calls: seq<Path>, q: Path)
    requires q !in calls
    ensures |Known(calls + [q])| == |Known(calls)| + 1
  {
    assert Known(calls + [q]) == Known(calls) + {q};
  }

  lemma RecordedAgain(t: Tree, g: Log, name: Name)
    requires Sound(t) && Refines(t, g) && t.current != NO_NODE
    requires Find(t.nodes, t.current, name, |t.nodes|) != NO_NODE
    ensures var (g', at') := LogEnter(g, AtOf(t), name);
      Refines(Enter(t, name), g') && AtOf(Enter(t, name)) == at'
  {
    var c := Find(t.nodes, t.current, name, |t.nodes|);
    assert Counted(t.nodes, g.calls, c);
    CountedNode(t.nodes, g.calls, c);
    CountedShape(t.nodes, c);
    PathSame(t.nodes, CountCall(t.nodes, c), c);
  }

  lemma NewCallRefines(t: Tree, g: Log, name: Name)
    requires Sound(t) && Refines(t, g) && t.current != NO_NODE && |t.nodes| < NODE_CAPACITY
    requires Find(t.nodes, t.current, name, |t.nodes|) == NO_NODE
    ensures var t', q := Recorded(t, NO_NODE, name), PathOf(t.nodes, t.current) + [name];
      && q !in g.calls && t'.current < |t'.nodes|
      && Refines(t', g.(calls := g.calls + [q])) && AtOf(t') == Some(q)
  {
    UnknownPath(t.nodes, g.calls, t.current, name);
    AddedNode(t.nodes, g.calls, t.current, name);
    AddedNodeShape(t.nodes, t.current, name);
    KnownGrows(g.calls, PathOf(t.nodes, t.current) + [name]);
  }

  lemma LogOf(g: Log, path: Path, name: Name)
    requires path + [name] !in g.calls
    ensures LogEnter(g, Some(path), name)
         == if |Known(g.calls)| < NODE_CAPACITY - 1 then (g.(calls := g.calls + [path + [name]]), Some(path + [name]))
            else (g.(dropped := g.dropped + 1), None)
  {
  }

  lemma RecordedFirst(t: Tree, g: Log, name: Name)
    requires Sound(t) && Refines(t, g) && t.current != NO_NODE
    requires Find(t.nodes, t.current, name, |t.nodes|) == NO_NODE
    ensures var (g', at') := LogEnter(g, AtOf(t), name);
      Refines(Enter(t, name), g') && AtOf(Enter(t, name)) == at'
  {
    UnknownPath(t.nodes, g.calls, t.current, name);
    LogOf(g, PathOf(t.nodes, t.current), name);
    assert Enter(t, name) == Recorded(t, NO_NODE, name);
    if |t.nodes| < NODE_CAPACITY { NewCallRefines(t, g, name); }
  }

  lemma EnterRefines(t: Tree, g: Log, name: Name)
    requires Sound(t) && Refines(t, g)
    ensures var (g', at') := LogEnter(g, AtOf(t), name);
      Refines(Enter(t, name), g') && Sound(Enter(t, name)) && AtOf(Enter(t, name)) == at'
  {
    EnterIsSound(t, name);
    if t.current != NO_NODE {
      if Find(t.nodes, t.current, name, |t.nodes|) != NO_NODE {
        RecordedAgain(t, g, name);
      } else {
        RecordedFirst(t, g, name);
      }
    }
  }

  lemma BeginRefines(t: Tree, g: Log, act: Activity)
    requires Sound(t) && Refines(t, g)
    ensures var (g', at') := LogBegin(g, AtOf(t), act);
      Sound(Begin(t, act)) && Refines(Begin(t, act), g') && AtOf(Begin(t, act)) == at'
  {
    BeginIsSound(t, act);
    if act.Call? { EnterRefines(t, g, act.name); }
  }

  /** Over any properly nested run the tree stands for the log of its recorded calls. */
  lemma {:induction false} RunRefines(t: Tree, g: Log, acts: seq<Activity>)
    requires Sound(t) && Refines(t, g)
    ensures Refines(Perform(t, acts), LogRun(g, AtOf(t), acts))
    decreases acts
  {
    if acts != [] {
      var (g', at') := LogBegin(g, AtOf(t), acts[0]);
      BeginIsSound(t, acts[0]);
      BeginRefines(t, g, acts[0]);
      RunRefines(Begin(t, acts[0]), g', acts[0].body);
      var inner := Perform(Begin(t, acts[0]), acts[0].body);
      var back := Restore(inner, GuardOf(t));
      if t.current != NO_NODE { PathSame(t.nodes, back.nodes, t.current); }
      RunRefines(back, LogRun(g', at', acts[0].body), acts[1..]);
    }
  }

  const FRESH_TREE := Tree([EMPTY_NODE], ROOT, 0, true)

  /** From boot on: the counts in the tree are the counts of recorded calls, stack by stack. */
  lemma TreeFromBoot(acts: seq<Activity>)
    ensures Sound(FRESH_TREE) && Refines(FRESH_TREE, Log([], 0))
    ensures Refines(Perform(FRESH_TREE, acts), LogRun(Log([], 0), Some([]), acts))
  {
    assert Known([]) == {};
    RunRefines(FRESH_TREE, Log([], 0), acts);
  }

  // ------------------------------------------------------------- nothing is missed

  /** Every call made outside suspended stretches, in order, with its stack. */
  function Entered(at: Path, acts: seq<Activity>): seq<Path>
    decreases acts
  {
    if acts == [] then []
    else
      (match acts[0]
       case Call(name, body) => [at + [name]] + Entered(at + [name], body)
       case Suspended(_) => [])
      + Entered(at, acts[1..])
  }

  lemma {:induction false} NothingRecordedNowhere(g: Log, acts: seq<Activity>)
    ensures LogRun(g, None, acts) == g
    decreases acts
  {
    if acts != [] {
      NothingRecordedNowhere(g, acts[0].body);
      NothingRecordedNowhere(g, acts[1..]);
    }
  }

  lemma {:induction false} DropsAccumulate(g: Log, at: Option<Path>, acts: seq<Activity>)
    ensures LogRun(g, at, acts).dropped >= g.dropped
    decreases acts
  {
    if acts != [] {
      var (g', at') := LogBegin(g, at, acts[0]);
      DropsAccumulate(g', at', acts[0].body);
      DropsAccumulate(LogRun(g', at', acts[0].body), at, acts[1..]);
    }
  }

  /** A run that drops nothing records exactly the calls made, in order, each with its stack. */
  lemma {:induction false} NothingMissed(g: Log, at: Path, acts: seq<Activity>)
    requires LogRun(g, Some(at), acts).dropped == g.dropped
    ensures LogRun(g, Some(at), acts).calls == g.calls + Entered(at, acts)
    decreases acts
  {
    if acts != [] {
      var (g', at') := LogBegin(g, Some(at), acts[0]);
      var inner := LogRun(g', at', acts[0].body);
      DropsAccumulate(g', at', acts[0].body);
      DropsAccumulate(inner, Some(at), acts[1..]);
      NothingMissed(inner, at, acts[1..]);
      match acts[0] {
        case Call(name, body) =>
          NothingMissed(g', at + [name], body);
        case Suspended(body) =>
          NothingRecordedNowhere(g, body);
      }
    }
  }

  // ----------------------------------------------------------------- conservation

  /** The counts of the nodes below `k` whose stack starts with `p`. */
  function CallSum(nodes: Nodes, p: Path, k: nat): nat
    requires k <= |nodes|
  {
    if k <= 1 then 0 else CallSum(nodes, p, k - 1) + if p <= PathOf(nodes, k - 1) then nodes[k - 1].calls else 0
  }

  /** How many recorded calls were made on a stack starting with `p`. */
  function CallsUnder(calls: seq<Path>, p: Path): (n: nat)
    ensures n <= |calls|
  {
    if calls == [] then 0
    else CallsUnder(calls[..|calls| - 1], p) + if p <= calls[|calls| - 1] then 1 else 0
  }

  lemma {:induction false} AllCallsUnderRoot(calls: seq<Path>)
    ensures CallsUnder(calls, []) == |calls|
  {
    if calls != [] { AllCallsUnderRoot(calls[..|calls| - 1]); }
  }

  function CountSum(nodes: Nodes, calls: seq<Path>, p: Path, k: nat): nat
    requires k <= |nodes|
  {
    if k <= 1 then 0
    else
      CountSum(nodes, calls, p, k - 1) + if p <= PathOf(nodes, k - 1) then Count(calls, PathOf(nodes, k - 1)) else 0
  }

  lemma {:induction false} CountAtMost(calls: seq<Path>, q: Path)
    ensures Count(calls, q) <= |calls|
  {
    if calls != [] { CountAtMost(calls[..|calls| - 1], q); }
  }

  lemma {:induction false} CountSumEmpty(nodes: Nodes, p: Path, k: nat)
    requires k <= |nodes|
    ensures CountSum(nodes, [], p, k) == 0
  {
    if k > 1 { CountSumEmpty(nodes, p, k - 1); }
  }

  /** How many of the nodes below `k` stand for stack `q`. */
  function Standing(nodes: Nodes, q: Path, k: nat): nat
    requires k <= |nodes|
  {
    if k <= 1 then 0 else Standing(nodes, q, k - 1) + if PathOf(nodes, k - 1) == q then 1 else 0
  }

  lemma {:induction false} NoneStanding(nodes: Nodes, q: Path, k: nat)
    requires k <= |nodes| && forall n :: 1 <= n < k ==> PathOf(nodes, n) != q
    ensures Standing(nodes, q, k) == 0
  {
    if k > 1 { NoneStanding(nodes, q, k - 1); }
  }

  lemma {:induction false} OneStanding(nodes: Nodes, q: Path, n: nat, k: nat)
    requires 1 <= n < k <= |nodes| && PathOf(nodes, n) == q
    requires forall m :: 1 <= m < k && m != n ==> PathOf(nodes, m) != q
    ensures Standing(nodes, q, k) == 1
  {
    if n == k - 1 { NoneStanding(nodes, q, n); } else { OneStanding(nodes, q, n, k - 1); }
  }

  lemma {:induction false} CountSumAppend(nodes: Nodes, calls: seq<Path>, last: Path, p: Path, k: nat)
    requires k <= |nodes|
    ensures CountSum(nodes, calls + [last], p, k) ==
            CountSum(nodes, calls, p, k) + if p <= last then Standing(nodes, last, k) else 0
  {
    if k > 1 {
      CountSumAppend(nodes, calls, last, p, k - 1);
      CountAppend(calls, last, PathOf(nodes, k - 1));
    }
  }

  lemma {:induction false} CountsAddUp(nodes: Nodes, calls: seq<Path>, p: Path)
    requires Linked(nodes) && SiblingsDiffer(nodes) && forall q :: q in calls ==> HasNode(nodes, q)
    ensures CountSum(nodes, calls, p, |nodes|) == CallsUnder(calls, p)
  {
    if calls == [] {
      CountSumEmpty(nodes, p, |nodes|);
    } else {
      var front, last := calls[..|calls| - 1], calls[|calls| - 1];
      CountsAddUp(nodes, front, p);
      CountSumAppend(nodes, front, last, p, |nodes|);
      assert calls == front + [last];
      assert HasNode(nodes, last);
      var n :| 1 <= n < |nodes| && PathOf(nodes, n) == last;
      forall m | 1 <= m < |nodes| && m != n ensures PathOf(nodes, m) != last { PathsDiffer(nodes, m, n); }
      OneStanding(nodes, last, n, |nodes|);
    }
  }

  lemma {:induction false} CallSumIsCountSum(nodes: Nodes, calls: seq<Path>, p: Path, k: nat)
    requires CountsMatch(nodes, calls) && |calls| <= U64_MAX && k <= |nodes|
    ensures CallSum(nodes, p, k) == CountSum(nodes, calls, p, k)
  {
    if k > 1 {
      CallSumIsCountSum(nodes, calls, p, k - 1);
      assert Counted(nodes, calls, k - 1);
      CountAtMost(calls, PathOf(nodes, k - 1));
    }
  }

  /** Short of saturation, the counts below any stack add up to the calls recorded below it. */
  lemma CallsAreConserved(t: Tree, g: Log, p: Path)
    requires Sound(t) && Refines(t, g) && |g.calls| <= U64_MAX
    ensures CallSum(t.nodes, p, |t.nodes|) == CallsUnder(g.calls, p)
  {
    CallSumIsCountSum(t.nodes, g.calls, p, |t.nodes|);
    CountsAddUp(t.nodes, g.calls, p);
  }
}

/** The flame-graph renderer: parsing a call-tree trace, validating its parents, and adding up subtrees. */
module FlameGraph {
  import opened Machine
  import opened Decimal
  import opened ParentGraph

  datatype Record = Record(parent: int, calls: nat, name: string)

  datatype RenderError =
    | Incomplete | InvalidRecord | InvalidDroppedCount | MissingParent(id: int) | ParentCycle(id: int)

  /** The node dictionary, with its keys in insertion order. */
  datatype Trace = Trace(order: seq<int>, nodes: map<int, Record>, dropped: nat)

  const HEADER_LINE := "AGNOSTOS_PROFILE_V2"
  const FOOTER_LINE := "AGNOSTOS_PROFILE_END"
  const RECORD_PREFIX := "N:"
  const DROPPED_PREFIX := "AGNOSTOS_PROFILE_DROPPED_PATHS="

  /** The root has no parent; the field is never read. */
  const START := Trace([ROOT], map[ROOT := Record(-1, 0, "[root]")], 0)

  ghost predicate Distinct(s: seq<int>) { forall i, j :: 0 <= i < j < |s| ==> s[i] != s[j] }

  ghost predicate WellFormed(t: Trace) {
    && t.order != [] && t.order[0] == ROOT && Distinct(t.order)
    && (forall n :: n in t.order <==> n in t.nodes)
  }

  function ParentsOf(t: Trace): Parents { map n | n in t.nodes :: t.nodes[n].parent }

  function CallsOf(t: Trace): map<int, nat> { map n | n in t.nodes :: t.nodes[n].calls }

  // -------------------------------------------------------------------- parsing

  function IndexOf(s: string, c: char): (i: nat)
    ensures i <= |s| && c !in s[..i] && (i < |s| ==> s[i] == c)
  {
    if s == [] || s[0] == c then 0
    else
      var j := IndexOf(s[1..], c);
      assert s[..j + 1] == [s[0]] + s[1..][..j];
      1 + j
  }

  /** The part before the first space and the part after it. */
  function Cut(s: string): Option<(string, string)> {
    var i := IndexOf(s, ' ');
    if i == |s| then None else Some((s[..i], s[i + 1..]))
  }

  /** Three numbers and a name, separated by single spaces; the name may contain further ones. */
  function ParseRecord(s: string): Option<(nat, Record)> {
    match Cut(s)
    case None => None
    case Some((idText, rest1)) =>
      match Cut(rest1)
      case None => None
      case Some((parentText, rest2)) =>
        match Cut(rest2)
        case None => None
        case Some((callsText, name)) =>
          match (Value(idText), Value(parentText), Value(callsText))
          case (Some(id), Some(parent), Some(calls)) => Some((id, Record(parent, calls, name)))
          case _ => None
  }

  /** Later records replace earlier ones in place. */
  function Put(t: Trace, id: int, r: Record): Trace {
    Trace(if id in t.nodes then t.order else t.order + [id], t.nodes[id := r], t.dropped)
  }

  function AddLine(t: Trace, line: string): Result<Trace, RenderError> {
    if RECORD_PREFIX <= line then
      match ParseRecord(line[|RECORD_PREFIX|..])
      case None => Err(InvalidRecord)
      case Some((id, r)) => Ok(Put(t, id, r))
    else if DROPPED_PREFIX <= line then
      match Value(line[|DROPPED_PREFIX|..])
      case None => Err(InvalidDroppedCount)
      case Some(d) => Ok(t.(dropped := d))
    else Ok(t)
  }

  function AddLines(t: Trace, lines: seq<string>): Result<Trace, RenderError>
    decreases |lines|
  {
    if lines == [] then Ok(t)
    else
      match AddLine(t, lines[0])
      case Err(e) => Err(e)
      case Ok(t') => AddLines(t', lines[1..])
  }

  lemma PutKeepsForm(t: Trace, id: int, r: Record)
    requires WellFormed(t)
    ensures WellFormed(Put(t, id, r))
  {
    var t' := Put(t, id, r);
    if id !in t.nodes {
      forall n ensures n in t'.order <==> n in t.order || n == id { }
    }
  }

  lemma AddLineKeepsForm(t: Trace, line: string)
    requires WellFormed(t) && AddLine(t, line).Ok?
    ensures WellFormed(AddLine(t, line).value)
  {
    if RECORD_PREFIX <= line {
      var record := ParseRecord(line[|RECORD_PREFIX|..]).value;
      PutKeepsForm(t, record.0, record.1);
    }
  }

  lemma AddLinesNext(t: Trace, lines: seq<string>, i: nat)
    requires i < |lines|
    ensures AddLines(t, lines[i..]) == match AddLine(t, lines[i])
                                       case Err(e) => Err(e)
                                       case Ok(t') => AddLines(t', lines[i + 1..])
  {
    assert lines[i..][1..] == lines[i + 1..];
  }

  method Parse(lines: seq<string>) returns (r: Result<Trace, RenderError>)
    ensures r == if HEADER_LINE !in lines || FOOTER_LINE !in lines then Err(Incomplete) else AddLines(START, lines)
    ensures r.Ok? ==> WellFormed(r.value)
  {
    if HEADER_LINE !in lines || FOOTER_LINE !in lines {
      return Err(Incomplete);
    }
    var t := START;
    assert lines[0..] == lines;
    for i := 0 to |lines|
      invariant WellFormed(t) && AddLines(START, lines) == AddLines(t, lines[i..])
    {
      AddLinesNext(t, lines, i);
      var added := AddLine(t, lines[i]);
      if added.Err? {
        return added;
      }
      AddLineKeepsForm(t, lines[i]);
      t := added.value;
    }
    return Ok(t);
  }

  // ------------------------------------------------------------------- children

  /** The nodes among `s` that name `n` as their parent, in order. */
  function ChildList(s: seq<int>, parent: Parents, n: int): seq<int>
    requires forall i :: 0 <= i < |s| ==> s[i] in parent
  {
    if s == [] then []
    else
      ChildList(s[..|s| - 1], parent, n) + if parent[s[|s| - 1]] == n then [s[|s| - 1]] else []
  }

  lemma {:induction false} ChildListMembers(s: seq<int>, parent: Parents, n: int)
    requires Distinct(s) && forall i :: 0 <= i < |s| ==> s[i] in parent
    ensures forall c :: c in ChildList(s, parent, n) <==> c in s && parent[c] == n
    ensures Distinct(ChildList(s, parent, n))
  {
    if s != [] {
      var front, last := s[..|s| - 1], s[|s| - 1];
      ChildListMembers(front, parent, n);
      assert s == front + [last];
      assert last !in front;
    }
  }

  ghost predicate Linked(t: Trace, children: map<int, seq<int>>)
    requires WellFormed(t)
  {
    && Closed(t.nodes.Keys, ParentsOf(t)) && children.Keys == t.nodes.Keys
    && (forall n :: n in t.nodes ==> Children(t.nodes.Keys, ParentsOf(t), n, children[n]))
  }

  /** The nodes listed before position `i` hang under their parents. */
  ghost predicate Hung(t: Trace, children: map<int, seq<int>>, i: nat)
    requires WellFormed(t) && 1 <= i <= |t.order|
  {
    && children.Keys == t.nodes.Keys
    && forall n :: n in t.nodes ==> children[n] == ChildList(t.order[1..i], ParentsOf(t), n)
  }

  lemma HungNext(t: Trace, children: map<int, seq<int>>, i: nat)
    requires WellFormed(t) && 1 <= i < |t.order| && Hung(t, children, i) && t.nodes[t.order[i]].parent in t.nodes
    ensures var p := t.nodes[t.order[i]].parent; Hung(t, children[p := children[p] + [t.order[i]]], i + 1)
  {
    var before, upTo := t.order[1..i], t.order[1..i + 1];
    assert upTo == before + [t.order[i]];
    assert upTo[..|upTo| - 1] == before;
  }

  lemma AllLinked(t: Trace, children: map<int, seq<int>>)
    requires WellFormed(t) && Closed(t.nodes.Keys, ParentsOf(t)) && Hung(t, children, |t.order|)
    ensures Linked(t, children)
  {
    assert t.order[1..|t.order|] == t.order[1..];
    forall n | n in t.nodes ensures Children(t.nodes.Keys, ParentsOf(t), n, children[n]) { ChildrenListed(t, n); }
  }

  /** Hangs every node but the root under its parent, or reports one whose parent is missing. */
  method LinkChildren(t: Trace) returns (r: Result<map<int, seq<int>>, RenderError>)
    requires WellFormed(t)
    ensures r.Ok? <==> Closed(t.nodes.Keys, ParentsOf(t))
    ensures r.Ok? ==> Linked(t, r.value)
    ensures r.Err? ==> r.error.MissingParent? && r.error.id in t.nodes && t.nodes[r.error.id].parent !in t.nodes
  {
    var children: map<int, seq<int>> := map n | n in t.nodes :: [];
    for i := 1 to |t.order|
      invariant Hung(t, children, i)
      invariant forall j :: 1 <= j < i ==> t.nodes[t.order[j]].parent in t.nodes
    {
      var id := t.order[i];
      var p := t.nodes[id].parent;
      if p !in t.nodes {
        assert id in t.nodes && id != ROOT && ParentsOf(t)[id] == p;
        return Err(MissingParent(id));
      }
      HungNext(t, children, i);
      children := children[p := children[p] + [id]];
    }
    ParentsPresent(t);
    AllLinked(t, children);
    return Ok(children);
  }

  lemma ParentsPresent(t: Trace)
    requires WellFormed(t) && forall j :: 1 <= j < |t.order| ==> t.nodes[t.order[j]].parent in t.nodes
    ensures Closed(t.nodes.Keys, ParentsOf(t))
  {
    forall n | n in t.nodes && n != ROOT ensures t.nodes[n].parent in t.nodes {
      var j :| 0 <= j < |t.order| && t.order[j] == n;
    }
  }

  lemma ChildrenListed(t: Trace, n: int)
    requires WellFormed(t) && Closed(t.nodes.Keys, ParentsOf(t)) && n in t.nodes
    ensures Children(t.nodes.Keys, ParentsOf(t), n, ChildList(t.order[1..], ParentsOf(t), n))
  {
    var tail := t.order[1..];
    assert Distinct(tail);
    ChildListMembers(tail, ParentsOf(t), n);
    forall c ensures c in tail <==> c in t.nodes && c != ROOT {
      if c in t.nodes && c != ROOT {
        var j :| 0 <= j < |t.order| && t.order[j] == c;
        assert tail[j - 1] == c;
      }
      if c in tail { assert c in t.order; }
    }
  }

  // ------------------------------------------------------------------ validation

  function ChainAt(chain: seq<int>, current: int, i: nat): int { if i < |chain| then chain[i] else current }

  /** Each node's parent is the next one of the chain, the last one's is `current`. */
  ghost predicate IsChain(parent: Parents, chain: seq<int>, current: int) {
    forall i :: 0 <= i < |chain| ==>
      chain[i] in parent && chain[i] != ROOT && parent[chain[i]] == ChainAt(chain, current, i + 1)
  }

  lemma ChainGrows(parent: Parents, chain: seq<int>, current: int)
    requires IsChain(parent, chain, current) && current in parent && current != ROOT
    ensures IsChain(parent, chain + [current], parent[current])
  {
    var longer := chain + [current];
    forall i | 0 <= i < |longer|
      ensures longer[i] in parent && longer[i] != ROOT && parent[longer[i]] == ChainAt(longer, parent[current], i + 1)
    {
      if i < |chain| { assert parent[chain[i]] == ChainAt(chain, current, i + 1); }
    }
  }

  lemma {:induction false} ChainClimbs(ids: set<int>, parent: Parents, chain: seq<int>, current: int, i: nat)
    requires Closed(ids, parent) && IsChain(parent, chain, current) && i <= |chain| && current in ids
    requires forall j :: 0 <= j < |chain| ==> chain[j] in ids
    ensures Climb(ids, parent, ChainAt(chain, current, i), |chain| - i) == current
    decreases |chain| - i
  {
    if i < |chain| {
      ChainClimbs(ids, parent, chain, current, i + 1);
      assert parent[chain[i]] == ChainAt(chain, current, i + 1);
    }
  }

  /** Meeting a node of the chain again means it is on a cycle. */
  lemma ChainCloses(ids: set<int>, parent: Parents, chain: seq<int>, current: int)
    requires Closed(ids, parent) && IsChain(parent, chain, current) && current in chain && current in ids
    requires forall j :: 0 <= j < |chain| ==> chain[j] in ids
    ensures OnCycle(ids, parent, current)
  {
    var i :| 0 <= i < |chain| && chain[i] == current;
    ChainClimbs(ids, parent, chain, current, i);
  }

  /** A chain that ends in a node reaching the root reaches the root everywhere. */
  lemma ChainReaches(ids: set<int>, parent: Parents, chain: seq<int>, current: int)
    requires Closed(ids, parent) && IsChain(parent, chain, current)
    requires current in ids && Reaches(ids, parent, current)
    requires forall j :: 0 <= j < |chain| ==> chain[j] in ids
    ensures forall j :: 0 <= j < |chain| ==> Reaches(ids, parent, chain[j])
  {
    var k: nat :| Climb(ids, parent, current, k) == ROOT;
    forall j | 0 <= j < |chain| ensures Reaches(ids, parent, chain[j]) {
      ChainClimbs(ids, parent, chain, current, j);
      ClimbAdd(ids, parent, chain[j], |chain| - j, k);
    }
  }

  /** Climbs from `id` to an already validated node, or finds a node on a cycle. */
  method ClimbToValidated(ghost ids: set<int>, parent: Parents, validated: set<int>, id: int)
    returns (chain: seq<int>, cycle: Option<int>)
    requires Closed(ids, parent) && id in ids && validated <= ids && ROOT in validated
    requires forall n :: n in validated ==> Reaches(ids, parent, n)
    ensures cycle.Some? ==> cycle.value in ids && OnCycle(ids, parent, cycle.value)
    ensures cycle.None? ==> id in validated || id in chain
    ensures cycle.None? ==> forall j :: 0 <= j < |chain| ==> chain[j] in ids && Reaches(ids, parent, chain[j])
  {
    chain := [];
    var current := id;
    while current !in validated
      invariant current in ids && IsChain(parent, chain, current)
      invariant forall j :: 0 <= j < |chain| ==> chain[j] in ids
      invariant if chain == [] then current == id else id in chain
      decreases ids - (set n | n in chain)
    {
      if current in chain {
        ChainCloses(ids, parent, chain, current);
        return chain, Some(current);
      }
      ghost var seen := set n | n in chain;
      ChainGrows(parent, chain, current);
      chain := chain + [current];
      assert (set n | n in chain) == seen + {current};
      current := parent[current];
    }
    ChainReaches(ids, parent, chain, current);
    return chain, None;
  }

  /** Accepts exactly the parent graphs without a cycle, and otherwise names a node on one. */
  method Validate(order: seq<int>, ghost ids: set<int>, parent: Parents) returns (cycle: Option<int>)
    requires Closed(ids, parent) && forall n :: n in order <==> n in ids
    ensures cycle.None? <==> Acyclic(ids, parent)
    ensures cycle.None? <==> forall n :: n in ids ==> Reaches(ids, parent, n)
    ensures cycle.Some? ==> cycle.value in ids && OnCycle(ids, parent, cycle.value)
  {
    var validated := {ROOT};
    assert Climb(ids, parent, ROOT, 0) == ROOT;
    for i := 0 to |order|
      invariant ROOT in validated && validated <= ids
      invariant forall n :: n in validated ==> Reaches(ids, parent, n)
      invariant forall j :: 0 <= j < i ==> order[j] in validated
    {
      var chain;
      chain, cycle := ClimbToValidated(ids, parent, validated, order[i]);
      if cycle.Some? {
        CycleMeansNoRoot(ids, parent, cycle.value);
        return;
      }
      validated := validated + (set n | n in chain);
    }
    forall n | n in ids ensures Reaches(ids, parent, n) && !OnCycle(ids, parent, n) {
      assert n in order;
      if OnCycle(ids, parent, n) { CycleMeansNoRoot(ids, parent, n); }
    }
    return None;
  }

  // ------------------------------------------------------------------- weights

  predicate ChildOf(parent: Parents, c: int, n: int) { c != ROOT && c in parent && parent[c] == n }

  /** Of the nodes listed, a parent comes before each of its children. */
  ghost predicate ParentsFirst(parent: Parents, order: seq<int>) {
    forall i, j :: 0 <= i < |order| && 0 <= j < |order| && ChildOf(parent, order[j], order[i]) ==> i < j
  }

  /** What the traversal keeps: nothing is listed twice, and exactly the children of finished nodes are listed. */
  ghost predicate Traversing(ids: set<int>, parent: Parents, order: seq<int>, pending: seq<int>)
    requires Closed(ids, parent)
  {
    && Distinct(order + pending) && (forall n :: n in order + pending ==> n in ids) && ROOT in order + pending
    && (forall n :: n in ids && n != ROOT ==> (n in order + pending <==> parent[n] in order))
    && ParentsFirst(parent, order)
  }

  lemma TraversalStep(ids: set<int>, parent: Parents, order: seq<int>, rest: seq<int>, n: int, cs: seq<int>)
    requires Closed(ids, parent) && Traversing(ids, parent, order, rest + [n]) && n in ids
    requires Children(ids, parent, n, cs)
    ensures n !in order && Traversing(ids, parent, order + [n], rest + cs)
  {
    var before, after := order + (rest + [n]), (order + [n]) + (rest + cs);
    assert before == order + rest + [n];
    forall i | 0 <= i < |order + rest| ensures (order + rest)[i] != n {
      assert (order + rest)[i] == before[i] && before[|before| - 1] == n;
    }
    assert n !in order by { assert forall i :: 0 <= i < |order| ==> order[i] == (order + rest)[i]; }
    assert forall m :: m in after <==> m in before || m in cs;
    StepDistinct(ids, parent, order, rest, n, cs);
    forall m | m in ids && m != ROOT ensures m in after <==> parent[m] in order + [n] { }
    StepParentsFirst(ids, parent, order, rest, n);
  }

  lemma StepDistinct(ids: set<int>, parent: Parents, order: seq<int>, rest: seq<int>, n: int, cs: seq<int>)
    requires Closed(ids, parent) && Traversing(ids, parent, order, rest + [n]) && n in ids
    requires Children(ids, parent, n, cs)
    requires n !in order
    ensures Distinct((order + [n]) + (rest + cs))
  {
    var before := order + (rest + [n]);
    forall c | c in cs ensures c !in before { assert c in ids && c != ROOT && parent[c] == n; }
    var moved := (order + [n]) + rest;
    assert forall i :: 0 <= i < |moved| ==>
      moved[i] == before[if i < |order| then i else if i == |order| then |before| - 1 else i - 1];
    assert (order + [n]) + (rest + cs) == moved + cs;
    forall i, j | 0 <= i < j < |moved + cs| ensures (moved + cs)[i] != (moved + cs)[j] {
      if i < |moved| <= j { assert moved[i] in before && cs[j - |moved|] in cs; }
    }
  }

  lemma StepParentsFirst(ids: set<int>, parent: Parents, order: seq<int>, rest: seq<int>, n: int)
    requires Closed(ids, parent) && Traversing(ids, parent, order, rest + [n]) && n !in order && n in ids
    ensures ParentsFirst(parent, order + [n])
  {
    var longer := order + [n];
    forall i, j | 0 <= i < |longer| && 0 <= j < |longer| && ChildOf(parent, longer[j], longer[i]) ensures i < j {
      assert longer[j] in order + (rest + [n]);
      assert parent[longer[j]] in order;
    }
  }

  lemma {:induction false} ReachesIsListed(ids: set<int>, parent: Parents, order: seq<int>, n: int, k: nat)
    requires Closed(ids, parent) && Traversing(ids, parent, order, []) && n in ids && Climb(ids, parent, n, k) == ROOT
    ensures n in order
    decreases k
  {
    assert order + [] == order;
    if n != ROOT { ReachesIsListed(ids, parent, order, parent[n], k - 1); }
  }

  /** Depth-first from the root with an explicit stack. */
  method Traverse(ghost ids: set<int>, ghost parent: Parents, children: map<int, seq<int>>) returns (order: seq<int>)
    requires Closed(ids, parent) && forall n :: n in ids ==> Reaches(ids, parent, n)
    requires children.Keys == ids && forall n :: n in ids ==> Children(ids, parent, n, children[n])
    ensures Distinct(order) && ParentsFirst(parent, order) && forall n :: n in order <==> n in ids
  {
    order := [];
    var pending := [ROOT];
    while pending != []
      invariant Traversing(ids, parent, order, pending)
      decreases ids - (set m | m in order)
    {
      var id, rest := pending[|pending| - 1], pending[..|pending| - 1];
      assert pending == rest + [id] && id in order + pending;
      TraversalStep(ids, parent, order, rest, id, children[id]);
      ghost var listed := set m | m in order;
      order := order + [id];
      assert (set m | m in order) == listed + {id};
      pending := rest + children[id];
    }
    assert order + pending == order;
    forall n | n in ids ensures n in order {
      var k: nat :| Climb(ids, parent, n, k) == ROOT;
      ReachesIsListed(ids, parent, order, n, k);
    }
  }

  /** Adds up the subtrees, children before parents. */
  method Weigh(ghost ids: set<int>, ghost parent: Parents, children: map<int, seq<int>>, calls: map<int, nat>,
               order: seq<int>) returns (weight: map<int, nat>)
    requires Closed(ids, parent) && Acyclic(ids, parent) && ids == calls.Keys == children.Keys
    requires forall n :: n in ids ==> Children(ids, parent, n, children[n])
    requires Distinct(order) && ParentsFirst(parent, order) && forall n :: n in order <==> n in ids
    ensures weight.Keys == ids && forall n :: n in ids ==> weight[n] == Sum(Subtree(ids, parent, n), calls)
  {
    weight := calls;
    for i := |order| downto 0
      invariant weight.Keys == ids && WeighedFrom(ids, parent, calls, weight, order, i)
    {
      var id := order[i];
      ChildrenWeighed(ids, parent, children, calls, weight, order, i);
      var w := calls[id] + WeightSum(weight, children[id]);
      WeighedNext(ids, parent, children[id], calls, weight, order, i, w);
      weight := weight[id := w];
    }
    AllWeighed(ids, parent, calls, weight, order);
  }

  ghost predicate WeighedFrom(ids: set<int>, parent: Parents, calls: map<int, nat>, weight: map<int, nat>,
                              order: seq<int>, i: nat)
    requires Closed(ids, parent) && ids == calls.Keys
  {
    forall j :: i <= j < |order| ==> Weighed(ids, parent, calls, weight, order[j])
  }

  lemma WeighedNext(ids: set<int>, parent: Parents, cs: seq<int>, calls: map<int, nat>, weight: map<int, nat>,
                    order: seq<int>, i: nat, w: nat)
    requires Closed(ids, parent) && Acyclic(ids, parent) && ids == calls.Keys == weight.Keys
    requires Distinct(order) && i < |order| && order[i] in ids && Children(ids, parent, order[i], cs)
    requires WeighedFrom(ids, parent, calls, weight, order, i + 1)
    requires forall q :: 0 <= q < |cs| ==> Weighed(ids, parent, calls, weight, cs[q]) && cs[q] in weight
    requires w == calls[order[i]] + WeightSum(weight, cs)
    ensures WeighedFrom(ids, parent, calls, weight[order[i] := w], order, i)
  {
    SubtreeSum(ids, parent, calls, weight, cs, order[i]);
  }

  lemma AllWeighed(ids: set<int>, parent: Parents, calls: map<int, nat>, weight: map<int, nat>, order: seq<int>)
    requires Closed(ids, parent) && ids == calls.Keys == weight.Keys
    requires WeighedFrom(ids, parent, calls, weight, order, 0) && forall n :: n in ids ==> n in order
    ensures forall n :: n in ids ==> weight[n] == Sum(Subtree(ids, parent, n), calls)
  {
    forall n | n in ids ensures weight[n] == Sum(Subtree(ids, parent, n), calls) {
      var j :| 0 <= j < |order| && order[j] == n;
      assert Weighed(ids, parent, calls, weight, order[j]);
    }
  }

  lemma ChildIsNode(ids: set<int>, parent: Parents, n: int, cs: seq<int>, q: nat)
    requires Closed(ids, parent) && Children(ids, parent, n, cs) && q < |cs|
    ensures cs[q] in ids && ChildOf(parent, cs[q], n)
  {
    assert cs[q] in cs;
  }

  lemma ChildrenWeighed(ids: set<int>, parent: Parents, children: map<int, seq<int>>, calls: map<int, nat>,
                        weight: map<int, nat>, order: seq<int>, i: nat)
    requires Closed(ids, parent) && ids == calls.Keys == children.Keys == weight.Keys
    requires forall n :: n in ids ==> Children(ids, parent, n, children[n])
    requires ParentsFirst(parent, order) && (forall n :: n in order <==> n in ids) && i < |order|
    requires WeighedFrom(ids, parent, calls, weight, order, i + 1)
    ensures order[i] in ids
    ensures var cs := children[order[i]];
      forall q :: 0 <= q < |cs| ==> Weighed(ids, parent, calls, weight, cs[q]) && cs[q] in weight
  {
    assert order[i] in order;
    var cs := children[order[i]];
    forall q | 0 <= q < |cs| ensures Weighed(ids, parent, calls, weight, cs[q]) && cs[q] in weight {
      assert order[i] in ids && Children(ids, parent, order[i], cs);
      ChildIsNode(ids, parent, order[i], cs, q);
      assert cs[q] in order;
      var j :| 0 <= j < |order| && order[j] == cs[q];
      assert ChildOf(parent, order[j], order[i]);
    }
  }

  // ------------------------------------------------------------------ rendering

  /** Both marker lines are there and every record parses. */
  predicate Readable(lines: seq<string>) {
    HEADER_LINE in lines && FOOTER_LINE in lines && AddLines(START, lines).Ok?
  }

  function TraceOf(lines: seq<string>): Trace
    requires Readable(lines)
  {
    AddLines(START, lines).value
  }

  /** The root is a node, every parent is a node, and no node is its own ancestor. */
  ghost predicate IsTree(t: Trace) {
    var ids, parent := t.nodes.Keys, ParentsOf(t);
    Closed(ids, parent) && Acyclic(ids, parent)
  }

  /** Every node weighs the calls of its subtree, and the root those of all nodes. */
  ghost predicate WeightsAdd(t: Trace, weight: map<int, nat>)
    requires IsTree(t)
  {
    var ids, parent, calls := t.nodes.Keys, ParentsOf(t), CallsOf(t);
    && weight.Keys == ids && weight[ROOT] == Sum(ids, calls)
    && forall n :: n in ids ==> weight[n] == Sum(Subtree(ids, parent, n), calls)
  }

  /** The weights to draw, or the first thing wrong with the trace. */
  method Render(lines: seq<string>) returns (r: Result<map<int, nat>, RenderError>)
    ensures r.Ok? <==> Readable(lines) && IsTree(TraceOf(lines))
    ensures r.Ok? ==> WeightsAdd(TraceOf(lines), r.value)
    ensures HEADER_LINE !in lines || FOOTER_LINE !in lines ==> r == Err(Incomplete)
    ensures HEADER_LINE in lines && FOOTER_LINE in lines && !Readable(lines) ==> r == Err(AddLines(START, lines).error)
    ensures r.Err? && Readable(lines) ==> r.error.ParentCycle? || r.error.MissingParent?
    ensures r.Err? && r.error.MissingParent? && Readable(lines) ==>
              var t := TraceOf(lines); r.error.id in t.nodes && t.nodes[r.error.id].parent !in t.nodes
    ensures r.Err? && r.error.ParentCycle? && Readable(lines) ==>
              var t := TraceOf(lines);
              Closed(t.nodes.Keys, ParentsOf(t)) && r.error.id in t.nodes
              && OnCycle(t.nodes.Keys, ParentsOf(t), r.error.id)
  {
    var parsed := Parse(lines);
    if parsed.Err? {
      return Err(parsed.error);
    }
    var t := parsed.value;
    var linked := LinkChildren(t);
    if linked.Err? {
      return Err(linked.error);
    }
    ghost var ids := t.nodes.Keys;
    var parent, calls := ParentsOf(t), CallsOf(t);
    var cycle := Validate(t.order, ids, parent);
    if cycle.Some? {
      return Err(ParentCycle(cycle.value));
    }
    var order := Traverse(ids, parent, linked.value);
    var weight := Weigh(ids, parent, linked.value, calls, order);
    RootSubtreeIsAll(ids, parent);
    return Ok(weight);
  }
}

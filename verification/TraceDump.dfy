/** The trace the profiler prints at shutdown, and what the renderer makes of it. */
module TraceDump {
  import opened Machine
  import opened Decimal
  import opened CallTree
  import opened CallLog
  import F = FlameGraph
  import G = ParentGraph

  function RecordText(id: nat, n: Node): string {
    Numeral(id) + " " + (Numeral(n.parent) + " " + (Numeral(n.calls) + " " + n.name.text))
  }

  function RecordLine(nodes: Nodes, i: nat): string
    requires i < |nodes|
  {
    F.RECORD_PREFIX + RecordText(i, nodes[i])
  }

  /** One line per node below `k`, the root left out. */
  function RecordLines(nodes: Nodes, k: nat): seq<string>
    requires k <= |nodes|
  {
    if k <= 1 then [] else RecordLines(nodes, k - 1) + [RecordLine(nodes, k - 1)]
  }

  function DroppedLine(dropped: nat): string { F.DROPPED_PREFIX + Numeral(dropped) }

  /** Everything `dump` prints, line by line. */
  function DumpLines(t: Tree): seq<string> {
    [F.HEADER_LINE] + RecordLines(t.nodes, |t.nodes|)
    + (if t.dropped > 0 then [DroppedLine(t.dropped)] else []) + [F.FOOTER_LINE]
  }

  /** The dump line by line: the header, one line for every node but the root in the order of their numbers, the count if
      anything was dropped, the footer. */
  lemma DumpShape(t: Tree)
    requires t.nodes != []
    ensures var lines, n := DumpLines(t), |t.nodes|;
      && |lines| == n + 1 + (if t.dropped > 0 then 1 else 0)
      && lines[0] == "AGNOSTOS_PROFILE_V2" && lines[|lines| - 1] == "AGNOSTOS_PROFILE_END"
      && (t.dropped > 0 ==> lines[n] == "AGNOSTOS_PROFILE_DROPPED_PATHS=" + Numeral(t.dropped))
      && forall i :: 1 <= i < n ==>
           lines[i] == "N:" + (Numeral(i) + " " + (Numeral(t.nodes[i].parent) + " "
                               + (Numeral(t.nodes[i].calls) + " " + t.nodes[i].name.text)))
  {
    var lines, n := DumpLines(t), |t.nodes|;
    RecordLinesAt(t.nodes, n);
    forall i | 1 <= i < n ensures lines[i] == RecordLine(t.nodes, i) {
      assert lines[i] == RecordLines(t.nodes, n)[i - 1];
    }
  }

  lemma {:induction false} RecordLinesAt(nodes: Nodes, k: nat)
    requires 1 <= k <= |nodes|
    ensures |RecordLines(nodes, k)| == k - 1
    ensures forall i :: 1 <= i < k ==> RecordLines(nodes, k)[i - 1] == RecordLine(nodes, i)
  {
    if k > 1 { RecordLinesAt(nodes, k - 1); }
  }

  // ------------------------------------------------------------ lines read back

  lemma CutAtSpace(a: string, b: string)
    requires ' ' !in a
    ensures F.Cut(a + " " + b) == Some((a, b))
  {
    var s := a + " " + b;
    assert s[|a|] == ' ';
    var i := F.IndexOf(s, ' ');
    forall j | 0 <= j < |a| ensures s[j] != ' ' { assert s[j] == a[j]; }
    forall j | 0 <= j < i ensures s[j] != ' ' { assert s[..i][j] == s[j]; }
    assert s[..|a|] == a && s[|a| + 1..] == b;
  }

  /** A printed record is read back field by field, whatever the name. */
  lemma RecordReadsBack(id: nat, n: Node)
    ensures F.ParseRecord(RecordText(id, n)) == Some((id, F.Record(n.parent, n.calls, n.name.text)))
  {
    var rest2 := Numeral(n.calls) + " " + n.name.text;
    var rest1 := Numeral(n.parent) + " " + rest2;
    CutAtSpace(Numeral(id), rest1);
    CutAtSpace(Numeral(n.parent), rest2);
    CutAtSpace(Numeral(n.calls), n.name.text);
    NumeralReadsBack(id);
    NumeralReadsBack(n.parent);
    NumeralReadsBack(n.calls);
  }

  lemma RecordLineIsPut(nodes: Nodes, i: nat, t: F.Trace)
    requires i < |nodes|
    ensures F.AddLine(t, RecordLine(nodes, i)) ==
            Ok(F.Put(t, i, F.Record(nodes[i].parent, nodes[i].calls, nodes[i].name.text)))
  {
    RecordReadsBack(i, nodes[i]);
    assert RecordLine(nodes, i)[|F.RECORD_PREFIX|..] == RecordText(i, nodes[i]);
  }

  lemma DroppedReadsBack(t: F.Trace, dropped: nat)
    ensures F.AddLine(t, DroppedLine(dropped)) == Ok(t.(dropped := dropped))
  {
    NumeralReadsBack(dropped);
    assert DroppedLine(dropped)[|F.DROPPED_PREFIX|..] == Numeral(dropped);
    assert DroppedLine(dropped)[0] != F.RECORD_PREFIX[0];
  }

  /** A line that carries no record and no count, such as the markers. */
  predicate Ignored(line: string) { !(F.RECORD_PREFIX <= line) && !(F.DROPPED_PREFIX <= line) }

  lemma MarkersAreIgnored()
    ensures Ignored(F.HEADER_LINE) && Ignored(F.FOOTER_LINE)
  {
    assert F.HEADER_LINE[0] != F.RECORD_PREFIX[0] && F.FOOTER_LINE[0] != F.RECORD_PREFIX[0];
    assert F.HEADER_LINE[17] != F.DROPPED_PREFIX[17] && F.FOOTER_LINE[17] != F.DROPPED_PREFIX[17];
  }

  lemma {:induction false} AllIgnored(t: F.Trace, lines: seq<string>)
    requires forall line :: line in lines ==> Ignored(line)
    ensures F.AddLines(t, lines) == Ok(t)
    decreases |lines|
  {
    if lines != [] {
      assert Ignored(lines[0]);
      AllIgnored(t, lines[1..]);
    }
  }

  lemma FirstLine(t: F.Trace, lines: seq<string>)
    requires lines != []
    ensures F.AddLines(t, lines) ==
            match F.AddLine(t, lines[0]) case Err(e) => Err(e) case Ok(next) => F.AddLines(next, lines[1..])
  {
  }

  lemma {:induction false} LinesInTwoParts(t: F.Trace, a: seq<string>, b: seq<string>)
    requires F.AddLines(t, a).Ok?
    ensures F.AddLines(t, a + b) == F.AddLines(F.AddLines(t, a).value, b)
  {
    var lines, u := a + b, t;
    assert a[0..] == a && lines[0..] == lines;
    for i := 0 to |a|
      invariant F.AddLines(t, a) == F.AddLines(u, a[i..]) && F.AddLines(t, lines) == F.AddLines(u, lines[i..])
    {
      assert lines[i] == a[i];
      F.AddLinesNext(u, a, i);
      F.AddLinesNext(u, lines, i);
      u := F.AddLine(u, a[i]).value;
    }
    assert a[|a|..] == [] && lines[|a|..] == b;
  }

  // ---------------------------------------------------------------- the trace read

  /** The dictionary after the records of the nodes below `k`. */
  function TraceOf(nodes: Nodes, k: nat): F.Trace
    requires k <= |nodes|
  {
    if k <= 1 then F.START
    else F.Put(TraceOf(nodes, k - 1), k - 1, F.Record(nodes[k - 1].parent, nodes[k - 1].calls, nodes[k - 1].name.text))
  }

  lemma {:induction false} RecordsReadBack(nodes: Nodes, k: nat)
    requires k <= |nodes|
    ensures F.AddLines(F.START, RecordLines(nodes, k)) == Ok(TraceOf(nodes, k))
  {
    if k > 1 {
      var last := [RecordLine(nodes, k - 1)];
      RecordsReadBack(nodes, k - 1);
      LinesInTwoParts(F.START, RecordLines(nodes, k - 1), last);
      RecordLineIsPut(nodes, k - 1, TraceOf(nodes, k - 1));
      assert last[1..] == [];
    }
  }

  /** The whole dump, after any lines that are not its own, is read as the tree's nodes and dropped count. */
  lemma DumpReadsBack(t: Tree, before: seq<string>)
    requires forall line :: line in before ==> Ignored(line)
    ensures F.Readable(before + DumpLines(t))
    ensures F.TraceOf(before + DumpLines(t)) == TraceOf(t.nodes, |t.nodes|).(dropped := t.dropped)
  {
    var head, records := before + [F.HEADER_LINE], RecordLines(t.nodes, |t.nodes|);
    var dropped := if t.dropped > 0 then [DroppedLine(t.dropped)] else [];
    var lines, tail := before + DumpLines(t), dropped + [F.FOOTER_LINE];
    assert lines == head + (records + tail);
    MarkersAreIgnored();
    AllIgnored(F.START, head);
    LinesInTwoParts(F.START, head, records + tail);
    RecordsReadBack(t.nodes, |t.nodes|);
    LinesInTwoParts(F.START, records, tail);
    var trace := TraceOf(t.nodes, |t.nodes|);
    NeverDropped(t.nodes, |t.nodes|);
    DroppedReadsBack(trace, t.dropped);
    TailReadsBack(trace, t.dropped, tail);
    assert lines[|before|] == F.HEADER_LINE && lines[|lines| - 1] == F.FOOTER_LINE;
  }

  lemma {:induction false} NeverDropped(nodes: Nodes, k: nat)
    requires k <= |nodes|
    ensures TraceOf(nodes, k).dropped == 0
  {
    if k > 1 { NeverDropped(nodes, k - 1); }
  }

  lemma TailReadsBack(trace: F.Trace, dropped: nat, tail: seq<string>)
    requires trace.dropped == 0 && tail == (if dropped > 0 then [DroppedLine(dropped)] else []) + [F.FOOTER_LINE]
    ensures F.AddLines(trace, tail) == Ok(trace.(dropped := dropped))
  {
    var footer := [F.FOOTER_LINE];
    MarkersAreIgnored();
    if dropped > 0 {
      DroppedReadsBack(trace, dropped);
      assert tail[1..] == footer;
      AllIgnored(trace.(dropped := dropped), footer);
    } else {
      assert tail == footer;
      AllIgnored(trace, footer);
    }
  }

  function Indices(k: nat): (s: set<int>)
    ensures forall i :: i in s <==> 0 <= i < k
  {
    if k == 0 then {} else Indices(k - 1) + {k - 1}
  }

  lemma {:induction false} TraceNodes(nodes: Nodes, k: nat)
    requires 1 <= k <= |nodes|
    ensures var t := TraceOf(nodes, k);
      && t.nodes.Keys == Indices(k) && 0 in t.nodes && t.nodes[0].calls == 0
      && forall n :: 1 <= n < k ==> t.nodes[n] == F.Record(nodes[n].parent, nodes[n].calls, nodes[n].name.text)
  {
    if k > 1 {
      TraceNodes(nodes, k - 1);
      var before, n := TraceOf(nodes, k - 1), nodes[k - 1];
      var last := F.Record(n.parent, n.calls, n.name.text);
      assert TraceOf(nodes, k).nodes == before.nodes[k - 1 := last];
    }
  }

  // ------------------------------------------------------------------ acceptance

  /** The parents read back from the nodes. */
  ghost predicate ReadFrom(nodes: Nodes, ids: set<int>, parent: G.Parents, calls: map<int, nat>) {
    && ids == Indices(|nodes|) == parent.Keys == calls.Keys && 0 in calls && calls[0] == 0
    && forall n :: 1 <= n < |nodes| ==> parent[n] == nodes[n].parent && calls[n] == nodes[n].calls
  }

  lemma ArenaIsTree(nodes: Nodes, ids: set<int>, parent: G.Parents, calls: map<int, nat>)
    requires Linked(nodes) && ReadFrom(nodes, ids, parent, calls)
    ensures G.Closed(ids, parent) && G.Acyclic(ids, parent)
  {
    assert forall n :: n in ids && n != 0 ==> parent[n] in ids && parent[n] < n;
    G.DescendingIsAcyclic(ids, parent);
  }

  /** Being below a node in the graph is having its stack as a prefix. */
  lemma {:induction false} BelowIsPrefix(nodes: Nodes, ids: set<int>, parent: G.Parents, calls: map<int, nat>,
                                         m: nat, n: nat)
    requires Linked(nodes) && SiblingsDiffer(nodes) && ReadFrom(nodes, ids, parent, calls) && G.Closed(ids, parent)
    requires m < |nodes| && n < |nodes|
    ensures G.Below(ids, parent, m, n) <==> PathOf(nodes, n) <= PathOf(nodes, m)
    decreases m
  {
    if m != n { PathsDiffer(nodes, m, n); }
    if m == ROOT {
      assert G.Climb(ids, parent, m, 0) == m;
    } else {
      G.BelowStep(ids, parent, m, n);
      BelowIsPrefix(nodes, ids, parent, calls, nodes[m].parent, n);
      PrefixGrows(PathOf(nodes, n), PathOf(nodes, nodes[m].parent), nodes[m].name);
    }
  }

  lemma PrefixGrows(p: Path, q: Path, name: Name)
    ensures p <= q + [name] <==> p <= q || p == q + [name]
  {
    if p <= q + [name] && |p| <= |q| { assert p == (q + [name])[..|p|] == q[..|p|]; }
  }

  /** The nodes below `k` whose stack starts with `p`. */
  ghost function Under(nodes: Nodes, p: Path, k: nat): set<int>
    requires k <= |nodes|
  {
    set n | 0 <= n < k && p <= PathOf(nodes, n)
  }

  lemma UnderGrows(nodes: Nodes, p: Path, k: nat)
    requires 1 < k <= |nodes|
    ensures k - 1 !in Under(nodes, p, k - 1)
    ensures Under(nodes, p, k) == Under(nodes, p, k - 1) + if p <= PathOf(nodes, k - 1) then {k - 1} else {}
  {
  }

  lemma {:induction false} UnderSum(nodes: Nodes, calls: map<int, nat>, p: Path, k: nat)
    requires 1 <= k <= |nodes| && Indices(|nodes|) == calls.Keys && 0 in calls && calls[0] == 0
    requires forall n :: 1 <= n < |nodes| ==> calls[n] == nodes[n].calls
    ensures G.Sum(Under(nodes, p, k), calls) == CallSum(nodes, p, k)
  {
    if k == 1 {
      if p <= PathOf(nodes, 0) {
        assert Under(nodes, p, 1) == {0};
        G.SumWithout({0}, 0, calls);
      } else {
        assert Under(nodes, p, 1) == {};
      }
    } else {
      var before, u := Under(nodes, p, k - 1), Under(nodes, p, k);
      UnderSum(nodes, calls, p, k - 1);
      UnderGrows(nodes, p, k);
      if p <= PathOf(nodes, k - 1) {
        assert u - {k - 1} == before;
        G.SumWithout(u, k - 1, calls);
      } else {
        assert u == before;
      }
    }
  }

  lemma InSubtreeIsUnder(nodes: Nodes, ids: set<int>, parent: G.Parents, calls: map<int, nat>, m: int, n: nat)
    requires Linked(nodes) && SiblingsDiffer(nodes) && ReadFrom(nodes, ids, parent, calls) && G.Closed(ids, parent)
    requires n < |nodes|
    ensures m in G.Subtree(ids, parent, n) <==> m in Under(nodes, PathOf(nodes, n), |nodes|)
  {
    if 0 <= m < |nodes| {
      assert m in ids;
      BelowIsPrefix(nodes, ids, parent, calls, m, n);
    }
  }

  lemma SubtreeIsUnder(nodes: Nodes, ids: set<int>, parent: G.Parents, calls: map<int, nat>, n: nat)
    requires Linked(nodes) && SiblingsDiffer(nodes) && ReadFrom(nodes, ids, parent, calls) && G.Closed(ids, parent)
    requires n < |nodes|
    ensures G.Subtree(ids, parent, n) == Under(nodes, PathOf(nodes, n), |nodes|)
  {
    var s, u := G.Subtree(ids, parent, n), Under(nodes, PathOf(nodes, n), |nodes|);
    forall m ensures m in s <==> m in u { InSubtreeIsUnder(nodes, ids, parent, calls, m, n); }
  }

  /** A node's subtree counts exactly the recorded calls made below its stack. */
  lemma SubtreeCounts(t: Tree, g: Log, ids: set<int>, parent: G.Parents, calls: map<int, nat>, n: nat)
    requires Sound(t) && Refines(t, g) && |g.calls| <= U64_MAX && n < |t.nodes|
    requires ReadFrom(t.nodes, ids, parent, calls) && G.Closed(ids, parent)
    ensures G.Sum(G.Subtree(ids, parent, n), calls) == CallsUnder(g.calls, PathOf(t.nodes, n))
  {
    var p := PathOf(t.nodes, n);
    SubtreeIsUnder(t.nodes, ids, parent, calls, n);
    UnderSum(t.nodes, calls, p, |t.nodes|);
    CallsAreConserved(t, g, p);
  }

  // ------------------------------------------------------------------ end to end

  /** The renderer accepts every dump of a sound tree. */
  lemma DumpIsAccepted(t: Tree, before: seq<string>)
    requires Sound(t) && forall line :: line in before ==> Ignored(line)
    ensures F.Readable(before + DumpLines(t)) && F.IsTree(F.TraceOf(before + DumpLines(t)))
    ensures var trace := F.TraceOf(before + DumpLines(t));
      ReadFrom(t.nodes, trace.nodes.Keys, F.ParentsOf(trace), F.CallsOf(trace))
  {
    DumpReadsBack(t, before);
    TraceNodes(t.nodes, |t.nodes|);
    var trace := F.TraceOf(before + DumpLines(t));
    ArenaIsTree(t.nodes, trace.nodes.Keys, F.ParentsOf(trace), F.CallsOf(trace));
  }

  lemma WeightsCountCalls(t: Tree, g: Log, before: seq<string>, weight: map<int, nat>, n: nat)
    requires Sound(t) && Refines(t, g) && |g.calls| <= U64_MAX && forall line :: line in before ==> Ignored(line)
    requires F.Readable(before + DumpLines(t)) && F.IsTree(F.TraceOf(before + DumpLines(t)))
    requires F.WeightsAdd(F.TraceOf(before + DumpLines(t)), weight) && n < |t.nodes|
    ensures n in weight && weight[n] == CallsUnder(g.calls, PathOf(t.nodes, n))
  {
    DumpIsAccepted(t, before);
    var trace := F.TraceOf(before + DumpLines(t));
    SubtreeCounts(t, g, trace.nodes.Keys, F.ParentsOf(trace), F.CallsOf(trace), n);
  }

  /** From the calls made to the picture drawn: whatever ran since boot, its dump is accepted, every frame is as wide as
      the number of recorded calls made on a stack starting with the frame's, and the root as wide as all of them. */
  lemma FramesCountCalls(acts: seq<Activity>, before: seq<string>, weight: map<int, nat>, n: nat)
    requires forall line :: line in before ==> Ignored(line)
    requires |LogRun(Log([], 0), Some([]), acts).calls| <= U64_MAX
    ensures var t, g := Perform(FRESH_TREE, acts), LogRun(Log([], 0), Some([]), acts);
      var lines := before + DumpLines(t);
      && F.Readable(lines) && F.IsTree(F.TraceOf(lines)) && F.TraceOf(lines).dropped == g.dropped
      && (F.WeightsAdd(F.TraceOf(lines), weight) && n < |t.nodes| ==>
            n in weight && weight[n] == CallsUnder(g.calls, PathOf(t.nodes, n)) && weight[0] == |g.calls|)
  {
    TreeFromBoot(acts);
    var t, g := Perform(FRESH_TREE, acts), LogRun(Log([], 0), Some([]), acts);
    DumpReadsBack(t, before);
    DumpIsAccepted(t, before);
    if F.WeightsAdd(F.TraceOf(before + DumpLines(t)), weight) && n < |t.nodes| {
      WeightsCountCalls(t, g, before, weight, n);
      WeightsCountCalls(t, g, before, weight, 0);
      AllCallsUnderRoot(g.calls);
    }
  }
}

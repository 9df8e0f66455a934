/** Which lines the renderer accepts, and what it makes of several records with one number. */
module TraceLines {
  import opened Machine
  import opened Decimal
  import opened FlameGraph
  import opened ParentGraph
  import D = TraceDump

  // ------------------------------------------------------------------ one line

  /** Digits and nothing else, at least one. */
  predicate IsNumber(s: string) { s != [] && forall i :: 0 <= i < |s| ==> '0' <= s[i] <= '9' }

  lemma {:induction false} NumbersHaveValues(s: string)
    ensures Value(s).Some? <==> IsNumber(s)
    ensures IsNumber(s) ==> ' ' !in s
  {
    if |s| > 1 {
      var front, last := s[..|s| - 1], s[|s| - 1];
      NumbersHaveValues(front);
      assert s == front + [last];
    }
  }

  /** The place value of the digits: each counts ten times the one after it. */
  lemma PlaceValue(s: string, d: nat)
    requires IsNumber(s) && d < 10
    ensures Value([DigitChar(d)]) == Some(d)
    ensures Value(s).Some? && Value(s + [DigitChar(d)]) == Some(10 * Value(s).value + d)
  {
    NumbersHaveValues(s);
    assert (s + [DigitChar(d)])[..|s|] == s;
  }

  /** The four texts of a record. */
  datatype Texts = Texts(id: string, parent: string, calls: string, name: string)

  function Joined(x: Texts): string { x.id + " " + (x.parent + " " + (x.calls + " " + x.name)) }

  predicate Numbered(x: Texts) { IsNumber(x.id) && IsNumber(x.parent) && IsNumber(x.calls) }

  /** The line is a record: after the prefix three numbers and a name, with single spaces between them. */
  ghost predicate Spells(line: string, x: Texts) { Numbered(x) && line == "N:" + Joined(x) }

  ghost predicate IsRecord(line: string) { exists x :: Spells(line, x) }

  /** The text parses as the record with these texts. */
  predicate ParsesAs(s: string, x: Texts) {
    && Value(x.id).Some? && Value(x.parent).Some? && Value(x.calls).Some?
    && ParseRecord(s) == Some((Value(x.id).value, Record(Value(x.parent).value, Value(x.calls).value, x.name)))
  }

  lemma JoinedIsParsed(x: Texts)
    requires Numbered(x)
    ensures ParsesAs(Joined(x), x)
  {
    NumbersHaveValues(x.id);
    NumbersHaveValues(x.parent);
    NumbersHaveValues(x.calls);
    D.CutAtSpace(x.id, x.parent + " " + (x.calls + " " + x.name));
    D.CutAtSpace(x.parent, x.calls + " " + x.name);
    D.CutAtSpace(x.calls, x.name);
  }

  lemma CutJoins(s: string, a: string, b: string)
    requires Cut(s) == Some((a, b))
    ensures s == a + " " + b
  {
  }

  lemma ParsedIsJoined(s: string) returns (x: Texts)
    requires ParseRecord(s).Some?
    ensures Numbered(x) && s == Joined(x)
  {
    var (a, rest1) := Cut(s).value;
    var (b, rest2) := Cut(rest1).value;
    var (c, name) := Cut(rest2).value;
    CutJoins(s, a, rest1);
    CutJoins(rest1, b, rest2);
    CutJoins(rest2, c, name);
    NumbersHaveValues(a);
    NumbersHaveValues(b);
    NumbersHaveValues(c);
    x := Texts(a, b, c, name);
  }

  lemma PrefixAndRest(line: string)
    requires "N:" <= line
    ensures line == "N:" + line[2..]
  {
  }

  lemma SpelledParses(line: string, x: Texts)
    requires Spells(line, x)
    ensures "N:" <= line && ParsesAs(line[2..], x)
  {
    JoinedIsParsed(x);
    assert line[2..] == Joined(x);
  }

  /** A line with the record prefix parses exactly if it is spelled so, and then as it is spelled. */
  lemma RecordIsSpelled(line: string)
    requires "N:" <= line
    ensures ParseRecord(line[2..]).Some? <==> IsRecord(line)
    ensures forall x :: Spells(line, x) ==> ParsesAs(line[2..], x)
  {
    forall x | Spells(line, x) ensures ParsesAs(line[2..], x) { SpelledParses(line, x); }
    if ParseRecord(line[2..]).Some? {
      var x := ParsedIsJoined(line[2..]);
      PrefixAndRest(line);
      assert Spells(line, x);
    } else if x :| Spells(line, x) {
      SpelledParses(line, x);
    }
  }

  /** A line is in order: a record if it has the record prefix, a number after the prefix of the count, or any other
      line. */
  ghost predicate InOrder(line: string) {
    if "N:" <= line then IsRecord(line)
    else if DROPPED_PREFIX <= line then IsNumber(line[|DROPPED_PREFIX|..])
    else true
  }

  lemma LineIsAccepted(t: Trace, line: string)
    ensures AddLine(t, line).Ok? <==> InOrder(line)
    ensures AddLine(t, line).Err? ==> AddLine(t, line).error == if "N:" <= line then InvalidRecord else InvalidDroppedCount
  {
    if "N:" <= line {
      RecordIsSpelled(line);
    } else if DROPPED_PREFIX <= line {
      NumbersHaveValues(line[|DROPPED_PREFIX|..]);
    }
  }

  // ------------------------------------------------------------------ all lines

  /** Line `k` is the first that is not in order. */
  ghost predicate FirstWrong(lines: seq<string>, k: int) {
    0 <= k < |lines| && !InOrder(lines[k]) && forall j :: 0 <= j < k ==> InOrder(lines[j])
  }

  ghost predicate AllInOrder(lines: seq<string>) { forall i :: 0 <= i < |lines| ==> InOrder(lines[i]) }

  lemma {:induction false} AcceptedIffInOrder(t: Trace, lines: seq<string>)
    ensures AddLines(t, lines).Ok? <==> AllInOrder(lines)
    ensures forall k :: FirstWrong(lines, k) ==>
      AddLines(t, lines) == Err(if "N:" <= lines[k] then InvalidRecord else InvalidDroppedCount)
    decreases |lines|
  {
    if lines != [] {
      LineIsAccepted(t, lines[0]);
      if InOrder(lines[0]) {
        var rest := lines[1..];
        AcceptedIffInOrder(AddLine(t, lines[0]).value, rest);
        assert forall i :: 0 <= i < |rest| ==> rest[i] == lines[i + 1];
        if AllInOrder(rest) {
          forall i | 0 <= i < |lines| ensures InOrder(lines[i]) { if i > 0 { assert InOrder(rest[i - 1]); } }
        }
        forall k | FirstWrong(lines, k)
          ensures AddLines(t, lines) == Err(if "N:" <= lines[k] then InvalidRecord else InvalidDroppedCount)
        {
          assert FirstWrong(rest, k - 1);
        }
      }
    }
  }

  /** The renderer reads a trace exactly if both marker lines are there and every line is in order; otherwise the first
      line that is not decides the error. */
  lemma ReadableIff(lines: seq<string>)
    ensures Readable(lines) <==>
      "AGNOSTOS_PROFILE_V2" in lines && "AGNOSTOS_PROFILE_END" in lines && AllInOrder(lines)
    ensures forall k :: FirstWrong(lines, k) ==>
      AddLines(START, lines) == Err(if "N:" <= lines[k] then InvalidRecord else InvalidDroppedCount)
  {
    AcceptedIffInOrder(START, lines);
  }

  // ---------------------------------------------------------------- repeated numbers

  /** The line is a record for node `id` with this parent, these calls and this name. */
  ghost predicate Describes(line: string, id: int, r: Record) {
    exists x :: Spells(line, x) && Value(x.id) == Some(id) && Value(x.parent) == Some(r.parent)
                && Value(x.calls) == Some(r.calls) && x.name == r.name
  }

  ghost predicate Names(line: string, id: int) { exists r :: Describes(line, id, r) }

  lemma DescribedIsParsed(line: string, id: int, r: Record)
    requires Describes(line, id, r)
    ensures "N:" <= line && ParseRecord(line[2..]) == Some((id, r))
  {
    var x :| Spells(line, x) && Value(x.id) == Some(id) && Value(x.parent) == Some(r.parent)
             && Value(x.calls) == Some(r.calls) && x.name == r.name;
    RecordIsSpelled(line);
  }

  lemma ParsedIsDescribed(line: string, id: nat, r: Record)
    requires "N:" <= line && ParseRecord(line[2..]) == Some((id, r))
    ensures Describes(line, id, r) && Names(line, id)
  {
    RecordIsSpelled(line);
    var x :| Spells(line, x);
    assert Value(x.id) == Some(id);
  }

  /** Record `k` is the last of `lines` for its node. */
  ghost predicate LastFor(lines: seq<string>, k: nat, id: int, r: Record) {
    k < |lines| && Describes(lines[k], id, r) && forall j :: k < j < |lines| ==> !Names(lines[j], id)
  }

  /** The node is as its last record says; the root, if it has none, as it was at the start. */
  ghost predicate Stated(lines: seq<string>, id: int, r: Record) {
    || (exists k :: LastFor(lines, k, id, r))
    || (id == ROOT && r == START.nodes[ROOT] && NeverNamed(lines, id))
  }

  /** The nodes of the trace are the root and those with a record, each as stated. */
  ghost predicate TakenFrom(lines: seq<string>, t: Trace) {
    && ROOT in t.nodes && (forall id :: id in t.nodes ==> Stated(lines, id, t.nodes[id]))
    && (forall k, id :: 0 <= k < |lines| && Names(lines[k], id) ==> id in t.nodes)
  }

  ghost predicate NeverNamed(lines: seq<string>, id: int) { forall k :: 0 <= k < |lines| ==> !Names(lines[k], id) }

  /** A line that describes `id` describes nothing else. */
  lemma OneMeaning(line: string, id: int, r: Record, id': int)
    requires Describes(line, id, r) && Names(line, id')
    ensures id' == id
  {
    var r' :| Describes(line, id', r');
    DescribedIsParsed(line, id, r);
    DescribedIsParsed(line, id', r');
  }

  lemma StillLast(lines: seq<string>, line: string, k: nat, id: int, r: Record)
    requires LastFor(lines, k, id, r) && !Names(line, id)
    ensures LastFor(lines + [line], k, id, r)
  {
    var more := lines + [line];
    forall j | k < j < |more| ensures !Names(more[j], id) { if j < |lines| { assert more[j] == lines[j]; } }
  }

  lemma StillStated(lines: seq<string>, line: string, id: int, r: Record)
    requires Stated(lines, id, r) && !Names(line, id)
    ensures Stated(lines + [line], id, r)
  {
    if k :| LastFor(lines, k, id, r) {
      StillLast(lines, line, k, id, r);
    } else {
      assert forall j :: 0 <= j < |lines| ==> (lines + [line])[j] == lines[j];
    }
  }

  lemma OtherLineTaken(lines: seq<string>, t: Trace, line: string, t': Trace)
    requires TakenFrom(lines, t) && t'.nodes == t.nodes && forall id :: !Names(line, id)
    ensures TakenFrom(lines + [line], t')
  {
    var more := lines + [line];
    forall id | id in t'.nodes ensures Stated(more, id, t'.nodes[id]) { StillStated(lines, line, id, t.nodes[id]); }
    forall k, id | 0 <= k < |more| && Names(more[k], id) ensures id in t'.nodes { assert more[k] == lines[k]; }
  }

  lemma RecordTaken(lines: seq<string>, t: Trace, line: string, id: int, r: Record)
    requires TakenFrom(lines, t) && Describes(line, id, r)
    ensures TakenFrom(lines + [line], Put(t, id, r))
  {
    var more, t' := lines + [line], Put(t, id, r);
    forall n | n in t'.nodes ensures Stated(more, n, t'.nodes[n]) {
      if n == id {
        assert LastFor(more, |lines|, id, r);
      } else {
        if Names(line, n) { OneMeaning(line, id, r, n); }
        StillStated(lines, line, n, t.nodes[n]);
      }
    }
    forall k, n | 0 <= k < |more| && Names(more[k], n) ensures n in t'.nodes {
      if k < |lines| { assert more[k] == lines[k]; } else { OneMeaning(line, id, r, n); }
    }
  }

  lemma LineTaken(lines: seq<string>, t: Trace, line: string)
    requires TakenFrom(lines, t) && AddLine(t, line).Ok?
    ensures TakenFrom(lines + [line], AddLine(t, line).value)
  {
    if "N:" <= line {
      var (id, r) := ParseRecord(line[2..]).value;
      ParsedIsDescribed(line, id, r);
      RecordTaken(lines, t, line, id, r);
    } else {
      forall id ensures !Names(line, id) {
        if r :| Describes(line, id, r) { DescribedIsParsed(line, id, r); }
      }
      OtherLineTaken(lines, t, line, AddLine(t, line).value);
    }
  }

  lemma AddLinesLast(t: Trace, lines: seq<string>, line: string)
    ensures AddLines(t, lines).Ok? ==>
      AddLines(t, lines + [line]) == AddLine(AddLines(t, lines).value, line)
  {
    if AddLines(t, lines).Ok? {
      var u := AddLines(t, lines).value;
      D.LinesInTwoParts(t, lines, [line]);
      D.FirstLine(u, [line]);
      assert [line][1..] == [];
    }
  }

  lemma FrontIsRead(lines: seq<string>)
    requires lines != [] && AddLines(START, lines).Ok?
    ensures AddLines(START, lines[..|lines| - 1]).Ok?
  {
    var front := lines[..|lines| - 1];
    AcceptedIffInOrder(START, lines);
    AcceptedIffInOrder(START, front);
    assert forall i :: 0 <= i < |front| ==> front[i] == lines[i];
  }

  /** Of several records with one number the last counts. */
  lemma {:induction false} LastRecordCounts(lines: seq<string>)
    requires AddLines(START, lines).Ok?
    ensures TakenFrom(lines, AddLines(START, lines).value)
  {
    if lines != [] {
      var front, last := lines[..|lines| - 1], lines[|lines| - 1];
      assert lines == front + [last];
      FrontIsRead(lines);
      LastRecordCounts(front);
      AddLinesLast(START, front, last);
      LineTaken(front, AddLines(START, front).value, last);
    }
  }

  /** Line `k` is the first record for node `id`. */
  ghost predicate FirstFor(lines: seq<string>, k: nat, id: int) {
    k < |lines| && Names(lines[k], id) && forall j :: 0 <= j < k ==> !Names(lines[j], id)
  }

  /** `m` has a record before the first one for `n`. */
  ghost predicate NamedBefore(lines: seq<string>, m: int, n: int) {
    exists a, b :: a < b && FirstFor(lines, a, m) && FirstFor(lines, b, n)
  }

  /** After the root the nodes come in the order of their first records. */
  ghost predicate InFirstOrder(lines: seq<string>, order: seq<int>) {
    && order != [] && order[0] == ROOT
    && forall i, j :: 1 <= i < j < |order| ==> NamedBefore(lines, order[i], order[j])
  }

  lemma StillFirst(lines: seq<string>, line: string, k: nat, id: int)
    requires FirstFor(lines, k, id)
    ensures FirstFor(lines + [line], k, id)
  {
    assert forall j :: 0 <= j < |lines| ==> (lines + [line])[j] == lines[j];
  }

  lemma OrderStays(lines: seq<string>, line: string, order: seq<int>)
    requires InFirstOrder(lines, order)
    ensures InFirstOrder(lines + [line], order)
  {
    forall i, j | 1 <= i < j < |order| ensures NamedBefore(lines + [line], order[i], order[j]) {
      assert NamedBefore(lines, order[i], order[j]);
      var a, b :| a < b && FirstFor(lines, a, order[i]) && FirstFor(lines, b, order[j]);
      StillFirst(lines, line, a, order[i]);
      StillFirst(lines, line, b, order[j]);
    }
  }

  lemma {:induction false} FirstExists(lines: seq<string>, k: nat, id: int) returns (a: nat)
    requires k < |lines| && Names(lines[k], id)
    ensures FirstFor(lines, a, id)
  {
    a := 0;
    while !Names(lines[a], id)
      invariant a <= k && forall j :: 0 <= j < a ==> !Names(lines[j], id)
      decreases k - a
    {
      a := a + 1;
    }
  }

  lemma NewIsLast(lines: seq<string>, line: string, t: Trace, id: int, n: int)
    requires TakenFrom(lines, t) && Names(line, id) && id !in t.nodes && n in t.nodes && n != ROOT
    ensures NamedBefore(lines + [line], n, id)
  {
    var more := lines + [line];
    assert Stated(lines, n, t.nodes[n]);
    var k :| LastFor(lines, k, n, t.nodes[n]);
    var a := FirstExists(lines, k, n);
    StillFirst(lines, line, a, n);
    assert more[|lines|] == line;
    forall j | 0 <= j < |lines| ensures !Names(more[j], id) { assert more[j] == lines[j]; }
    assert FirstFor(more, |lines|, id);
  }

  lemma OrderGrows(lines: seq<string>, line: string, t: Trace, id: int)
    requires InFirstOrder(lines, t.order) && WellFormed(t) && TakenFrom(lines, t) && Names(line, id) && id !in t.nodes
    ensures InFirstOrder(lines + [line], t.order + [id])
  {
    var more, order := lines + [line], t.order + [id];
    OrderStays(lines, line, t.order);
    forall i, j | 1 <= i < j < |order| ensures NamedBefore(more, order[i], order[j]) {
      if j == |t.order| {
        assert t.order[i] in t.order;
        NewIsLast(lines, line, t, id, t.order[i]);
      } else {
        assert order[i] == t.order[i] && order[j] == t.order[j];
      }
    }
  }

  /** A repeated number keeps the place of its first record. */
  lemma {:induction false} FirstRecordPlaces(lines: seq<string>)
    requires AddLines(START, lines).Ok?
    ensures WellFormed(AddLines(START, lines).value) && InFirstOrder(lines, AddLines(START, lines).value.order)
  {
    if lines != [] {
      var front, last := lines[..|lines| - 1], lines[|lines| - 1];
      assert lines == front + [last];
      FrontIsRead(lines);
      FirstRecordPlaces(front);
      LastRecordCounts(front);
      AddLinesLast(START, front, last);
      var t := AddLines(START, front).value;
      AddLineKeepsForm(t, last);
      if "N:" <= last {
        var (id, r) := ParseRecord(last[2..]).value;
        ParsedIsDescribed(last, id, r);
        if id in t.nodes { OrderStays(front, last, t.order); } else { OrderGrows(front, last, t, id); }
      } else {
        OrderStays(front, last, t.order);
      }
    }
  }

  // ------------------------------------------------------------------ the count

  predicate IsCount(line: string) { !("N:" <= line) && DROPPED_PREFIX <= line }

  /** The count is that of the last line that carries one, or zero. */
  ghost predicate CountFrom(lines: seq<string>, dropped: nat) {
    || (dropped == 0 && forall k :: 0 <= k < |lines| ==> !IsCount(lines[k]))
    || exists k :: 0 <= k < |lines| && LastCount(lines, k) && Value(lines[k][|DROPPED_PREFIX|..]) == Some(dropped)
  }

  predicate LastCount(lines: seq<string>, k: nat) {
    k < |lines| && IsCount(lines[k]) && forall j :: k < j < |lines| ==> !IsCount(lines[j])
  }

  lemma CountStays(lines: seq<string>, line: string, dropped: nat)
    requires CountFrom(lines, dropped) && !IsCount(line)
    ensures CountFrom(lines + [line], dropped)
  {
    var more := lines + [line];
    if k :| 0 <= k < |lines| && LastCount(lines, k) && Value(lines[k][|DROPPED_PREFIX|..]) == Some(dropped) {
      forall j | k < j < |more| ensures !IsCount(more[j]) { if j < |lines| { assert more[j] == lines[j]; } }
      assert more[k] == lines[k] && LastCount(more, k);
    } else {
      forall j | 0 <= j < |more| ensures !IsCount(more[j]) { if j < |lines| { assert more[j] == lines[j]; } }
    }
  }

  lemma CountChanges(lines: seq<string>, line: string, dropped: nat)
    requires IsCount(line) && Value(line[|DROPPED_PREFIX|..]) == Some(dropped)
    ensures CountFrom(lines + [line], dropped)
  {
    var more := lines + [line];
    assert more[|lines|] == line && LastCount(more, |lines|);
  }

  lemma {:induction false} LastCountCounts(lines: seq<string>)
    requires AddLines(START, lines).Ok?
    ensures CountFrom(lines, AddLines(START, lines).value.dropped)
  {
    if lines != [] {
      var front, last := lines[..|lines| - 1], lines[|lines| - 1];
      assert lines == front + [last];
      FrontIsRead(lines);
      LastCountCounts(front);
      AddLinesLast(START, front, last);
      if IsCount(last) {
        CountChanges(front, last, AddLines(START, lines).value.dropped);
      } else {
        CountStays(front, last, AddLines(START, front).value.dropped);
      }
    }
  }
}

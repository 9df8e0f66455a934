/** The profiler as it runs: the arena in a fixed table, guards handed out on entry and dropped on return. */
module Profiler {
  import opened Machine
  import opened CallTree
  import opened Decimal
  import opened TraceDump
  import F = FlameGraph

  class Profiler {
    const nodes: array<Node>
    var nodeCount: nat
    var current: nat
    var dropped: nat
    var recording: bool

    ghost predicate Fixed()
      reads this
    {
      nodes.Length == NODE_CAPACITY && nodeCount <= NODE_CAPACITY
    }

    ghost function State(): Tree
      requires Fixed()
      reads this, nodes
    {
      Tree(nodes[..nodeCount], current, dropped, recording)
    }

    ghost predicate Valid()
      reads this, nodes
    {
      Fixed() && Sound(State())
    }

    constructor ()
      ensures Valid() && fresh(nodes) && State() == Tree([EMPTY_NODE], ROOT, 0, true)
    {
      nodes := new Node[NODE_CAPACITY](_ => EMPTY_NODE);
      nodeCount, current, dropped, recording := 1, ROOT, 0, true;
      new;
      assert nodes[..1] == [EMPTY_NODE];
    }

    /** Walks the siblings from the newest child of `parent` to the one called `name`. */
    method FindChild(parent: nat, name: Name) returns (child: nat)
      requires Valid() && parent < nodeCount
      ensures child == Find(nodes[..nodeCount], parent, name, nodeCount)
    {
      child := nodes[parent].firstChild;
      ghost var ns := nodes[..nodeCount];
      ghost var bound: nat := nodeCount;
      while child != NO_NODE && nodes[child].name != name
        invariant bound <= nodeCount && child == Latest(ns, parent, bound)
        invariant Find(ns, parent, name, nodeCount) == Find(ns, parent, name, bound)
        decreases bound
      {
        FindPasses(ns, parent, name, bound);
        assert nodes[child] == ns[child];
        bound := child;
        child := nodes[child].nextSibling;
      }
      FindPasses(ns, parent, name, bound);
      assert child != NO_NODE ==> nodes[child] == ns[child];
    }

    /** Counts a call of the child `child`, or adds a child for it while there is room. */
    method RecordChild(parent: nat, child: nat, name: Name)
      requires Fixed() && parent == current < nodeCount && (child == NO_NODE || child < nodeCount)
      modifies this, nodes
      ensures Fixed() && State() == Recorded(old(State()), child, name)
    {
      if child != NO_NODE {
        nodes[child] := nodes[child].(calls := SaturatingAdd(nodes[child].calls, 1));
        current := child;
      } else {
        var index := nodeCount;
        if index >= NODE_CAPACITY {
          dropped := dropped + 1;
          current := NO_NODE;
        } else {
          nodes[index] := Node(name, parent, NO_NODE, nodes[parent].firstChild, 1);
          nodes[parent] := nodes[parent].(firstChild := index);
          nodeCount := index + 1;
          current := index;
        }
      }
    }

    method EnterCall(name: Name) returns (guard: Guard)
      requires Valid()
      modifies this, nodes
      ensures Valid() && State() == Enter(old(State()), name) && guard == GuardOf(old(State()))
    {
      if !recording {
        return Guard(ROOT, false);
      }
      EnterIsSound(State(), name);
      var parent := current;
      if parent == NO_NODE {
        return Guard(parent, true);
      }
      var child := FindChild(parent, name);
      RecordChild(parent, child, name);
      return Guard(parent, true);
    }

    method SuspendRecording() returns (guard: Guard)
      requires Valid()
      modifies this`current
      ensures Valid() && State() == Suspend(old(State())) && guard == GuardOf(old(State()))
    {
      if !recording {
        return Guard(ROOT, false);
      }
      guard := Guard(current, true);
      current := NO_NODE;
    }

    method DropGuard(guard: Guard)
      requires Valid() && (guard.active ==> guard.previous == NO_NODE || guard.previous < nodeCount)
      modifies this`current
      ensures Valid() && State() == Restore(old(State()), guard)
    {
      if guard.active {
        current := guard.previous;
      }
    }

    method WriteRecord(index: nat) returns (line: string)
      requires Valid() && 1 <= index < nodeCount
      ensures line == RecordLine(nodes[..nodeCount], index)
    {
      var n := nodes[index];
      assert n == nodes[..nodeCount][index];
      var id := WriteDecimal(index);
      var parent := WriteDecimal(n.parent);
      var calls := WriteDecimal(n.calls);
      return F.RECORD_PREFIX + (id + " " + (parent + " " + (calls + " " + n.name.text)));
    }

    method WriteRecords() returns (lines: seq<string>)
      requires Valid()
      ensures lines == RecordLines(nodes[..nodeCount], nodeCount)
    {
      lines := [];
      for index := 1 to nodeCount
        invariant lines == RecordLines(nodes[..nodeCount], index)
      {
        var line := WriteRecord(index);
        lines := lines + [line];
      }
    }

    /** Stops recording and prints the tree. */
    method Dump() returns (lines: seq<string>)
      requires Valid() && dropped <= U64_MAX
      modifies this`recording
      ensures Valid() && State() == old(State()).(recording := false)
      ensures lines == DumpLines(old(State()))
    {
      recording := false;
      var records := WriteRecords();
      lines := [F.HEADER_LINE] + records;
      if dropped > 0 {
        var count := WriteDecimal(dropped);
        lines := lines + [F.DROPPED_PREFIX + count];
      } else {
        assert lines + [] == lines;
      }
      lines := lines + [F.FOOTER_LINE];
    }
  }
}

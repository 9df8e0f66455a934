/** The profiler's call tree: a bounded first-child/next-sibling arena updated on every profiled call. */
module CallTree {
  import opened Machine

  const NODE_CAPACITY: nat := 16_384
  const ROOT: nat := 0
  const NO_NODE: nat := 0xFFFF_FFFF

  /** The name of a profiled function, as it is printed. */
  datatype Name = Name(text: string)

  type Path = seq<Name>

  datatype Node = Node(name: Name, parent: nat, firstChild: nat, nextSibling: nat, calls: U64)

  type Nodes = seq<Node>

  const EMPTY_NODE := Node(Name(""), NO_NODE, NO_NODE, NO_NODE, 0)

  datatype Tree = Tree(nodes: Nodes, current: nat, dropped: nat, recording: bool)

  datatype Guard = Guard(previous: nat, active: bool)

  // ----------------------------------------------------------------- the links

  /** The child of `p` with the largest index below `bound`. */
  function Latest(nodes: Nodes, p: nat, bound: nat): (c: nat)
    requires bound <= |nodes| <= NODE_CAPACITY
    ensures c == NO_NODE || (1 <= c < bound && nodes[c].parent == p)
  {
    if bound <= 1 then NO_NODE
    else if nodes[bound - 1].parent == p then bound - 1
    else Latest(nodes, p, bound - 1)
  }

  /** The child of `p` called `name`, among those with an index below `bound`. */
  function Find(nodes: Nodes, p: nat, name: Name, bound: nat): (c: nat)
    requires bound <= |nodes| <= NODE_CAPACITY
    ensures c == NO_NODE || (1 <= c < bound && nodes[c].parent == p && nodes[c].name == name)
    ensures c == NO_NODE ==> forall n :: 1 <= n < bound ==> nodes[n].parent != p || nodes[n].name != name
  {
    if bound <= 1 then NO_NODE
    else if nodes[bound - 1].parent == p && nodes[bound - 1].name == name then bound - 1
    else Find(nodes, p, name, bound - 1)
  }

  /** One step along the siblings: the newest child below `bound` is the one looked for, or is passed over. */
  lemma {:induction false} FindPasses(nodes: Nodes, p: nat, name: Name, bound: nat)
    requires bound <= |nodes| <= NODE_CAPACITY
    ensures var c := Latest(nodes, p, bound);
      Find(nodes, p, name, bound) ==
        if c == NO_NODE || nodes[c].name == name then c else Find(nodes, p, name, c)
  {
    if bound > 1 && nodes[bound - 1].parent != p { FindPasses(nodes, p, name, bound - 1); }
  }

  /** Every link leads where it should: parents and siblings to smaller indices, children from the newest on. */
  ghost predicate Linked(nodes: Nodes) {
    && 1 <= |nodes| <= NODE_CAPACITY
    && (forall n :: 1 <= n < |nodes| ==> nodes[n].parent < n)
    && (forall p :: 0 <= p < |nodes| ==> nodes[p].firstChild == Latest(nodes, p, |nodes|))
    && (forall n :: 1 <= n < |nodes| ==> nodes[n].nextSibling == Latest(nodes, nodes[n].parent, n))
  }

  ghost predicate SiblingsDiffer(nodes: Nodes) {
    forall m, n :: 1 <= m < n < |nodes| && nodes[m].parent == nodes[n].parent ==> nodes[m].name != nodes[n].name
  }

  ghost predicate Sound(t: Tree) {
    && Linked(t.nodes) && SiblingsDiffer(t.nodes)
    && (t.current == NO_NODE || t.current < |t.nodes|)
  }

  /** The call stack a node stands for. */
  function PathOf(nodes: Nodes, n: nat): Path
    requires n < |nodes|
  {
    if n == ROOT || nodes[n].parent >= n then [] else PathOf(nodes, nodes[n].parent) + [nodes[n].name]
  }

  // ------------------------------------------------------------------ operations

  function AddNode(nodes: Nodes, parent: nat, name: Name): Nodes
    requires parent < |nodes|
  {
    nodes[parent := nodes[parent].(firstChild := |nodes|)]
    + [Node(name, parent, NO_NODE, nodes[parent].firstChild, 1)]
  }

  function CountCall(nodes: Nodes, c: nat): Nodes
    requires c < |nodes|
  {
    nodes[c := nodes[c].(calls := SaturatingAdd(nodes[c].calls, 1))]
  }

  /** Counts a call of node `c`, or adds a node while there is room. */
  function Recorded(t: Tree, c: nat, name: Name): Tree
    requires t.current < |t.nodes| && (c == NO_NODE || c < |t.nodes|)
  {
    if c != NO_NODE then t.(nodes := CountCall(t.nodes, c), current := c)
    else if |t.nodes| >= NODE_CAPACITY then t.(current := NO_NODE, dropped := t.dropped + 1)
    else t.(nodes := AddNode(t.nodes, t.current, name), current := |t.nodes|)
  }

  function Enter(t: Tree, name: Name): Tree
    requires Sound(t)
  {
    if !t.recording || t.current == NO_NODE then t
    else Recorded(t, Find(t.nodes, t.current, name, |t.nodes|), name)
  }

  function Suspend(t: Tree): Tree { if t.recording then t.(current := NO_NODE) else t }

  function GuardOf(t: Tree): Guard { if t.recording then Guard(t.current, true) else Guard(ROOT, false) }

  function Restore(t: Tree, g: Guard): Tree { if g.active then t.(current := g.previous) else t }

  // ------------------------------------------------------- the links are maintained

  /** The same nodes up to call counts and first-child links. */
  ghost predicate SameShape(a: Nodes, b: Nodes, bound: nat) {
    && bound <= |a| <= NODE_CAPACITY && bound <= |b| <= NODE_CAPACITY
    && (forall n :: 0 <= n < bound ==> a[n].parent == b[n].parent && a[n].name == b[n].name)
  }

  lemma {:induction false} LatestSame(a: Nodes, b: Nodes, p: nat, bound: nat)
    requires SameShape(a, b, bound)
    ensures Latest(a, p, bound) == Latest(b, p, bound)
  {
    if bound > 1 { LatestSame(a, b, p, bound - 1); }
  }

  lemma {:induction false} PathSame(a: Nodes, b: Nodes, n: nat)
    requires SameShape(a, b, n + 1)
    ensures PathOf(a, n) == PathOf(b, n)
  {
    if n != ROOT && a[n].parent < n { PathSame(a, b, a[n].parent); }
  }

  lemma AddedNodeShape(nodes: Nodes, parent: nat, name: Name)
    requires Linked(nodes) && parent < |nodes| < NODE_CAPACITY
    ensures SameShape(nodes, AddNode(nodes, parent, name), |nodes|)
    ensures var t := AddNode(nodes, parent, name);
      && |t| == |nodes| + 1 && t[|nodes|] == Node(name, parent, NO_NODE, nodes[parent].firstChild, 1)
      && (forall n :: 0 <= n < |nodes| ==> t[n] == if n == parent then nodes[n].(firstChild := |nodes|) else nodes[n])
  {
    var t := AddNode(nodes, parent, name);
    assert forall n :: 0 <= n < |nodes| ==> t[n] == nodes[parent := nodes[parent].(firstChild := |nodes|)][n];
  }

  lemma {:induction false} NoChildrenYet(nodes: Nodes, p: nat, bound: nat)
    requires bound <= |nodes| <= NODE_CAPACITY && forall n :: 1 <= n < bound ==> nodes[n].parent != p
    ensures Latest(nodes, p, bound) == NO_NODE
  {
    if bound > 1 { NoChildrenYet(nodes, p, bound - 1); }
  }

  lemma GrownFirstChild(nodes: Nodes, t: Nodes, parent: nat, p: nat)
    requires |t| == |nodes| + 1 <= NODE_CAPACITY && SameShape(nodes, t, |nodes|) && p < |t|
    requires p < |nodes| ==> nodes[p].firstChild == Latest(nodes, p, |nodes|)
    requires p == |nodes| ==> Latest(nodes, p, |nodes|) == NO_NODE
    requires t[|nodes|].parent == parent < |nodes| && t[|nodes|].firstChild == NO_NODE
    requires p < |nodes| ==> t[p].firstChild == if p == parent then |nodes| else nodes[p].firstChild
    ensures t[p].firstChild == Latest(t, p, |t|)
  {
    LatestSame(nodes, t, p, |nodes|);
  }

  lemma AddedFirstChild(nodes: Nodes, parent: nat, name: Name, p: nat)
    requires Linked(nodes) && parent < |nodes| < NODE_CAPACITY && p <= |nodes|
    ensures var t := AddNode(nodes, parent, name); t[p].firstChild == Latest(t, p, |t|)
  {
    AddedNodeShape(nodes, parent, name);
    if p == |nodes| { NoChildrenYet(nodes, p, |nodes|); }
    GrownFirstChild(nodes, AddNode(nodes, parent, name), parent, p);
  }

  lemma GrownSibling(nodes: Nodes, t: Nodes, parent: nat, n: nat)
    requires |t| == |nodes| + 1 <= NODE_CAPACITY && SameShape(nodes, t, |nodes|) && 1 <= n < |t|
    requires n < |nodes| ==> t[n].nextSibling == nodes[n].nextSibling == Latest(nodes, nodes[n].parent, n)
    requires n < |nodes| ==> nodes[n].parent < n
    requires parent < |nodes| && nodes[parent].firstChild == Latest(nodes, parent, |nodes|)
    requires t[|nodes|].parent == parent && t[|nodes|].nextSibling == nodes[parent].firstChild
    ensures t[n].parent < n && t[n].nextSibling == Latest(t, t[n].parent, n)
  {
    LatestSame(nodes, t, t[n].parent, n);
  }

  lemma AddedSibling(nodes: Nodes, parent: nat, name: Name, n: nat)
    requires Linked(nodes) && parent < |nodes| < NODE_CAPACITY && 1 <= n <= |nodes|
    ensures var t := AddNode(nodes, parent, name); t[n].parent < n && t[n].nextSibling == Latest(t, t[n].parent, n)
  {
    AddedNodeShape(nodes, parent, name);
    GrownSibling(nodes, AddNode(nodes, parent, name), parent, n);
  }

  lemma AddNodeKeepsLinks(nodes: Nodes, parent: nat, name: Name)
    requires Linked(nodes) && parent < |nodes| < NODE_CAPACITY
    ensures Linked(AddNode(nodes, parent, name))
  {
    var t := AddNode(nodes, parent, name);
    AddedNodeShape(nodes, parent, name);
    forall p | 0 <= p < |t| ensures t[p].firstChild == Latest(t, p, |t|) { AddedFirstChild(nodes, parent, name, p); }
    forall n | 1 <= n < |t| ensures t[n].parent < n && t[n].nextSibling == Latest(t, t[n].parent, n) {
      AddedSibling(nodes, parent, name, n);
    }
  }

  lemma CountedShape(nodes: Nodes, c: nat)
    requires c < |nodes| <= NODE_CAPACITY
    ensures SameShape(nodes, CountCall(nodes, c), |nodes|) && |CountCall(nodes, c)| == |nodes|
    ensures CountCall(nodes, c)[c].calls == SaturatingAdd(nodes[c].calls, 1)
    ensures forall n :: 0 <= n < |nodes| && n != c ==> CountCall(nodes, c)[n] == nodes[n]
  {
  }

  /** Counting a call touches no link. */
  lemma CountKeepsLinks(nodes: Nodes, c: nat)
    requires Linked(nodes) && c < |nodes|
    ensures Linked(CountCall(nodes, c))
  {
    var t := CountCall(nodes, c);
    forall p | 0 <= p < |t| ensures t[p].firstChild == Latest(t, p, |t|) { LatestSame(nodes, t, p, |nodes|); }
    forall n | 1 <= n < |t| ensures t[n].nextSibling == Latest(t, t[n].parent, n) {
      LatestSame(nodes, t, nodes[n].parent, n);
    }
  }

  lemma AddNodeKeepsNames(nodes: Nodes, parent: nat, name: Name)
    requires Linked(nodes) && SiblingsDiffer(nodes) && parent < |nodes| < NODE_CAPACITY
    requires Find(nodes, parent, name, |nodes|) == NO_NODE
    ensures SiblingsDiffer(AddNode(nodes, parent, name))
  {
    AddedNodeShape(nodes, parent, name);
  }

  lemma EnterIsSound(t: Tree, name: Name)
    requires Sound(t)
    ensures Sound(Enter(t, name))
  {
    if t.recording && t.current != NO_NODE {
      var c := Find(t.nodes, t.current, name, |t.nodes|);
      if c != NO_NODE {
        CountKeepsLinks(t.nodes, c);
      } else if |t.nodes| < NODE_CAPACITY {
        AddNodeKeepsLinks(t.nodes, t.current, name);
        AddNodeKeepsNames(t.nodes, t.current, name);
      }
    }
  }

  lemma EnterKeepsShape(t: Tree, name: Name)
    requires Sound(t)
    ensures |Enter(t, name).nodes| >= |t.nodes| && SameShape(t.nodes, Enter(t, name).nodes, |t.nodes|)
  {
    if t.recording && t.current != NO_NODE {
      var c := Find(t.nodes, t.current, name, |t.nodes|);
      if c != NO_NODE {
        CountedShape(t.nodes, c);
      } else if |t.nodes| < NODE_CAPACITY {
        AddedNodeShape(t.nodes, t.current, name);
      }
    }
  }

  /** Node `c` stands for a call of `name` below the current node. */
  ghost predicate IsCallee(t: Tree, c: nat, name: Name) {
    1 <= c < |t.nodes| && t.nodes[c].parent == t.current && t.nodes[c].name == name
  }

  /** The node is what it was up to its list links. */
  predicate Unmoved(a: Node, b: Node) { a.name == b.name && a.parent == b.parent && a.calls == b.calls }

  /** What entering a function does: nothing while nothing is recorded; one more call of the node that stands for it, if
      there is one; otherwise a new node with one call, or a drop when all 16384 nodes are taken. */
  lemma EnterMeans(t: Tree, name: Name, c: nat)
    requires Sound(t)
    requires IsCallee(t, c, name) || (c == NO_NODE && forall n :: 1 <= n < |t.nodes| ==> !IsCallee(t, n, name))
    ensures var t', on := Enter(t, name), t.recording && t.current != NO_NODE;
      && t'.recording == t.recording && (!on ==> t' == t)
      && (on && c != NO_NODE ==>
            && t'.current == c && t'.dropped == t.dropped && |t'.nodes| == |t.nodes|
            && t'.nodes[c] == t.nodes[c].(calls := Min(t.nodes[c].calls + 1, U64_MAX))
            && (forall n :: 0 <= n < |t.nodes| && n != c ==> t'.nodes[n] == t.nodes[n]))
      && (on && c == NO_NODE && |t.nodes| < 16_384 ==>
            && t'.current == |t.nodes| && t'.dropped == t.dropped && |t'.nodes| == |t.nodes| + 1
            && Unmoved(t'.nodes[|t.nodes|], Node(name, t.current, NO_NODE, NO_NODE, 1))
            && (forall n :: 0 <= n < |t.nodes| ==> Unmoved(t'.nodes[n], t.nodes[n])))
      && (on && c == NO_NODE && |t.nodes| == 16_384 ==>
            t'.current == NO_NODE && t'.dropped == t.dropped + 1 && t'.nodes == t.nodes)
  {
    if t.recording && t.current != NO_NODE {
      var found := Find(t.nodes, t.current, name, |t.nodes|);
      if c == NO_NODE {
        assert found != NO_NODE ==> IsCallee(t, found, name);
        if |t.nodes| < NODE_CAPACITY { AddedNodeShape(t.nodes, t.current, name); }
      } else {
        assert found == c;
        CountedShape(t.nodes, c);
      }
    }
  }

  /** Distinct nodes stand for distinct call stacks. */
  lemma {:induction false} PathsDiffer(nodes: Nodes, m: nat, n: nat)
    requires Linked(nodes) && SiblingsDiffer(nodes) && m < |nodes| && n < |nodes| && m != n
    ensures PathOf(nodes, m) != PathOf(nodes, n)
    decreases m + n
  {
    if m != ROOT && n != ROOT {
      var pm, pn := PathOf(nodes, nodes[m].parent), PathOf(nodes, nodes[n].parent);
      if nodes[m].parent != nodes[n].parent { PathsDiffer(nodes, nodes[m].parent, nodes[n].parent); }
      assert (pm + [nodes[m].name])[..|pm|] == pm && (pn + [nodes[n].name])[..|pn|] == pn;
      assert (pm + [nodes[m].name])[|pm|] == nodes[m].name && (pn + [nodes[n].name])[|pn|] == nodes[n].name;
    }
  }

  // ------------------------------------------------------------ properly nested runs

  /** A profiled call, or a stretch with recording suspended, with everything that happens inside it. */
  datatype Activity = Call(name: Name, body: seq<Activity>) | Suspended(body: seq<Activity>)

  lemma {:induction false} BeginIsSound(t: Tree, act: Activity)
    requires Sound(t)
    ensures Sound(Begin(t, act)) && Begin(t, act).recording == t.recording
    ensures |Begin(t, act).nodes| >= |t.nodes| && SameShape(t.nodes, Begin(t, act).nodes, |t.nodes|)
  {
    if act.Call? {
      EnterIsSound(t, act.name);
      EnterKeepsShape(t, act.name);
    }
  }

  function Begin(t: Tree, act: Activity): Tree
    requires Sound(t)
  {
    match act
    case Call(name, _) => Enter(t, name)
    case Suspended(_) => Suspend(t)
  }

  /** The tree after a run: each activity takes its guard, runs its body, and drops the guard. */
  function Perform(t: Tree, acts: seq<Activity>): (t': Tree)
    requires Sound(t)
    ensures Sound(t') && t'.current == t.current && t'.recording == t.recording
    ensures |t'.nodes| >= |t.nodes| && SameShape(t.nodes, t'.nodes, |t.nodes|)
    decreases acts
  {
    if acts == [] then t
    else
      BeginIsSound(t, acts[0]);
      var inner := Perform(Begin(t, acts[0]), acts[0].body);
      Perform(Restore(inner, GuardOf(t)), acts[1..])
  }
}

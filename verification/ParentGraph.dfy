/** Nodes that name their parent: climbing to the root, cycles, and sums over subtrees. */
module ParentGraph {
  const ROOT: int := 0

  type Parents = map<int, int>

  /** Every node but the root has a parent, which is a node. */
  ghost predicate Closed(ids: set<int>, parent: Parents) {
    ROOT in ids && forall n :: n in ids && n != ROOT ==> n in parent && parent[n] in ids
  }

  /** Where `k` steps upwards lead from `n`; the root stays put. */
  ghost function Climb(ids: set<int>, parent: Parents, n: int, k: nat): (m: int)
    requires Closed(ids, parent) && n in ids
    ensures m in ids
    decreases k
  {
    if n == ROOT || k == 0 then n else Climb(ids, parent, parent[n], k - 1)
  }

  ghost predicate Reaches(ids: set<int>, parent: Parents, n: int)
    requires Closed(ids, parent) && n in ids
  {
    exists k: nat :: Climb(ids, parent, n, k) == ROOT
  }

  /** Climbing from `n` comes back to `n` without meeting the root. */
  ghost predicate OnCycle(ids: set<int>, parent: Parents, n: int)
    requires Closed(ids, parent) && n in ids
  {
    n != ROOT && exists k: nat :: k > 0 && Climb(ids, parent, n, k) == n
  }

  lemma {:induction false} ClimbAdd(ids: set<int>, parent: Parents, n: int, j: nat, k: nat)
    requires Closed(ids, parent) && n in ids
    ensures Climb(ids, parent, n, j + k) == Climb(ids, parent, Climb(ids, parent, n, j), k)
    decreases j
  {
    if n != ROOT && j > 0 { ClimbAdd(ids, parent, parent[n], j - 1, k); }
  }

  lemma {:induction false} CycleRepeats(ids: set<int>, parent: Parents, n: int, k: nat, m: nat)
    requires Closed(ids, parent) && n in ids && Climb(ids, parent, n, k) == n
    ensures Climb(ids, parent, n, m * k) == n
    decreases m
  {
    if m > 0 {
      CycleRepeats(ids, parent, n, k, m - 1);
      ClimbAdd(ids, parent, n, (m - 1) * k, k);
      assert m * k == (m - 1) * k + k;
    }
  }

  /** A node on a cycle never reaches the root. */
  lemma CycleMeansNoRoot(ids: set<int>, parent: Parents, n: int)
    requires Closed(ids, parent) && n in ids && OnCycle(ids, parent, n)
    ensures !Reaches(ids, parent, n)
  {
    var k: nat :| k > 0 && Climb(ids, parent, n, k) == n;
    if j: nat :| Climb(ids, parent, n, j) == ROOT {
      CycleRepeats(ids, parent, n, k, j);
      assert j * k >= j;
      ClimbAdd(ids, parent, n, j, j * k - j);
    }
  }

  // -------------------------------------------------------------- sums over sets

  lemma Inhabited(s: set<int>)
    ensures s == {} || exists x :: x in s
  {
    if forall x :: x !in s { assert s == {}; }
  }

  ghost function Sum(s: set<int>, calls: map<int, nat>): nat
    requires s <= calls.Keys
  {
    if s == {} then 0
    else
      Inhabited(s);
      var x :| x in s;
      calls[x] + Sum(s - {x}, calls)
  }

  lemma {:induction false} SumWithout(s: set<int>, x: int, calls: map<int, nat>)
    requires s <= calls.Keys && x in s
    ensures Sum(s, calls) == calls[x] + Sum(s - {x}, calls)
    decreases s
  {
    var y :| y in s && Sum(s, calls) == calls[y] + Sum(s - {y}, calls);
    if y != x {
      SumWithout(s - {y}, x, calls);
      SumWithout(s - {x}, y, calls);
      assert s - {y} - {x} == s - {x} - {y};
    }
  }

  lemma {:induction false} SumUnion(a: set<int>, b: set<int>, calls: map<int, nat>)
    requires a <= calls.Keys && b <= calls.Keys && a !! b
    ensures Sum(a + b, calls) == Sum(a, calls) + Sum(b, calls)
    decreases a
  {
    if a == {} {
      assert a + b == b;
    } else {
      Inhabited(a);
      var x :| x in a;
      SumWithout(a + b, x, calls);
      SumWithout(a, x, calls);
      assert a + b - {x} == (a - {x}) + b;
      SumUnion(a - {x}, b, calls);
    }
  }

  // ------------------------------------------------------------------ subtrees

  /** The nodes from which climbing passes `n`, `n` included. */
  ghost function Subtree(ids: set<int>, parent: Parents, n: int): set<int>
    requires Closed(ids, parent) && n in ids
  {
    set m | m in ids && Below(ids, parent, m, n)
  }

  ghost predicate Below(ids: set<int>, parent: Parents, m: int, n: int)
    requires Closed(ids, parent) && m in ids
  {
    exists k: nat :: Climb(ids, parent, m, k) == n
  }

  lemma BelowStep(ids: set<int>, parent: Parents, m: int, n: int)
    requires Closed(ids, parent) && m in ids && m != ROOT
    ensures Below(ids, parent, m, n) <==> m == n || Below(ids, parent, parent[m], n)
  {
    if k: nat :| Climb(ids, parent, m, k) == n {
      if k > 0 { assert Climb(ids, parent, parent[m], k - 1) == n; }
    }
    if m == n { assert Climb(ids, parent, m, 0) == n; }
    if k: nat :| Climb(ids, parent, parent[m], k) == n { assert Climb(ids, parent, m, k + 1) == n; }
  }

  /** The root's subtree is everything, once nothing is on a cycle. */
  lemma RootSubtreeIsAll(ids: set<int>, parent: Parents)
    requires Closed(ids, parent) && forall n :: n in ids ==> Reaches(ids, parent, n)
    ensures Subtree(ids, parent, ROOT) == ids
  {
    forall n | n in ids ensures Below(ids, parent, n, ROOT) { assert Reaches(ids, parent, n); }
  }

  ghost predicate Acyclic(ids: set<int>, parent: Parents)
    requires Closed(ids, parent)
  {
    forall n :: n in ids ==> !OnCycle(ids, parent, n)
  }

  lemma {:induction false} ClimbGoesDown(ids: set<int>, parent: Parents, n: int, k: nat)
    requires Closed(ids, parent) && n in ids && forall m :: m in ids && m != ROOT ==> parent[m] < m
    ensures Climb(ids, parent, n, k) <= n
    ensures k > 0 && n != ROOT ==> Climb(ids, parent, n, k) < n
    decreases k
  {
    if k > 0 && n != ROOT { ClimbGoesDown(ids, parent, parent[n], k - 1); }
  }

  /** Parents with smaller identifiers make no cycle. */
  lemma DescendingIsAcyclic(ids: set<int>, parent: Parents)
    requires Closed(ids, parent) && forall m :: m in ids && m != ROOT ==> parent[m] < m
    ensures Acyclic(ids, parent)
  {
    forall n | n in ids ensures !OnCycle(ids, parent, n) {
      forall k: nat | k > 0 && n != ROOT ensures Climb(ids, parent, n, k) != n { ClimbGoesDown(ids, parent, n, k); }
    }
  }

  /** A proper descendant of `n` is below exactly one of its children. */
  lemma {:induction false} BelowSomeChild(ids: set<int>, parent: Parents, m: int, n: int, k: nat) returns (c: int)
    requires Closed(ids, parent) && m in ids && m != n && Climb(ids, parent, m, k) == n
    ensures c in ids && c != ROOT && parent[c] == n && Below(ids, parent, m, c)
    decreases k
  {
    if parent[m] == n {
      c := m;
      assert Climb(ids, parent, m, 0) == m;
    } else {
      c := BelowSomeChild(ids, parent, parent[m], n, k - 1);
      BelowStep(ids, parent, m, c);
    }
  }

  lemma ChildNotBelowSibling(ids: set<int>, parent: Parents, c: int, d: int, k: nat)
    requires Closed(ids, parent) && Acyclic(ids, parent)
    requires c in ids && d in ids && c != ROOT && d != ROOT && c != d && parent[c] == parent[d]
    ensures Climb(ids, parent, c, k) != d
  {
    if Climb(ids, parent, c, k) == d {
      var n := parent[c];
      assert Climb(ids, parent, n, k - 1) == d;
      ClimbAdd(ids, parent, n, k - 1, 1);
    }
  }

  lemma SiblingSubtreesApart(ids: set<int>, parent: Parents, c: int, d: int)
    requires Closed(ids, parent) && Acyclic(ids, parent)
    requires c in ids && d in ids && c != ROOT && d != ROOT && c != d && parent[c] == parent[d]
    ensures Subtree(ids, parent, c) !! Subtree(ids, parent, d)
  {
    forall m | m in Subtree(ids, parent, c) && m in Subtree(ids, parent, d) ensures false {
      var j: nat :| Climb(ids, parent, m, j) == c;
      var k: nat :| Climb(ids, parent, m, k) == d;
      if j <= k {
        ClimbAdd(ids, parent, m, j, k - j);
        ChildNotBelowSibling(ids, parent, c, d, k - j);
      } else {
        ClimbAdd(ids, parent, m, k, j - k);
        ChildNotBelowSibling(ids, parent, d, c, j - k);
      }
    }
  }

  /** No node is below its own children. */
  lemma ParentNotBelowChild(ids: set<int>, parent: Parents, c: int)
    requires Closed(ids, parent) && Acyclic(ids, parent) && c in ids && c != ROOT
    ensures parent[c] !in Subtree(ids, parent, c)
  {
    var n := parent[c];
    if n in Subtree(ids, parent, c) {
      var k: nat :| Climb(ids, parent, n, k) == c;
      assert Climb(ids, parent, c, k + 1) == c;
      assert OnCycle(ids, parent, c);
    }
  }

  /** The union of the subtrees of the nodes in `cs`. */
  ghost function Forest(ids: set<int>, parent: Parents, cs: seq<int>): (f: set<int>)
    requires Closed(ids, parent) && forall c :: c in cs ==> c in ids
    ensures f <= ids
  {
    if cs == [] then {} else Forest(ids, parent, cs[..|cs| - 1]) + Subtree(ids, parent, cs[|cs| - 1])
  }

  lemma {:induction false} InForest(ids: set<int>, parent: Parents, cs: seq<int>, m: int)
    requires Closed(ids, parent) && (forall c :: c in cs ==> c in ids) && m in ids
    ensures m in Forest(ids, parent, cs) <==> exists i :: 0 <= i < |cs| && m in Subtree(ids, parent, cs[i])
  {
    if cs != [] {
      var front := cs[..|cs| - 1];
      InForest(ids, parent, front, m);
      if i :| 0 <= i < |front| && m in Subtree(ids, parent, front[i]) { assert m in Subtree(ids, parent, cs[i]); }
      if i :| 0 <= i < |cs| && m in Subtree(ids, parent, cs[i]) {
        if i < |front| { assert m in Subtree(ids, parent, front[i]); }
      }
    }
  }

  /** `cs` lists the children of `n`, each once. */
  ghost predicate Children(ids: set<int>, parent: Parents, n: int, cs: seq<int>)
    requires Closed(ids, parent)
  {
    && (forall c :: c in cs <==> c in ids && c != ROOT && parent[c] == n)
    && (forall i, j :: 0 <= i < j < |cs| ==> cs[i] != cs[j])
  }

  lemma InSubtree(ids: set<int>, parent: Parents, n: int, cs: seq<int>, m: int)
    requires Closed(ids, parent) && n in ids && Children(ids, parent, n, cs) && m in ids
    ensures m in Subtree(ids, parent, n) <==> m == n || m in Forest(ids, parent, cs)
  {
    InForest(ids, parent, cs, m);
    if m == n {
      assert Climb(ids, parent, n, 0) == n;
    } else if m in Subtree(ids, parent, n) {
      var k: nat :| Climb(ids, parent, m, k) == n;
      var c := BelowSomeChild(ids, parent, m, n, k);
      var i :| 0 <= i < |cs| && cs[i] == c;
      assert m in Subtree(ids, parent, cs[i]);
    } else if i :| 0 <= i < |cs| && m in Subtree(ids, parent, cs[i]) {
      assert cs[i] in cs;
      var k: nat :| Climb(ids, parent, m, k) == cs[i];
      ClimbAdd(ids, parent, m, k, 1);
    }
  }

  /** A subtree is its node together with the subtrees of the children. */
  lemma SubtreeSplits(ids: set<int>, parent: Parents, n: int, cs: seq<int>)
    requires Closed(ids, parent) && Acyclic(ids, parent) && n in ids && Children(ids, parent, n, cs)
    ensures Subtree(ids, parent, n) == {n} + Forest(ids, parent, cs)
    ensures n !in Forest(ids, parent, cs)
  {
    forall m | m in ids ensures m in Subtree(ids, parent, n) <==> m == n || m in Forest(ids, parent, cs) {
      InSubtree(ids, parent, n, cs, m);
    }
    InForest(ids, parent, cs, n);
    forall i | 0 <= i < |cs| ensures n !in Subtree(ids, parent, cs[i]) {
      assert cs[i] in cs;
      ParentNotBelowChild(ids, parent, cs[i]);
    }
  }

  /** Adding up weights of children that are the sums over their subtrees. */
  function WeightSum(weight: map<int, nat>, cs: seq<int>): nat
    requires forall i :: 0 <= i < |cs| ==> cs[i] in weight
  {
    if cs == [] then 0
    else
      WeightSum(weight, cs[..|cs| - 1]) + weight[cs[|cs| - 1]]
  }

  /** Node `c` has been given the sum of calls over its subtree. */
  ghost predicate Weighed(ids: set<int>, parent: Parents, calls: map<int, nat>, weight: map<int, nat>, c: int)
    requires Closed(ids, parent) && ids <= calls.Keys
  {
    c in ids && c in weight && weight[c] == Sum(Subtree(ids, parent, c), calls)
  }

  lemma {:induction false} ForestSum(ids: set<int>, parent: Parents, calls: map<int, nat>, weight: map<int, nat>,
                                     cs: seq<int>, n: int)
    requires Closed(ids, parent) && Acyclic(ids, parent) && ids <= calls.Keys
    requires forall i :: 0 <= i < |cs| ==>
      cs[i] in ids && cs[i] != ROOT && parent[cs[i]] == n && Weighed(ids, parent, calls, weight, cs[i])
    requires forall i, j :: 0 <= i < j < |cs| ==> cs[i] != cs[j]
    requires forall i :: 0 <= i < |cs| ==> cs[i] in weight
    ensures WeightSum(weight, cs) == Sum(Forest(ids, parent, cs), calls)
  {
    if cs != [] {
      var front, c := cs[..|cs| - 1], cs[|cs| - 1];
      ForestSum(ids, parent, calls, weight, front, n);
      forall m | m in Forest(ids, parent, front) ensures m !in Subtree(ids, parent, c) {
        InForest(ids, parent, front, m);
        var i :| 0 <= i < |front| && m in Subtree(ids, parent, front[i]);
        assert front[i] == cs[i];
        SiblingSubtreesApart(ids, parent, cs[i], c);
      }
      SumUnion(Forest(ids, parent, front), Subtree(ids, parent, c), calls);
    }
  }

  /** A node's own calls plus its children's subtree sums make its subtree sum. */
  lemma SubtreeSum(ids: set<int>, parent: Parents, calls: map<int, nat>, weight: map<int, nat>, cs: seq<int>, n: int)
    requires Closed(ids, parent) && Acyclic(ids, parent) && ids <= calls.Keys && n in ids && Children(ids, parent, n, cs)
    requires forall i :: 0 <= i < |cs| ==> Weighed(ids, parent, calls, weight, cs[i])
    requires forall i :: 0 <= i < |cs| ==> cs[i] in weight
    ensures calls[n] + WeightSum(weight, cs) == Sum(Subtree(ids, parent, n), calls)
  {
    SubtreeSplits(ids, parent, n, cs);
    ForestSum(ids, parent, calls, weight, cs, n);
    SumWithout(Subtree(ids, parent, n), n, calls);
    assert Subtree(ids, parent, n) - {n} == Forest(ids, parent, cs);
  }
}

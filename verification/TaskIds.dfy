/** How long a task identifier stays unique. */
module TaskIds {
  import opened Machine
  import opened Scheduler

  /** The generation of a slot after `k` more spawns into it. */
  function Generation(g: U32, k: nat): U32 { if k == 0 then g else NextGeneration(Generation(g, k - 1)) }

  lemma NextInCycle(x: int)
    requires x >= 0
    ensures NextGeneration(x % U32_MAX + 1) == (x + 1) % U32_MAX + 1
  {
    var q, r := x / U32_MAX, x % U32_MAX;
    assert x + 1 == q * U32_MAX + (r + 1);
    if r + 1 == U32_MAX { assert x + 1 == (q + 1) * U32_MAX; }
  }

  lemma {:induction false} GenerationCycle(g: U32, k: nat)
    requires g > 0
    ensures Generation(g, k) == (g - 1 + k) % U32_MAX + 1
  {
    if k > 0 {
      GenerationCycle(g, k - 1);
      NextInCycle(g - 1 + k - 1);
    }
  }

  lemma SameRemainder(r: int, k: nat)
    requires 0 <= r < U32_MAX
    ensures (r + k) % U32_MAX == r <==> k % U32_MAX == 0
  {
    var q, t := k / U32_MAX, k % U32_MAX;
    if r + t < U32_MAX {
      assert r + k == q * U32_MAX + (r + t);
    } else {
      assert r + k == (q + 1) * U32_MAX + (r + t - U32_MAX);
    }
  }

  /** The identifiers of two spawns into one slot agree exactly when a multiple of 2^32 - 1 spawns lies between them. */
  lemma IdentifiersRepeat(g: U32, k: nat)
    requires g > 0
    ensures Generation(g, k) == g <==> k % U32_MAX == 0
  {
    GenerationCycle(g, k);
    SameRemainder(g - 1, k);
  }

  /** One for a call that spawns a task into slot `i`. */
  function SpawnHere(s: State, op: Op, i: nat): nat { if op.Spawn? && FirstFree(s.tasks) == i then 1 else 0 }

  /** How many of the calls spawn a task into slot `i`. */
  function SpawnsInto(s: State, ops: seq<Op>, i: nat): nat
    requires |s.tasks| == |s.generations| == MAX_TASKS && s.next < MAX_TASKS
    decreases |ops|
  {
    if ops == [] then 0
    else SpawnHere(s, ops[0], i) + SpawnsInto(Apply(s, ops[0]), ops[1..], i)
  }

  lemma RunFirst(s: State, ops: seq<Op>, i: nat)
    requires WellFormed(s) && ops != []
    ensures WellFormed(Apply(s, ops[0])) && After(s, ops) == After(Apply(s, ops[0]), ops[1..])
    ensures SpawnsInto(s, ops, i) == SpawnHere(s, ops[0], i) + SpawnsInto(Apply(s, ops[0]), ops[1..], i)
  {
    ApplyKeepsForm(s, ops[0]);
  }

  lemma GenerationStep(s: State, op: Op, i: nat)
    requires WellFormed(s) && i < MAX_TASKS
    ensures WellFormed(Apply(s, op))
    ensures Apply(s, op).generations[i] == Generation(s.generations[i], SpawnHere(s, op, i))
  {
    ApplyKeepsForm(s, op);
    assert Generation(s.generations[i], 1) == NextGeneration(Generation(s.generations[i], 0));
  }

  lemma {:induction false} GenerationAdds(g: U32, j: nat, k: nat)
    ensures Generation(Generation(g, j), k) == Generation(g, j + k)
  {
    if k > 0 { GenerationAdds(g, j, k - 1); }
  }

  /** Over any run a slot's generation has advanced once for each spawn into the slot and for nothing else. */
  lemma {:induction false} GenerationsCountSpawns(s: State, ops: seq<Op>, i: nat)
    requires WellFormed(s) && i < MAX_TASKS
    ensures WellFormed(After(s, ops))
    ensures After(s, ops).generations[i] == Generation(s.generations[i], SpawnsInto(s, ops, i))
    decreases |ops|
  {
    if ops != [] {
      var t := Apply(s, ops[0]);
      RunFirst(s, ops, i);
      GenerationStep(s, ops[0], i);
      GenerationsCountSpawns(t, ops[1..], i);
      GenerationAdds(s.generations[i], SpawnHere(s, ops[0], i), SpawnsInto(t, ops[1..], i));
    }
  }

  /** An identifier once given out for slot `i` is live after any run exactly when the slot is occupied and a multiple
      of 2^32 - 1 spawns into it lies in between: reaping invalidates it, but not for ever. */
  lemma IdentifierIsLiveIff(s: State, ops: seq<Op>, i: nat)
    requires WellFormed(s) && i < MAX_TASKS && s.generations[i] > 0
    ensures WellFormed(After(s, ops))
    ensures Live(After(s, ops), IdOf(s, i)) <==>
            After(s, ops).tasks[i].Some? && SpawnsInto(s, ops, i) % U32_MAX == 0
  {
    GenerationsCountSpawns(s, ops, i);
    IdentifiersRepeat(s.generations[i], SpawnsInto(s, ops, i));
  }

  // ------------------------------------------------ a stale identifier come back to life

  /** Cancel, reap and spawn again, `n` times over, in the slot of a task that is its scheduler's first. */
  function Recycled(s: State, entry: TaskEntry, n: nat): seq<Op>
    requires WellFormed(s)
  {
    if n == 0 then []
    else
      var last := Recycled(s, entry, n - 1);
      RunKeepsForm(s, last);
      var id := IdOf(After(s, last), 0);
      last + [Cancel(id), Reap(id), Spawn(entry)]
  }

  lemma EndedAndReaped(s: State)
    requires WellFormed(s) && s.tasks[0].Some?
    ensures var a := Apply(s, Cancel(IdOf(s, 0)));
      && WellFormed(a) && IdOf(a, 0) == IdOf(s, 0)
      && WellFormed(Apply(a, Reap(IdOf(s, 0)))) && Apply(a, Reap(IdOf(s, 0))).tasks[0].None?
  {
    var a := Apply(s, Cancel(IdOf(s, 0)));
    ApplyKeepsForm(s, Cancel(IdOf(s, 0)));
    ApplyKeepsForm(a, Reap(IdOf(s, 0)));
    assert a.tasks[0].Some? && Terminated(a.tasks[0].value.state);
  }

  lemma SpawnedFirst(s: State, entry: TaskEntry)
    requires WellFormed(s) && s.tasks[0].None?
    ensures FirstFree(s.tasks) == 0 && Apply(s, Spawn(entry)).tasks[0].Some?
  {
  }

  lemma RecycleOnce(s: State, entry: TaskEntry)
    requires WellFormed(s) && s.tasks[0].Some?
    ensures var ops := [Cancel(IdOf(s, 0)), Reap(IdOf(s, 0)), Spawn(entry)];
      && WellFormed(After(s, ops)) && After(s, ops).tasks[0].Some? && SpawnsInto(s, ops, 0) == 1
  {
    var id := IdOf(s, 0);
    var three, two, one := [Cancel(id), Reap(id), Spawn(entry)], [Reap(id), Spawn(entry)], [Spawn(entry)];
    var a := Apply(s, Cancel(id));
    var b := Apply(a, Reap(id));
    EndedAndReaped(s);
    SpawnedFirst(b, entry);
    RunFirst(s, three, 0);
    RunFirst(a, two, 0);
    RunFirst(b, one, 0);
    assert three[1..] == two && two[1..] == one && one[1..] == [];
  }

  lemma {:induction false} SpawnsConcat(s: State, xs: seq<Op>, ys: seq<Op>, i: nat)
    requires WellFormed(s)
    ensures WellFormed(After(s, xs))
    ensures SpawnsInto(s, xs + ys, i) == SpawnsInto(s, xs, i) + SpawnsInto(After(s, xs), ys, i)
    decreases |xs|
  {
    RunKeepsForm(s, xs);
    if xs == [] {
      assert xs + ys == ys;
    } else {
      assert (xs + ys)[1..] == xs[1..] + ys && (xs + ys)[0] == xs[0];
      RunFirst(s, xs, i);
      RunFirst(s, xs + ys, i);
      SpawnsConcat(Apply(s, xs[0]), xs[1..], ys, i);
    }
  }

  lemma {:induction false} RecycledSpawns(s: State, entry: TaskEntry, n: nat)
    requires WellFormed(s) && s.tasks[0].Some?
    ensures var t := After(s, Recycled(s, entry, n)); WellFormed(t) && t.tasks[0].Some?
    ensures SpawnsInto(s, Recycled(s, entry, n), 0) == n
  {
    RunKeepsForm(s, Recycled(s, entry, n));
    if n > 0 {
      RecycledSpawns(s, entry, n - 1);
      var last := Recycled(s, entry, n - 1);
      var t := After(s, last);
      var again := [Cancel(IdOf(t, 0)), Reap(IdOf(t, 0)), Spawn(entry)];
      RecycleOnce(t, entry);
      AfterConcat(s, last, again);
      SpawnsConcat(s, last, again, 0);
    }
  }

  /** The input: after so many recyclings the identifier of a task long reaped is live again, for another task. */
  lemma IdentifiersAreNotUnique(s: State, entry: TaskEntry)
    requires WellFormed(s) && s.tasks[0].Some? && s.generations[0] > 0
    ensures var ops := Recycled(s, entry, U32_MAX);
      && WellFormed(After(s, ops)) && Live(After(s, ops), IdOf(s, 0))
      && |ops| > 1 && ops[0] == Cancel(IdOf(s, 0)) && ops[1] == Reap(IdOf(s, 0))
  {
    RecycledSpawns(s, entry, U32_MAX);
    IdentifierIsLiveIff(s, Recycled(s, entry, U32_MAX), 0);
    RecycledStart(s, entry, U32_MAX);
  }

  lemma {:induction false} RecycledStart(s: State, entry: TaskEntry, n: nat)
    requires WellFormed(s) && n > 0
    ensures var ops := Recycled(s, entry, n); |ops| > 1 && ops[0] == Cancel(IdOf(s, 0)) && ops[1] == Reap(IdOf(s, 0))
  {
    if n > 1 { RecycledStart(s, entry, n - 1); }
  }
}

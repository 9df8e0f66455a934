/** The cooperative task scheduler: fixed slots, generations, and a rotating cursor. */
module Scheduler {
  import opened Machine

  const MAX_TASKS: nat := 64
  const U32_MAX: int := 0xFFFF_FFFF

  type U32 = x: int | 0 <= x <= U32_MAX

  datatype TaskId = TaskId(index: U64, generation: U32)

  /** The address of a task's body; what the body answers when called is an input of each dispatch. */
  datatype TaskEntry = TaskEntry(address: U64)

  datatype TaskState = Ready | Running | Sleeping(until: U64) | Blocked | Finished | Cancelled

  datatype TaskAction = Yield | SleepUntil(until: U64) | Block | Exit

  datatype Task = Task(entry: TaskEntry, state: TaskState)

  datatype SchedulerError = NoTaskSlots | InvalidTask | TaskNotFinished

  type Tasks = seq<Option<Task>>

  datatype State = State(tasks: Tasks, generations: seq<U32>, next: nat)

  // ------------------------------------------------------------- specification

  predicate IsReady(slot: Option<Task>) { slot.Some? && slot.value.state == Ready }

  ghost predicate WellFormed(s: State) {
    && |s.tasks| == MAX_TASKS && |s.generations| == MAX_TASKS && s.next < MAX_TASKS
    && (forall i :: 0 <= i < MAX_TASKS && s.tasks[i].Some? ==> s.tasks[i].value.state != Running)
  }

  function WakeSlot(slot: Option<Task>, now: U64): Option<Task> {
    if slot.Some? && slot.value.state.Sleeping? && now >= slot.value.state.until
    then Some(slot.value.(state := Ready)) else slot
  }

  function WakeExpired(tasks: Tasks, now: U64): (woken: Tasks)
    ensures |woken| == |tasks| && forall i :: 0 <= i < |tasks| ==> woken[i] == WakeSlot(tasks[i], now)
  {
    seq(|tasks|, i requires 0 <= i < |tasks| => WakeSlot(tasks[i], now))
  }

  function Slot(next: nat, offset: nat): nat { (next + offset) % MAX_TASKS }

  /** How many slots past `from`, going round, `to` lies. */
  function Distance(from: nat, to: nat): nat
    requires from < MAX_TASKS && to < MAX_TASKS
  {
    if from <= to then to - from else to + MAX_TASKS - from
  }

  /** The first ready slot at or after `next + offset`, going round once. */
  function FindReady(tasks: Tasks, next: nat, offset: nat): (r: Option<nat>)
    requires |tasks| == MAX_TASKS && next < MAX_TASKS && offset <= MAX_TASKS
    ensures r.Some? ==> r.value < MAX_TASKS && IsReady(tasks[r.value]) && offset <= Distance(next, r.value)
    ensures r.Some? ==> forall d :: offset <= d < Distance(next, r.value) ==> !IsReady(tasks[Slot(next, d)])
    ensures r.None? ==> forall d :: offset <= d < MAX_TASKS ==> !IsReady(tasks[Slot(next, d)])
    decreases MAX_TASKS - offset
  {
    if offset == MAX_TASKS then None
    else if IsReady(tasks[Slot(next, offset)]) then Some(Slot(next, offset))
    else FindReady(tasks, next, offset + 1)
  }

  /** The state an action leaves the task in; a deadline already reached keeps it ready. */
  function Outcome(action: TaskAction, now: U64): TaskState {
    match action
    case Yield => Ready
    case SleepUntil(until) => if until <= now then Ready else Sleeping(until)
    case Block => Blocked
    case Exit => Finished
  }

  function NextGeneration(g: U32): U32 { Max((g + 1) % (U32_MAX + 1), 1) }

  predicate Live(s: State, id: TaskId)
    requires |s.tasks| == |s.generations| == MAX_TASKS
  {
    id.index < MAX_TASKS && s.generations[id.index] == id.generation && s.tasks[id.index].Some?
  }

  predicate Terminated(st: TaskState) { st.Finished? || st.Cancelled? }

  function SetState(s: State, i: nat, st: TaskState): State
    requires i < |s.tasks| && s.tasks[i].Some?
  {
    s.(tasks := s.tasks[i := Some(s.tasks[i].value.(state := st))])
  }

  function FirstFree(tasks: Tasks): (k: nat)
    ensures k <= |tasks| && (forall i :: 0 <= i < k ==> tasks[i].Some?) && (k < |tasks| ==> tasks[k].None?)
  {
    if tasks == [] || tasks[0].None? then 0 else 1 + FirstFree(tasks[1..])
  }

  /** One call on the scheduler; `answer` is what the dispatched task, if any, returns. */
  datatype Op =
    | Spawn(entry: TaskEntry)
    | Wake(id: TaskId)
    | Cancel(id: TaskId)
    | Reap(id: TaskId)
    | Expire(now: U64)
    | RunNext(now: U64, answer: TaskAction)

  /** The slot a call dispatches. */
  function Dispatched(s: State, op: Op): (r: Option<nat>)
    requires |s.tasks| == MAX_TASKS && s.next < MAX_TASKS
    ensures r.Some? ==> r.value < MAX_TASKS
  {
    match op
    case RunNext(now, _) => FindReady(WakeExpired(s.tasks, now), s.next, 0)
    case _ => None
  }

  function Apply(s: State, op: Op): State
    requires |s.tasks| == |s.generations| == MAX_TASKS && s.next < MAX_TASKS
  {
    match op
    case Spawn(entry) =>
      var k := FirstFree(s.tasks);
      if k == MAX_TASKS then s
      else s.(tasks := s.tasks[k := Some(Task(entry, Ready))],
              generations := s.generations[k := NextGeneration(s.generations[k])])
    case Wake(id) =>
      if Live(s, id) && s.tasks[id.index].value.state == Blocked then SetState(s, id.index, Ready) else s
    case Cancel(id) =>
      if Live(s, id) && !Terminated(s.tasks[id.index].value.state) then SetState(s, id.index, Cancelled) else s
    case Reap(id) =>
      if Live(s, id) && Terminated(s.tasks[id.index].value.state) then s.(tasks := s.tasks[id.index := None]) else s
    case Expire(now) => s.(tasks := WakeExpired(s.tasks, now))
    case RunNext(now, answer) =>
      var woken := s.(tasks := WakeExpired(s.tasks, now));
      match Dispatched(s, op)
      case None => woken
      case Some(i) => SetState(woken, i, Outcome(answer, now)).(next := (i + 1) % MAX_TASKS)
  }

  // -------------------------------------------------------------------- runs

  function After(s: State, ops: seq<Op>): State
    requires |s.tasks| == |s.generations| == MAX_TASKS && s.next < MAX_TASKS
    decreases |ops|
  {
    if ops == [] then s else After(Apply(s, ops[0]), ops[1..])
  }

  /** The slots dispatched by a run of calls, in order. */
  function Dispatches(s: State, ops: seq<Op>): seq<nat>
    requires |s.tasks| == |s.generations| == MAX_TASKS && s.next < MAX_TASKS
    decreases |ops|
  {
    if ops == [] then []
    else
      (match Dispatched(s, ops[0]) case None => [] case Some(i) => [i]) + Dispatches(Apply(s, ops[0]), ops[1..])
  }

  lemma ApplyKeepsSizes(s: State, op: Op)
    requires WellFormed(s)
    ensures var t := Apply(s, op); |t.tasks| == |t.generations| == MAX_TASKS && t.next < MAX_TASKS
  {
  }

  lemma RunLeavesNoneRunning(s: State, now: U64, answer: TaskAction, i: nat)
    requires WellFormed(s) && i < MAX_TASKS
    ensures var t := Apply(s, RunNext(now, answer));
      i < |t.tasks| && (t.tasks[i].Some? ==> t.tasks[i].value.state != Running)
  {
    var woken := WakeExpired(s.tasks, now);
    assert woken[i] == WakeSlot(s.tasks[i], now);
    match Dispatched(s, RunNext(now, answer))
    case None => assert Apply(s, RunNext(now, answer)).tasks == woken;
    case Some(k) =>
      assert IsReady(woken[k]);
      assert Apply(s, RunNext(now, answer)).tasks == woken[k := Some(woken[k].value.(state := Outcome(answer, now)))];
  }

  lemma NoneLeftRunning(s: State, op: Op, i: nat)
    requires WellFormed(s) && i < MAX_TASKS
    ensures var t := Apply(s, op); i < |t.tasks| && (t.tasks[i].Some? ==> t.tasks[i].value.state != Running)
  {
    if op.RunNext? { RunLeavesNoneRunning(s, op.now, op.answer, i); }
  }

  lemma ApplyKeepsForm(s: State, op: Op)
    requires WellFormed(s)
    ensures WellFormed(Apply(s, op))
  {
    ApplyKeepsSizes(s, op);
    forall i | 0 <= i < MAX_TASKS ensures Apply(s, op).tasks[i].Some? ==> Apply(s, op).tasks[i].value.state != Running {
      NoneLeftRunning(s, op, i);
    }
  }

  lemma {:induction false} RunKeepsForm(s: State, ops: seq<Op>)
    requires WellFormed(s)
    ensures WellFormed(After(s, ops))
    decreases |ops|
  {
    if ops != [] {
      ApplyKeepsForm(s, ops[0]);
      RunKeepsForm(Apply(s, ops[0]), ops[1..]);
    }
  }

  // ---------------------------------------------------------------- bounded bypass

  /** The identifier of the task now in slot `i`. */
  function IdOf(s: State, i: nat): TaskId
    requires i < MAX_TASKS == |s.generations|
  {
    TaskId(i, s.generations[i])
  }

  predicate Spares(ops: seq<Op>, id: TaskId) { Cancel(id) !in ops }

  function RunCount(ops: seq<Op>): nat {
    if ops == [] then 0 else (if ops[0].RunNext? then 1 else 0) + RunCount(ops[1..])
  }

  lemma SlotAtDistance(next: nat, i: nat)
    requires next < MAX_TASKS && i < MAX_TASKS
    ensures Distance(next, i) < MAX_TASKS && Slot(next, Distance(next, i)) == i
  {
  }

  lemma CursorPasses(next: nat, j: nat, i: nat)
    requires next < MAX_TASKS && i < MAX_TASKS && j < MAX_TASKS && i != j
    requires Distance(next, j) <= Distance(next, i)
    ensures Distance((j + 1) % MAX_TASKS, i) == Distance(j, i) - 1 < Distance(next, i)
    ensures 0 < Distance(j, i) <= Distance(next, i)
  {
  }

  /** Some slot no further than a ready one is dispatched. */
  lemma SomeoneIsDispatched(s: State, op: Op, i: nat)
    requires WellFormed(s) && i < MAX_TASKS && IsReady(s.tasks[i]) && op.RunNext?
    ensures Dispatched(s, op).Some? && Distance(s.next, Dispatched(s, op).value) <= Distance(s.next, i)
  {
    SlotAtDistance(s.next, i);
    assert IsReady(WakeExpired(s.tasks, op.now)[Slot(s.next, Distance(s.next, i))]);
  }

  lemma OthersStayReady(s: State, op: Op, i: nat)
    requires WellFormed(s) && i < MAX_TASKS && IsReady(s.tasks[i])
    requires op != Cancel(IdOf(s, i)) && Dispatched(s, op) != Some(i)
    ensures IsReady(Apply(s, op).tasks[i]) && IdOf(Apply(s, op), i) == IdOf(s, i)
    ensures Apply(s, op).next ==
            if op.RunNext? && Dispatched(s, op).Some? then (Dispatched(s, op).value + 1) % MAX_TASKS else s.next
  {
  }

  /** A ready task is dispatched, or the cursor moves to a slot strictly closer to it. */
  lemma ReadyStep(s: State, op: Op, i: nat)
    requires WellFormed(s) && i < MAX_TASKS && IsReady(s.tasks[i]) && op != Cancel(IdOf(s, i))
    ensures !op.RunNext? ==> IsReady(Apply(s, op).tasks[i]) && Apply(s, op).next == s.next
    ensures op.RunNext? ==> Dispatched(s, op).Some? && Distance(s.next, Dispatched(s, op).value) <= Distance(s.next, i)
    ensures op.RunNext? && Dispatched(s, op) != Some(i) ==>
      && IsReady(Apply(s, op).tasks[i])
      && Distance(Apply(s, op).next, i) == Distance(Dispatched(s, op).value, i) - 1 < Distance(s.next, i)
      && 0 < Distance(Dispatched(s, op).value, i) <= Distance(s.next, i)
  {
    if op.RunNext? { SomeoneIsDispatched(s, op, i); }
    if Dispatched(s, op) != Some(i) {
      OthersStayReady(s, op, i);
      if op.RunNext? { CursorPasses(s.next, Dispatched(s, op).value, i); }
    }
  }

  lemma DispatchesFirst(s: State, ops: seq<Op>)
    requires WellFormed(s) && ops != []
    ensures var rest := Dispatches(Apply(s, ops[0]), ops[1..]);
      Dispatches(s, ops) == match Dispatched(s, ops[0]) case None => rest case Some(i) => [i] + rest
  {
  }

  /** The first `k + 1` dispatches come ever closer to slot `i` and end there. */
  predicate Approaches(d: seq<nat>, k: nat, i: nat, from: nat)
    requires i < MAX_TASKS
  {
    && k < |d| && d[k] == i
    && (forall a :: 0 <= a <= k ==> d[a] < MAX_TASKS && Distance(d[a], i) <= from)
    && (forall a, b :: 0 <= a < b <= k ==> Distance(d[a], i) > Distance(d[b], i))
  }

  lemma ApproachesFrom(j: nat, d: seq<nat>, k: nat, i: nat, from: nat)
    requires i < MAX_TASKS && j < MAX_TASKS && Distance(j, i) > 0
    requires Approaches(d, k, i, Distance(j, i) - 1) && Distance(j, i) <= from
    ensures Approaches([j] + d, k + 1, i, from)
  {
    var e := [j] + d;
    assert forall a :: 1 <= a < |e| ==> e[a] == d[a - 1];
  }

  lemma FirstDispatchApproaches(s: State, ops: seq<Op>, i: nat)
    requires WellFormed(s) && i < MAX_TASKS && IsReady(s.tasks[i]) && ops != [] && Dispatched(s, ops[0]) == Some(i)
    ensures Distance(s.next, i) < MAX_TASKS && Approaches(Dispatches(s, ops), 0, i, Distance(s.next, i))
  {
    DispatchesFirst(s, ops);
  }

  lemma LaterDispatchApproaches(s: State, ops: seq<Op>, i: nat, k: nat)
    requires WellFormed(s) && i < MAX_TASKS && IsReady(s.tasks[i]) && ops != [] && ops[0] != Cancel(IdOf(s, i))
    requires ops[0].RunNext? && Dispatched(s, ops[0]) != Some(i)
    requires var s' := Apply(s, ops[0]);
      WellFormed(s') && k <= Distance(s'.next, i) && Approaches(Dispatches(s', ops[1..]), k, i, Distance(s'.next, i))
    ensures k + 1 <= Distance(s.next, i) && Approaches(Dispatches(s, ops), k + 1, i, Distance(s.next, i))
  {
    ReadyStep(s, ops[0], i);
    DispatchesFirst(s, ops);
    ApproachesFrom(Dispatched(s, ops[0]).value, Dispatches(Apply(s, ops[0]), ops[1..]), k, i, Distance(s.next, i));
  }

  /** After a call that does not dispatch slot `i` everything the wait relies on still holds. */
  lemma StillWaiting(s: State, ops: seq<Op>, i: nat)
    requires WellFormed(s) && i < MAX_TASKS && IsReady(s.tasks[i]) && ops != [] && Spares(ops, IdOf(s, i))
    requires RunCount(ops) > Distance(s.next, i) && Dispatched(s, ops[0]) != Some(i)
    ensures var s' := Apply(s, ops[0]);
      && WellFormed(s') && IsReady(s'.tasks[i]) && Spares(ops[1..], IdOf(s', i))
      && RunCount(ops[1..]) > Distance(s'.next, i)
    ensures ops[0] != Cancel(IdOf(s, i))
  {
    assert ops[0] in ops && forall o :: o in ops[1..] ==> o in ops;
    ReadyStep(s, ops[0], i);
    OthersStayReady(s, ops[0], i);
    ApplyKeepsForm(s, ops[0]);
  }

  lemma OnlyRunsDispatch(s: State, ops: seq<Op>)
    requires WellFormed(s) && ops != [] && !ops[0].RunNext?
    ensures Apply(s, ops[0]).next == s.next && Dispatches(s, ops) == Dispatches(Apply(s, ops[0]), ops[1..])
  {
    DispatchesFirst(s, ops);
  }

  lemma OneCallEarlier(s: State, ops: seq<Op>, i: nat, k: nat) returns (k': nat)
    requires WellFormed(s) && i < MAX_TASKS && IsReady(s.tasks[i]) && ops != [] && ops[0] != Cancel(IdOf(s, i))
    requires Dispatched(s, ops[0]) != Some(i) && WellFormed(Apply(s, ops[0]))
    requires InTime(Apply(s, ops[0]), ops[1..], i, k)
    ensures InTime(s, ops, i, k')
  {
    if ops[0].RunNext? {
      LaterDispatchApproaches(s, ops, i, k);
      k' := k + 1;
    } else {
      OnlyRunsDispatch(s, ops);
      k' := k;
    }
  }

  /** The dispatches come ever closer to slot `i` and reach it as number `k`. */
  predicate InTime(s: State, ops: seq<Op>, i: nat, k: nat)
    requires |s.tasks| == |s.generations| == MAX_TASKS && s.next < MAX_TASKS && i < MAX_TASKS
  {
    k <= Distance(s.next, i) < MAX_TASKS && Approaches(Dispatches(s, ops), k, i, Distance(s.next, i))
  }

  lemma {:induction false} DispatchedInTime(s: State, ops: seq<Op>, i: nat) returns (k: nat)
    requires WellFormed(s) && i < MAX_TASKS && IsReady(s.tasks[i]) && Spares(ops, IdOf(s, i))
    requires RunCount(ops) > Distance(s.next, i)
    ensures InTime(s, ops, i, k)
    decreases |ops|
  {
    if Dispatched(s, ops[0]) == Some(i) {
      FirstDispatchApproaches(s, ops, i);
      k := 0;
    } else {
      StillWaiting(s, ops, i);
      k := DispatchedInTime(Apply(s, ops[0]), ops[1..], i);
      k := OneCallEarlier(s, ops, i, k);
    }
  }

  /** A ready task that nobody cancels is dispatched within `Distance + 1` dispatching calls, whatever the
      tasks answer and whatever else is called in between; until then no slot is dispatched twice. */
  lemma BoundedBypass(s: State, ops: seq<Op>, i: nat) returns (k: nat)
    requires WellFormed(s) && i < MAX_TASKS && IsReady(s.tasks[i]) && Spares(ops, IdOf(s, i))
    requires RunCount(ops) > Distance(s.next, i)
    ensures k <= Distance(s.next, i) < MAX_TASKS && k < |Dispatches(s, ops)| && Dispatches(s, ops)[k] == i
    ensures forall a, b :: 0 <= a < b <= k ==> Dispatches(s, ops)[a] != Dispatches(s, ops)[b]
  {
    k := DispatchedInTime(s, ops, i);
  }

  // ------------------------------------------------------------- an expired sleeper

  predicate SleepsUntil(s: State, i: nat, until: U64)
    requires |s.tasks| == MAX_TASKS
  {
    i < MAX_TASKS && s.tasks[i].Some? && s.tasks[i].value.state == Sleeping(until)
  }

  /** Every tick the scheduler is shown lies at or past `until`. */
  predicate TicksFrom(ops: seq<Op>, until: U64) { forall op :: op in ops && IsTick(op) ==> op.now >= until }

  predicate IsTick(op: Op) { op.Expire? || op.RunNext? }

  /** A tick at or past the deadline does the same to the sleeper as to a ready task in its place. */
  lemma TickForgetsSleep(s: State, op: Op, i: nat, until: U64)
    requires WellFormed(s) && SleepsUntil(s, i, until) && IsTick(op) && op.now >= until
    ensures WellFormed(SetState(s, i, Ready))
    ensures Apply(SetState(s, i, Ready), op) == Apply(s, op)
    ensures Dispatched(SetState(s, i, Ready), op) == Dispatched(s, op)
  {
    assert WakeExpired(SetState(s, i, Ready).tasks, op.now) == WakeExpired(s.tasks, op.now);
  }

  lemma FirstFreeSeesSlots(xs: Tasks, ys: Tasks)
    requires |xs| == |ys| && forall i :: 0 <= i < |xs| ==> xs[i].Some? == ys[i].Some?
    ensures FirstFree(xs) == FirstFree(ys)
  {
    var a, b := FirstFree(xs), FirstFree(ys);
    if a < |xs| { assert ys[a].None?; }
    if b < |ys| { assert xs[b].None?; }
  }

  /** Any other call leaves the sleeper asleep unless it cancels it. */
  lemma CallKeepsSleep(s: State, op: Op, i: nat, until: U64)
    requires WellFormed(s) && SleepsUntil(s, i, until) && !IsTick(op) && op != Cancel(IdOf(s, i))
    ensures WellFormed(Apply(s, op)) && SleepsUntil(Apply(s, op), i, until) && IdOf(Apply(s, op), i) == IdOf(s, i)
  {
    ApplyKeepsForm(s, op);
  }

  lemma UpdatesCommute(tasks: Tasks, a: nat, x: Option<Task>, b: nat, y: Option<Task>)
    requires a < |tasks| && b < |tasks| && a != b
    ensures tasks[a := x][b := y] == tasks[b := y][a := x]
  {
  }

  lemma SpawnTreatsAlike(s: State, entry: TaskEntry, i: nat, until: U64)
    requires WellFormed(s) && SleepsUntil(s, i, until) && SleepsUntil(Apply(s, Spawn(entry)), i, until)
    ensures Apply(SetState(s, i, Ready), Spawn(entry)) == SetState(Apply(s, Spawn(entry)), i, Ready)
  {
    var r, k := SetState(s, i, Ready), FirstFree(s.tasks);
    FirstFreeSeesSlots(r.tasks, s.tasks);
    if k < MAX_TASKS { UpdatesCommute(s.tasks, k, Some(Task(entry, Ready)), i, r.tasks[i]); }
  }

  /** It treats both alike. */
  lemma CallTreatsAlike(s: State, op: Op, i: nat, until: U64)
    requires WellFormed(s) && SleepsUntil(s, i, until) && !IsTick(op) && op != Cancel(IdOf(s, i))
    requires SleepsUntil(Apply(s, op), i, until)
    ensures Apply(SetState(s, i, Ready), op) == SetState(Apply(s, op), i, Ready)
  {
    var r := SetState(s, i, Ready);
    if op.Spawn? {
      SpawnTreatsAlike(s, op.entry, i, until);
    } else if op.id.index < MAX_TASKS && op.id.index != i {
      UpdatesCommute(s.tasks, op.id.index, Apply(s, op).tasks[op.id.index], i, r.tasks[i]);
    }
  }

  lemma {:induction false} SleeperDispatchedAlike(s: State, ops: seq<Op>, i: nat, until: U64)
    requires WellFormed(s) && SleepsUntil(s, i, until) && TicksFrom(ops, until) && Spares(ops, IdOf(s, i))
    ensures Dispatches(SetState(s, i, Ready), ops) == Dispatches(s, ops)
    decreases |ops|
  {
    if ops != [] {
      var r := SetState(s, i, Ready);
      assert ops[0] in ops && forall o :: o in ops[1..] ==> o in ops;
      DispatchesFirst(s, ops);
      if IsTick(ops[0]) {
        TickForgetsSleep(s, ops[0], i, until);
      } else {
        CallKeepsSleep(s, ops[0], i, until);
        CallTreatsAlike(s, ops[0], i, until);
        SleeperDispatchedAlike(Apply(s, ops[0]), ops[1..], i, until);
      }
      DispatchesFirst(r, ops);
    }
  }

  /** A sleeper whose deadline every tick has passed waits no longer than a ready task. */
  lemma ExpiredSleeperBypass(s: State, ops: seq<Op>, i: nat, until: U64) returns (k: nat)
    requires WellFormed(s) && SleepsUntil(s, i, until) && TicksFrom(ops, until) && Spares(ops, IdOf(s, i))
    requires RunCount(ops) > Distance(s.next, i)
    ensures k <= Distance(s.next, i) < MAX_TASKS && k < |Dispatches(s, ops)| && Dispatches(s, ops)[k] == i
    ensures forall a, b :: 0 <= a < b <= k ==> Dispatches(s, ops)[a] != Dispatches(s, ops)[b]
  {
    var r := SetState(s, i, Ready);
    SleeperDispatchedAlike(s, ops, i, until);
    k := BoundedBypass(r, ops, i);
  }

  // ------------------------------------------------------------------- safety

  /** The scheduler sees no tick at or past `until`. */
  predicate TicksBefore(ops: seq<Op>, until: U64) {
    forall op :: op in ops && IsTick(op) ==> op.now < until
  }

  /** Nothing in `ops` can make a task in this state runnable: no tick reaches its deadline, nobody wakes it. */
  predicate Held(st: TaskState, ops: seq<Op>, id: TaskId) {
    match st
    case Finished | Cancelled => true
    case Sleeping(until) => TicksBefore(ops, until)
    case Blocked => Wake(id) !in ops
    case _ => false
  }

  predicate NoReap(ops: seq<Op>, id: TaskId) { Reap(id) !in ops }

  /** This call cannot make such a task runnable. */
  predicate HeldBy(st: TaskState, op: Op, id: TaskId) {
    match st
    case Finished | Cancelled => true
    case Sleeping(until) => IsTick(op) ==> op.now < until
    case Blocked => op != Wake(id)
    case _ => false
  }

  lemma HeldCall(s: State, op: Op, i: nat)
    requires WellFormed(s) && i < MAX_TASKS && s.tasks[i].Some?
    requires HeldBy(s.tasks[i].value.state, op, IdOf(s, i)) && op != Reap(IdOf(s, i))
    ensures Dispatched(s, op) != Some(i)
    ensures var s' := Apply(s, op);
      && |s'.tasks| == MAX_TASKS && s'.tasks[i].Some? && |s'.generations| == MAX_TASKS && IdOf(s', i) == IdOf(s, i)
      && (s'.tasks[i].value.state == s.tasks[i].value.state || s'.tasks[i].value.state == Cancelled)
  {
  }

  lemma HeldStep(s: State, ops: seq<Op>, i: nat)
    requires WellFormed(s) && i < MAX_TASKS && s.tasks[i].Some? && ops != []
    requires Held(s.tasks[i].value.state, ops, IdOf(s, i)) && NoReap(ops, IdOf(s, i))
    ensures Dispatched(s, ops[0]) != Some(i)
    ensures var s' := Apply(s, ops[0]);
      s'.tasks[i].Some? && Held(s'.tasks[i].value.state, ops[1..], IdOf(s', i)) && NoReap(ops[1..], IdOf(s', i))
  {
    assert ops[0] in ops && forall o :: o in ops[1..] ==> o in ops;
    HeldCall(s, ops[0], i);
  }

  /** A sleeping task does not run before a tick reaches its deadline, a blocked one not before it is woken,
      a finished or cancelled one never again, whatever else is called, until its slot is reaped. */
  lemma {:induction false} HeldTaskIsNotDispatched(s: State, ops: seq<Op>, i: nat)
    requires WellFormed(s) && i < MAX_TASKS && s.tasks[i].Some?
    requires Held(s.tasks[i].value.state, ops, IdOf(s, i)) && NoReap(ops, IdOf(s, i))
    ensures i !in Dispatches(s, ops)
    decreases |ops|
  {
    if ops != [] {
      HeldStep(s, ops, i);
      ApplyKeepsForm(s, ops[0]);
      HeldTaskIsNotDispatched(Apply(s, ops[0]), ops[1..], i);
    }
  }

  /** A task that asks to sleep until a tick still to come is not dispatched again before the scheduler has seen it. */
  lemma SleepIsRespected(s: State, now: U64, until: U64, ops: seq<Op>)
    requires WellFormed(s) && now < until
    requires Dispatched(s, RunNext(now, SleepUntil(until))).Some?
    requires TicksBefore(ops, until)
    requires NoReap(ops, IdOf(s, Dispatched(s, RunNext(now, SleepUntil(until))).value))
    ensures var op := RunNext(now, SleepUntil(until)); Dispatched(s, op).value !in Dispatches(Apply(s, op), ops)
  {
    var op := RunNext(now, SleepUntil(until));
    ApplyKeepsForm(s, op);
    HeldTaskIsNotDispatched(Apply(s, op), ops, Dispatched(s, op).value);
  }

  // ------------------------------------------------------- what an answer leads to

  predicate InState(s: State, i: nat, st: TaskState) {
    i < |s.tasks| && s.tasks[i].Some? && s.tasks[i].value.state == st
  }

  /** A sleeping or blocked task that nothing releases and nobody cancels stays as it is, and does not run. */
  lemma {:induction false} WaitingStays(s: State, ops: seq<Op>, i: nat)
    requires WellFormed(s) && i < MAX_TASKS && s.tasks[i].Some? && !Terminated(s.tasks[i].value.state)
    requires Held(s.tasks[i].value.state, ops, IdOf(s, i)) && Spares(ops, IdOf(s, i))
    ensures WellFormed(After(s, ops))
    ensures After(s, ops).tasks[i] == s.tasks[i] && IdOf(After(s, ops), i) == IdOf(s, i) && i !in Dispatches(s, ops)
    decreases |ops|
  {
    RunKeepsForm(s, ops);
    if ops != [] {
      assert ops[0] in ops && forall o :: o in ops[1..] ==> o in ops;
      WaitingCall(s, ops[0], i);
      ApplyKeepsForm(s, ops[0]);
      WaitingStays(Apply(s, ops[0]), ops[1..], i);
    }
  }

  lemma WaitingCall(s: State, op: Op, i: nat)
    requires WellFormed(s) && i < MAX_TASKS && s.tasks[i].Some? && !Terminated(s.tasks[i].value.state)
    requires HeldBy(s.tasks[i].value.state, op, IdOf(s, i)) && op != Cancel(IdOf(s, i))
    ensures Dispatched(s, op) != Some(i)
    ensures var s' := Apply(s, op);
      |s'.tasks| == |s'.generations| == MAX_TASKS && s'.tasks[i] == s.tasks[i] && IdOf(s', i) == IdOf(s, i)
  {
  }

  /** Reaping this identifier empties its slot. */
  ghost predicate EmptiedBy(s: State, id: TaskId)
    requires WellFormed(s) && id.index < MAX_TASKS
  {
    ApplyKeepsForm(s, Reap(id));
    Apply(s, Reap(id)).tasks[id.index] == None
  }

  /** A task that has ended stays in its slot, ended, until it is reaped, and reaping it empties the slot. */
  lemma {:induction false} EndedStays(s: State, ops: seq<Op>, i: nat)
    requires WellFormed(s) && i < MAX_TASKS && s.tasks[i].Some? && Terminated(s.tasks[i].value.state)
    requires NoReap(ops, IdOf(s, i))
    ensures WellFormed(After(s, ops))
    ensures After(s, ops).tasks[i] == s.tasks[i] && IdOf(After(s, ops), i) == IdOf(s, i) && i !in Dispatches(s, ops)
    ensures EmptiedBy(After(s, ops), IdOf(s, i))
    decreases |ops|
  {
    RunKeepsForm(s, ops);
    if ops != [] {
      assert ops[0] in ops && forall o :: o in ops[1..] ==> o in ops;
      EndedCall(s, ops[0], i);
      ApplyKeepsForm(s, ops[0]);
      EndedStays(Apply(s, ops[0]), ops[1..], i);
    }
  }

  lemma EndedCall(s: State, op: Op, i: nat)
    requires WellFormed(s) && i < MAX_TASKS && s.tasks[i].Some? && Terminated(s.tasks[i].value.state)
    requires op != Reap(IdOf(s, i))
    ensures Dispatched(s, op) != Some(i)
    ensures var s' := Apply(s, op);
      |s'.tasks| == |s'.generations| == MAX_TASKS && s'.tasks[i] == s.tasks[i] && IdOf(s', i) == IdOf(s, i)
  {
  }

  /** After `Exit` a task never runs again, whoever wakes or cancels it, and a reap empties its slot. */
  lemma ExitEnds(s: State, now: U64, ops: seq<Op>, i: nat)
    requires WellFormed(s) && Dispatched(s, RunNext(now, Exit)) == Some(i) && NoReap(ops, IdOf(s, i))
    ensures var t := Apply(s, RunNext(now, Exit));
      && InState(t, i, Finished) && WellFormed(t) && WellFormed(After(t, ops)) && i !in Dispatches(t, ops)
      && EmptiedBy(After(t, ops), IdOf(s, i))
  {
    ApplyKeepsForm(s, RunNext(now, Exit));
    EndedStays(Apply(s, RunNext(now, Exit)), ops, i);
  }

  /** A cancelled task never runs again either. */
  lemma CancelEnds(s: State, ops: seq<Op>, i: nat)
    requires WellFormed(s) && i < MAX_TASKS && s.tasks[i].Some? && NoReap(ops, IdOf(s, i))
    ensures var t := Apply(s, Cancel(IdOf(s, i)));
      && InState(t, i, if Terminated(s.tasks[i].value.state) then s.tasks[i].value.state else Cancelled)
      && WellFormed(t) && WellFormed(After(t, ops)) && i !in Dispatches(t, ops)
      && EmptiedBy(After(t, ops), IdOf(s, i))
  {
    ApplyKeepsForm(s, Cancel(IdOf(s, i)));
    EndedStays(Apply(s, Cancel(IdOf(s, i))), ops, i);
  }

  /** After `Block` a task that nobody cancels does not run before it is woken; one wake makes it ready, and it then
      waits no longer than any other ready task. */
  lemma BlockWaitsForWake(s: State, now: U64, ops: seq<Op>, later: seq<Op>, i: nat) returns (k: nat)
    requires WellFormed(s) && Dispatched(s, RunNext(now, Block)) == Some(i)
    requires Wake(IdOf(s, i)) !in ops && Spares(ops, IdOf(s, i)) && Spares(later, IdOf(s, i))
    ensures var t := Apply(s, RunNext(now, Block));
      && InState(t, i, Blocked) && WellFormed(t) && WellFormed(After(t, ops)) && i !in Dispatches(t, ops)
      && var w := Apply(After(t, ops), Wake(IdOf(s, i)));
         && WellFormed(w) && IsReady(w.tasks[i])
         && (RunCount(later) > Distance(w.next, i) ==>
               k <= Distance(w.next, i) && k < |Dispatches(w, later)| && Dispatches(w, later)[k] == i)
  {
    var t := Apply(s, RunNext(now, Block));
    ApplyKeepsForm(s, RunNext(now, Block));
    WaitingStays(t, ops, i);
    var w := Apply(After(t, ops), Wake(IdOf(s, i)));
    ApplyKeepsForm(After(t, ops), Wake(IdOf(s, i)));
    k := 0;
    if RunCount(later) > Distance(w.next, i) { k := BoundedBypass(w, later, i); }
  }

  /** A task that yields, or asks for a deadline already reached, runs again after at most all the others, unless it is
      cancelled. */
  lemma YieldRunsAgain(s: State, now: U64, answer: TaskAction, ops: seq<Op>, i: nat) returns (k: nat)
    requires WellFormed(s) && Dispatched(s, RunNext(now, answer)) == Some(i)
    requires answer == Yield || (answer.SleepUntil? && answer.until <= now)
    requires Spares(ops, IdOf(s, i)) && RunCount(ops) >= MAX_TASKS
    ensures var t := Apply(s, RunNext(now, answer));
      WellFormed(t) && IsReady(t.tasks[i]) && k < MAX_TASKS && k < |Dispatches(t, ops)| && Dispatches(t, ops)[k] == i
  {
    var t := Apply(s, RunNext(now, answer));
    ApplyKeepsForm(s, RunNext(now, answer));
    SlotAtDistance(t.next, i);
    k := BoundedBypass(t, ops, i);
  }

  /** After `SleepUntil` with a deadline still to come, a task that nobody cancels sleeps through every tick before it;
      the first tick at or past it makes the task ready or runs it at once. */
  lemma SleepEndsInTime(s: State, now: U64, until: U64, ops: seq<Op>, tick: Op, i: nat)
    requires WellFormed(s) && now < until && Dispatched(s, RunNext(now, SleepUntil(until))) == Some(i)
    requires TicksBefore(ops, until) && Spares(ops, IdOf(s, i)) && IsTick(tick) && tick.now >= until
    ensures var t := Apply(s, RunNext(now, SleepUntil(until)));
      && InState(t, i, Sleeping(until)) && WellFormed(t) && WellFormed(After(t, ops)) && i !in Dispatches(t, ops)
      && (Dispatched(After(t, ops), tick) == Some(i) || IsReady(Apply(After(t, ops), tick).tasks[i]))
  {
    var t := Apply(s, RunNext(now, SleepUntil(until)));
    ApplyKeepsForm(s, RunNext(now, SleepUntil(until)));
    WaitingStays(t, ops, i);
  }

  /** A call touches one slot at most, apart from waking sleepers whose deadline it has reached: the slot an identifier
      names, the free slot a spawn takes, or the slot dispatched. */
  lemma OtherSlotsStay(s: State, op: Op, j: nat)
    requires WellFormed(s) && j < MAX_TASKS && Dispatched(s, op) != Some(j)
    requires (op.Wake? || op.Cancel? || op.Reap?) ==> op.id != IdOf(s, j)
    requires op.Spawn? ==> s.tasks[j].Some? || exists k :: 0 <= k < j && s.tasks[k].None?
    ensures var t := Apply(s, op);
      && |t.tasks| == |t.generations| == MAX_TASKS && t.generations[j] == s.generations[j]
      && t.tasks[j] == if IsTick(op) && s.tasks[j].Some? && s.tasks[j].value.state.Sleeping?
                          && s.tasks[j].value.state.until <= op.now
                       then Some(s.tasks[j].value.(state := Ready)) else s.tasks[j]
  {
  }

  lemma FirstFreeIs(tasks: Tasks, i: nat)
    requires i <= |tasks| && (forall j :: 0 <= j < i ==> tasks[j].Some?) && (i < |tasks| ==> tasks[i].None?)
    ensures i == FirstFree(tasks)
  {
    var k := FirstFree(tasks);
  }

  /** A call that dispatches nothing leaves no ready task behind. */
  lemma NothingReady(s: State, now: U64, answer: TaskAction)
    requires WellFormed(s) && Dispatched(s, RunNext(now, answer)).None?
    ensures forall i :: 0 <= i < MAX_TASKS ==> !IsReady(Apply(s, RunNext(now, answer)).tasks[i])
  {
    forall i | 0 <= i < MAX_TASKS ensures !IsReady(Apply(s, RunNext(now, answer)).tasks[i]) {
      SlotAtDistance(s.next, i);
    }
  }

  // ---------------------------------------------------------------- batches

  /** The calls `run_ready` makes when the tasks it dispatches answer `answers` in turn. */
  function Batch(now: U64, answers: seq<TaskAction>): seq<Op> {
    seq(|answers|, i requires 0 <= i < |answers| => RunNext(now, answers[i]))
  }

  lemma {:induction false} AfterConcat(s: State, xs: seq<Op>, ys: seq<Op>)
    requires WellFormed(s)
    ensures WellFormed(After(s, xs))
    ensures After(s, xs + ys) == After(After(s, xs), ys)
    decreases |xs|
  {
    RunKeepsForm(s, xs);
    if xs == [] {
      assert xs + ys == ys;
    } else {
      ApplyKeepsForm(s, xs[0]);
      assert (xs + ys)[1..] == xs[1..] + ys;
      AfterConcat(Apply(s, xs[0]), xs[1..], ys);
    }
  }

  lemma BatchNext(s: State, now: U64, answers: seq<TaskAction>, n: nat)
    requires WellFormed(s) && n < |answers|
    ensures WellFormed(After(s, Batch(now, answers[..n])))
    ensures After(s, Batch(now, answers[..n + 1]))
         == Apply(After(s, Batch(now, answers[..n])), RunNext(now, answers[n]))
  {
    var op := RunNext(now, answers[n]);
    assert Batch(now, answers[..n + 1]) == Batch(now, answers[..n]) + [op];
    AfterConcat(s, Batch(now, answers[..n]), [op]);
    var t := After(s, Batch(now, answers[..n]));
    assert After(t, [op]) == After(Apply(t, op), []);
  }

  // ------------------------------------------------------------------- statistics

  datatype Group = Present | InReady | InSleeping | InBlocked | InRunning | InFinished | InCancelled

  predicate Belongs(slot: Option<Task>, group: Group) {
    slot.Some? &&
    match group
    case Present => true
    case InReady => slot.value.state.Ready?
    case InSleeping => slot.value.state.Sleeping?
    case InBlocked => slot.value.state.Blocked?
    case InRunning => slot.value.state.Running?
    case InFinished => slot.value.state.Finished?
    case InCancelled => slot.value.state.Cancelled?
  }

  function Tally(tasks: Tasks, group: Group): nat {
    if tasks == [] then 0 else Tally(tasks[..|tasks| - 1], group) + if Belongs(tasks[|tasks| - 1], group) then 1 else 0
  }

  datatype SchedulerStats = SchedulerStats(
    taskCount: nat, ready: nat, sleeping: nat, blocked: nat, running: nat, finished: nat, cancelled: nat)

  function StatsOf(tasks: Tasks): SchedulerStats {
    SchedulerStats(Tally(tasks, Present), Tally(tasks, InReady), Tally(tasks, InSleeping), Tally(tasks, InBlocked),
                   Tally(tasks, InRunning), Tally(tasks, InFinished), Tally(tasks, InCancelled))
  }

  /** The counters with one more slot looked at. */
  function Counted(stats: SchedulerStats, slot: Option<Task>): SchedulerStats {
    if slot.None? then stats
    else
      var more := stats.(taskCount := stats.taskCount + 1);
      match slot.value.state
      case Ready => more.(ready := more.ready + 1)
      case Sleeping(_) => more.(sleeping := more.sleeping + 1)
      case Blocked => more.(blocked := more.blocked + 1)
      case Running => more.(running := more.running + 1)
      case Finished => more.(finished := more.finished + 1)
      case Cancelled => more.(cancelled := more.cancelled + 1)
  }

  /** Every task is counted in exactly one state. */
  lemma {:induction false} StatsAddUp(tasks: Tasks)
    ensures var t := StatsOf(tasks);
      t.taskCount == t.ready + t.sleeping + t.blocked + t.running + t.finished + t.cancelled
  {
    if tasks != [] { StatsAddUp(tasks[..|tasks| - 1]); }
  }

  lemma {:induction false} TallyZero(tasks: Tasks, group: Group)
    ensures Tally(tasks, group) == 0 <==> forall i :: 0 <= i < |tasks| ==> !Belongs(tasks[i], group)
  {
    if tasks != [] { TallyZero(tasks[..|tasks| - 1], group); }
  }

  /** The slots whose task is in such a state. */
  ghost function Holding(tasks: Tasks, p: TaskState -> bool): set<nat> {
    set i: nat | i < |tasks| && tasks[i].Some? && p(tasks[i].value.state)
  }

  /** A tally is the number of slots that belong. */
  lemma {:induction false} TallyCounts(tasks: Tasks, group: Group, p: TaskState -> bool)
    requires forall st: TaskState, e :: Belongs(Some(Task(e, st)), group) <==> p(st)
    ensures Tally(tasks, group) == |Holding(tasks, p)|
  {
    if tasks == [] {
      assert Holding(tasks, p) == {};
    } else {
      TallyCounts(tasks[..|tasks| - 1], group, p);
      HoldingNext(tasks, p);
      var slot := tasks[|tasks| - 1];
      if slot.Some? { assert slot == Some(Task(slot.value.entry, slot.value.state)); }
    }
  }

  lemma HoldingNext(tasks: Tasks, p: TaskState -> bool)
    requires tasks != []
    ensures var n, front := |tasks| - 1, tasks[..|tasks| - 1];
      |Holding(tasks, p)| == |Holding(front, p)| + if tasks[n].Some? && p(tasks[n].value.state) then 1 else 0
  {
    var n, front := |tasks| - 1, tasks[..|tasks| - 1];
    if tasks[n].Some? && p(tasks[n].value.state) {
      assert Holding(tasks, p) == Holding(front, p) + {n};
    } else {
      assert Holding(tasks, p) == Holding(front, p);
    }
  }

  lemma {:induction false} TallyUpdate(tasks: Tasks, i: nat, slot: Option<Task>, group: Group)
    requires i < |tasks|
    ensures Tally(tasks[i := slot], group)
         == Tally(tasks, group) - (if Belongs(tasks[i], group) then 1 else 0) + if Belongs(slot, group) then 1 else 0
  {
    var front := tasks[..|tasks| - 1];
    if i < |front| {
      TallyUpdate(front, i, slot, group);
      assert tasks[i := slot][..|tasks| - 1] == front[i := slot];
    } else {
      assert tasks[i := slot][..|tasks| - 1] == front;
    }
  }

  lemma {:induction false} TallyWoken(tasks: Tasks, now: U64)
    ensures Tally(WakeExpired(tasks, now), Present) == Tally(tasks, Present)
  {
    if tasks != [] {
      TallyWoken(tasks[..|tasks| - 1], now);
      assert WakeExpired(tasks, now)[..|tasks| - 1] == WakeExpired(tasks[..|tasks| - 1], now);
    }
  }

  /** How many tasks a call adds: one for a spawn that finds a slot, one less for a reap, none for anything else. */
  function Added(s: State, op: Op): int
    requires |s.tasks| == |s.generations| == MAX_TASKS && s.next < MAX_TASKS
  {
    match op
    case Spawn(_) => if FirstFree(s.tasks) < MAX_TASKS then 1 else 0
    case Reap(id) => if Live(s, id) && Terminated(s.tasks[id.index].value.state) then -1 else 0
    case _ => 0
  }

  lemma TasksAreConserved(s: State, op: Op)
    requires WellFormed(s)
    ensures Tally(Apply(s, op).tasks, Present) == Tally(s.tasks, Present) + Added(s, op)
  {
    match op
    case Spawn(entry) =>
      var k := FirstFree(s.tasks);
      if k < MAX_TASKS { TallyUpdate(s.tasks, k, Some(Task(entry, Ready)), Present); }
    case Wake(id) =>
      if Live(s, id) { TallyUpdate(s.tasks, id.index, Apply(s, op).tasks[id.index], Present); }
    case Cancel(id) =>
      if Live(s, id) { TallyUpdate(s.tasks, id.index, Apply(s, op).tasks[id.index], Present); }
    case Reap(id) =>
      if Live(s, id) { TallyUpdate(s.tasks, id.index, Apply(s, op).tasks[id.index], Present); }
    case Expire(now) =>
      TallyWoken(s.tasks, now);
    case RunNext(now, answer) =>
      TallyWoken(s.tasks, now);
      var woken := WakeExpired(s.tasks, now);
      if i :| Dispatched(s, op) == Some(i) { TallyUpdate(woken, i, Apply(s, op).tasks[i], Present); }
  }

  lemma NoneReady(s: State, now: U64, answer: TaskAction)
    requires WellFormed(s)
    ensures (forall i :: 0 <= i < MAX_TASKS ==> !IsReady(WakeExpired(s.tasks, now)[i]))
       <==> Dispatched(s, RunNext(now, answer)).None?
  {
    if Dispatched(s, RunNext(now, answer)).None? {
      forall i | 0 <= i < MAX_TASKS ensures !IsReady(WakeExpired(s.tasks, now)[i]) { SlotAtDistance(s.next, i); }
    }
  }

  /** The ready count is zero exactly when there is nothing to dispatch. */
  lemma ReadyCountDecides(s: State, now: U64, answer: TaskAction)
    requires WellFormed(s)
    ensures StatsOf(WakeExpired(s.tasks, now)).ready == 0 <==> Dispatched(s, RunNext(now, answer)).None?
    ensures StatsOf(s.tasks).running == 0
  {
    var woken := WakeExpired(s.tasks, now);
    assert Tally(woken, InReady) == 0 <==> forall i :: 0 <= i < MAX_TASKS ==> !IsReady(woken[i]) by {
      TallyZero(woken, InReady);
    }
    assert Tally(s.tasks, InRunning) == 0 by { TallyZero(s.tasks, InRunning); }
    NoneReady(s, now, answer);
  }

  // --------------------------------------------------------------- the scheduler

  class Scheduler {
    const tasks: array<Option<Task>>
    const generations: array<U32>
    var current: Option<TaskId>
    var next: nat

    ghost function View(): State
      reads this, tasks, generations
    {
      State(tasks[..], generations[..], next)
    }

    /** Between calls no task is running and none is current. */
    ghost predicate Valid()
      reads this, tasks, generations
    {
      WellFormed(View()) && current == None
    }

    constructor ()
      ensures Valid() && fresh(tasks) && fresh(generations)
      ensures forall i :: 0 <= i < MAX_TASKS ==> View().tasks[i] == None && View().generations[i] == 0
    {
      tasks := new Option<Task>[MAX_TASKS](_ => None);
      generations := new U32[MAX_TASKS](_ => 0);
      current, next := None, 0;
    }

    method SpawnTask(entry: TaskEntry) returns (r: Result<TaskId, SchedulerError>)
      requires Valid()
      modifies tasks, generations
      ensures Valid() && View() == Apply(old(View()), Spawn(entry))
      ensures r.Err? <==> forall i :: 0 <= i < MAX_TASKS ==> old(tasks[i]).Some?
      ensures r.Err? ==> r.error == NoTaskSlots
      ensures r.Ok? ==> Live(View(), r.value) && r.value.generation > 0 && old(tasks[r.value.index]) == None
                        && tasks[r.value.index] == Some(Task(entry, Ready))
    {
      var index := 0;
      while index < MAX_TASKS && tasks[index].Some?
        invariant index <= MAX_TASKS
        invariant forall i :: 0 <= i < index ==> tasks[i].Some?
      {
        index := index + 1;
      }
      FirstFreeIs(tasks[..], index);
      if index == MAX_TASKS {
        return Err(NoTaskSlots);
      }
      tasks[index] := Some(Task(entry, Ready));
      generations[index] := NextGeneration(generations[index]);
      return Ok(TaskId(index, generations[index]));
    }

    /** The task an identifier stands for, `None` when its slot has been reaped; an error for a stale identifier. */
    method ValidTask(id: TaskId) returns (r: Result<Option<Task>, SchedulerError>)
      requires Valid()
      ensures Live(View(), id) <==> r.Ok? && r.value.Some?
      ensures r.Ok? && r.value.Some? ==> r.value == View().tasks[id.index]
      ensures r.Err? ==> r.error == InvalidTask
    {
      if id.index >= MAX_TASKS || generations[id.index] != id.generation {
        return Err(InvalidTask);
      }
      return Ok(tasks[id.index]);
    }

    method WakeTask(id: TaskId) returns (r: Result<(), SchedulerError>)
      requires Valid()
      modifies tasks
      ensures Valid() && View() == Apply(old(View()), Wake(id))
      ensures r == if Live(old(View()), id) then Ok(()) else Err(InvalidTask)
    {
      var found := ValidTask(id);
      if found.Err? || found.value.None? {
        return Err(InvalidTask);
      }
      var task := found.value.value;
      if task.state == Blocked {
        tasks[id.index] := Some(task.(state := Ready));
      }
      return Ok(());
    }

    method CancelTask(id: TaskId) returns (r: Result<(), SchedulerError>)
      requires Valid()
      modifies tasks
      ensures Valid() && View() == Apply(old(View()), Cancel(id))
      ensures r == if Live(old(View()), id) then Ok(()) else Err(InvalidTask)
    {
      var found := ValidTask(id);
      if found.Err? || found.value.None? {
        return Err(InvalidTask);
      }
      var task := found.value.value;
      if !Terminated(task.state) {
        tasks[id.index] := Some(task.(state := Cancelled));
      }
      return Ok(());
    }

    method ReapTask(id: TaskId) returns (r: Result<(), SchedulerError>)
      requires Valid()
      modifies tasks
      ensures Valid() && View() == Apply(old(View()), Reap(id))
      ensures r == if !Live(old(View()), id) then Err(InvalidTask)
                   else if !Terminated(old(View()).tasks[id.index].value.state) then Err(TaskNotFinished) else Ok(())
      ensures r.Ok? ==> !Live(View(), id)
    {
      var found := ValidTask(id);
      if found.Err? || found.value.None? {
        return Err(InvalidTask);
      }
      if !Terminated(found.value.value.state) {
        return Err(TaskNotFinished);
      }
      tasks[id.index] := None;
      return Ok(());
    }

    method WakeAllExpired(now: U64)
      requires Valid()
      modifies tasks
      ensures Valid() && View() == Apply(old(View()), Expire(now))
    {
      for i := 0 to MAX_TASKS
        invariant forall j :: 0 <= j < i ==> tasks[j] == WakeSlot(old(tasks[j]), now)
        invariant forall j :: i <= j < MAX_TASKS ==> tasks[j] == old(tasks[j])
      {
        if tasks[i].Some? && tasks[i].value.state.Sleeping? && now >= tasks[i].value.state.until {
          tasks[i] := Some(tasks[i].value.(state := Ready));
        }
      }
    }

    method FindNextReady() returns (r: Option<nat>)
      requires Valid()
      ensures r == FindReady(tasks[..], next, 0)
    {
      for offset := 0 to MAX_TASKS
        invariant FindReady(tasks[..], next, 0) == FindReady(tasks[..], next, offset)
      {
        var index := (next + offset) % MAX_TASKS;
        if IsReady(tasks[index]) {
          return Some(index);
        }
      }
      return None;
    }

    method Stats() returns (stats: SchedulerStats)
      requires Valid()
      ensures stats == StatsOf(tasks[..])
      ensures stats.taskCount == |Holding(tasks[..], _ => true)|
      ensures stats.ready == |Holding(tasks[..], (st: TaskState) => st.Ready?)|
      ensures stats.sleeping == |Holding(tasks[..], (st: TaskState) => st.Sleeping?)|
      ensures stats.blocked == |Holding(tasks[..], (st: TaskState) => st.Blocked?)|
      ensures stats.running == |Holding(tasks[..], (st: TaskState) => st.Running?)|
      ensures stats.finished == |Holding(tasks[..], (st: TaskState) => st.Finished?)|
      ensures stats.cancelled == |Holding(tasks[..], (st: TaskState) => st.Cancelled?)|
    {
      stats := SchedulerStats(0, 0, 0, 0, 0, 0, 0);
      for i := 0 to MAX_TASKS
        invariant stats == StatsOf(tasks[..i])
      {
        assert tasks[..i + 1][..i] == tasks[..i];
        stats := Counted(stats, tasks[i]);
      }
      assert tasks[..MAX_TASKS] == tasks[..];
      TallyCounts(tasks[..], Present, _ => true);
      TallyCounts(tasks[..], InReady, (st: TaskState) => st.Ready?);
      TallyCounts(tasks[..], InSleeping, (st: TaskState) => st.Sleeping?);
      TallyCounts(tasks[..], InBlocked, (st: TaskState) => st.Blocked?);
      TallyCounts(tasks[..], InRunning, (st: TaskState) => st.Running?);
      TallyCounts(tasks[..], InFinished, (st: TaskState) => st.Finished?);
      TallyCounts(tasks[..], InCancelled, (st: TaskState) => st.Cancelled?);
    }

    /** Runs at most one ready task; `answer` is the action its body returns. */
    method RunOne(now: U64, answer: TaskAction) returns (r: Option<TaskId>)
      requires Valid()
      modifies this, tasks
      ensures Valid() && View() == Apply(old(View()), RunNext(now, answer))
      ensures r.Some? <==> Dispatched(old(View()), RunNext(now, answer)).Some?
      ensures r.Some? ==> Dispatched(old(View()), RunNext(now, answer)) == Some(r.value.index) && Live(View(), r.value)
    {
      ApplyKeepsForm(View(), RunNext(now, answer));
      WakeAllExpired(now);
      var found := FindNextReady();
      if found.None? {
        return None;
      }
      var id := TaskId(found.value, generations[found.value]);
      RunTask(id, now, answer);
      return Some(id);
    }

    /** Runs the ready task named by `id` and moves the cursor past it. */
    method RunTask(id: TaskId, now: U64, answer: TaskAction)
      requires Valid() && id.index < MAX_TASKS && IsReady(tasks[id.index]) && id.generation == generations[id.index]
      modifies this, tasks
      ensures Valid() && Live(View(), id)
      ensures View() == SetState(old(View()), id.index, Outcome(answer, now)).(next := (id.index + 1) % MAX_TASKS)
    {
      ghost var s := View();
      current := Some(id);
      tasks[id.index] := Some(tasks[id.index].value.(state := Running));
      // The body of the task runs here, with the scheduler locked against it.
      tasks[id.index] := Some(tasks[id.index].value.(state := Outcome(answer, now)));
      current := None;
      next := (id.index + 1) % MAX_TASKS;
      assert tasks[..] == SetState(s, id.index, Outcome(answer, now)).tasks;
    }

    /** Runs ready tasks until none is left or the budget is spent. */
    method RunReady(now: U64, budget: nat, answers: seq<TaskAction>) returns (dispatched: nat)
      requires Valid() && |answers| >= budget
      modifies this, tasks
      ensures Valid() && dispatched <= budget
      ensures View() == After(old(View()), Batch(now, answers[..Min(budget, dispatched + 1)]))
      ensures dispatched < budget ==> forall i :: 0 <= i < MAX_TASKS ==> !IsReady(View().tasks[i])
    {
      dispatched := 0;
      ghost var s := View();
      while dispatched < budget
        invariant Valid() && dispatched <= budget
        invariant View() == After(s, Batch(now, answers[..dispatched]))
      {
        ghost var before := View();
        var ran := RunOne(now, answers[dispatched]);
        assert View() == After(s, Batch(now, answers[..dispatched + 1])) by { BatchNext(s, now, answers, dispatched); }
        if ran.None? {
          NothingReady(before, now, answers[dispatched]);
          return;
        }
        dispatched := dispatched + 1;
      }
    }
  }
}

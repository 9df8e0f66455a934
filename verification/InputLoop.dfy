/** Interrupt handlers and the shell loop: two bounded queues, and going to sleep without losing a wake-up. */
module InputLoop {
  import opened Machine
  import opened Framebuffers

  const RB_SIZE: nat := 256
  const KEYBOARD_ACK: Byte := 0xfa
  const KEYBOARD_RESEND: Byte := 0xfe
  const REPORT_INTERVAL: nat := 100

  // ------------------------------------------------------------------- the queues

  /** What a queue holds and its drop counter, with the history of what went through it. */
  datatype Queue = Queue(
    held: seq<Byte>, dropped: nat, pushed: nat, accepted: seq<Byte>, popped: seq<Byte>, reported: nat)

  const EMPTY_QUEUE := Queue([], 0, 0, [], [], 0)

  function Pushed(q: Queue, b: Byte): Queue {
    if |q.held| < RB_SIZE then q.(held := q.held + [b], pushed := q.pushed + 1, accepted := q.accepted + [b])
    else q.(dropped := q.dropped + 1, pushed := q.pushed + 1)
  }

  function Popped(q: Queue): Queue {
    if q.held == [] then q else q.(held := q.held[1..], popped := q.popped + [q.held[0]])
  }

  /** The drop counter is swapped for zero and its value printed. */
  function Reported(q: Queue): Queue { q.(dropped := 0, reported := q.reported + q.dropped) }

  /** Popped bytes are a prefix of the accepted ones, and every byte pushed is popped, held or counted as dropped. */
  ghost predicate Accounted(q: Queue) {
    && |q.held| <= RB_SIZE && q.accepted == q.popped + q.held
    && q.pushed == |q.popped| + |q.held| + q.reported + q.dropped
  }

  lemma PushAccounted(q: Queue, b: Byte)
    requires Accounted(q)
    ensures Accounted(Pushed(q, b))
  {
    assert q.popped + (q.held + [b]) == q.popped + q.held + [b];
  }

  lemma PopAccounted(q: Queue)
    requires Accounted(q)
    ensures Accounted(Popped(q))
  {
    if q.held != [] { assert (q.popped + [q.held[0]]) + q.held[1..] == q.popped + q.held; }
  }

  /** A device's queue as the handler and the loop share it. */
  class InputQueue {
    var held: seq<Byte>
    var dropped: nat
    ghost var pushed: nat
    ghost var accepted: seq<Byte>
    ghost var popped: seq<Byte>
    ghost var reported: nat

    ghost function State(): Queue
      reads this
    {
      Queue(held, dropped, pushed, accepted, popped, reported)
    }

    constructor ()
      ensures State() == EMPTY_QUEUE
    {
      held, dropped := [], 0;
      pushed, accepted, popped, reported := 0, [], [], 0;
    }

    method Push(b: Byte)
      requires Accounted(State())
      modifies this
      ensures State() == Pushed(old(State()), b) && Accounted(State())
      ensures held == (if |old(held)| < RB_SIZE then old(held) + [b] else old(held))
      ensures dropped == (if |old(held)| < RB_SIZE then old(dropped) else old(dropped) + 1)
    {
      PushAccounted(State(), b);
      pushed := pushed + 1;
      if |held| < RB_SIZE {
        held, accepted := held + [b], accepted + [b];
      } else {
        dropped := dropped + 1;
      }
    }

    method Pop() returns (b: Option<Byte>)
      requires Accounted(State())
      modifies this
      ensures State() == Popped(old(State())) && Accounted(State())
      ensures b == if old(held) == [] then None else Some(old(held)[0])
      ensures held == (if old(held) == [] then [] else old(held)[1..]) && dropped == old(dropped)
    {
      PopAccounted(State());
      if held == [] {
        return None;
      }
      b := Some(held[0]);
      held, popped := held[1..], popped + [held[0]];
    }

    method TakeDropped() returns (n: nat)
      requires Accounted(State())
      modifies this
      ensures State() == Reported(old(State())) && Accounted(State()) && n == old(dropped)
      ensures dropped == 0 && held == old(held)
    {
      n := dropped;
      dropped, reported := 0, reported + dropped;
    }
  }

  // -------------------------------------------------------------- the interleaving

  /** Where the shell loop is. Interrupts are off exactly between `Check` and the decision to sleep. */
  datatype Phase =
    | PollMouse
    | RunTasks
    | ReportKeyboard
    | ReportMouse
    | PollKeyboard
    | DisableInterrupts
    | CheckKeyboard
    | CheckMouse
    | Sleep
    | Resume
    | Halted

  datatype System = System(phase: Phase, keyboard: Queue, mouse: Queue, ticks: nat)

  const START := System(PollMouse, EMPTY_QUEUE, EMPTY_QUEUE, 0)

  predicate InterruptsOn(s: System) { !(s.phase in {CheckKeyboard, CheckMouse, Sleep, Resume}) }

  /** An interrupt with the byte its device delivers, or one step of the loop. */
  datatype Event = KeyboardIrq(code: Byte) | MouseIrq(byte: Byte) | TimerIrq | LoopStep

  /** A handled interrupt ends a halt. */
  function Awake(phase: Phase): Phase { if phase == Halted then PollMouse else phase }

  /** What a keyboard answers to a command; the handler throws these two codes away before the queue. */
  predicate IsReply(code: Byte) { code == KEYBOARD_ACK || code == KEYBOARD_RESEND }

  function Handled(s: System, e: Event): System
    requires e != LoopStep
  {
    var t := s.(phase := Awake(s.phase));
    match e
    case KeyboardIrq(code) =>
      if IsReply(code) then t else t.(keyboard := Pushed(s.keyboard, code))
    case MouseIrq(byte) => t.(mouse := Pushed(s.mouse, byte))
    case TimerIrq => t.(ticks := s.ticks + 1)
  }

  /** One step of the shell loop; going to sleep turns interrupts on and halts in one step. */
  function Looped(s: System): System {
    match s.phase
    case PollMouse => s.(phase := RunTasks, mouse := Popped(s.mouse))
    case RunTasks => s.(phase := if s.ticks % REPORT_INTERVAL == 0 then ReportKeyboard else PollKeyboard)
    case ReportKeyboard => s.(phase := ReportMouse, keyboard := Reported(s.keyboard))
    case ReportMouse => s.(phase := PollKeyboard, mouse := Reported(s.mouse))
    case PollKeyboard => s.(phase := DisableInterrupts, keyboard := Popped(s.keyboard))
    case DisableInterrupts => s.(phase := CheckKeyboard)
    case CheckKeyboard => s.(phase := if s.keyboard.held == [] then CheckMouse else Resume)
    case CheckMouse => s.(phase := if s.mouse.held == [] then Sleep else Resume)
    case Sleep => s.(phase := Halted)
    case Resume => s.(phase := PollMouse)
    case Halted => s
  }

  /** An interrupt that comes while interrupts are off waits at the controller. */
  function Next(s: System, e: Event): System {
    if e == LoopStep then Looped(s) else if InterruptsOn(s) then Handled(s, e) else s
  }

  function Run(s: System, events: seq<Event>): System {
    if events == [] then s else Next(Run(s, events[..|events| - 1]), events[|events| - 1])
  }

  /** Both queues are accounted for, and what the checks before sleeping found still holds. */
  ghost predicate Sound(s: System) {
    && Accounted(s.keyboard) && Accounted(s.mouse)
    && (s.phase in {CheckMouse, Sleep, Halted} ==> s.keyboard.held == [])
    && (s.phase in {Sleep, Halted} ==> s.mouse.held == [])
  }

  lemma NextIsSound(s: System, e: Event)
    requires Sound(s)
    ensures Sound(Next(s, e))
  {
    PopAccounted(s.keyboard);
    PopAccounted(s.mouse);
    match e {
      case KeyboardIrq(code) => PushAccounted(s.keyboard, code);
      case MouseIrq(byte) => PushAccounted(s.mouse, byte);
      case TimerIrq =>
      case LoopStep =>
    }
  }

  lemma {:induction false} RunIsSound(s: System, events: seq<Event>)
    requires Sound(s)
    ensures Sound(Run(s, events))
  {
    if events != [] {
      RunIsSound(s, events[..|events| - 1]);
      NextIsSound(Run(s, events[..|events| - 1]), events[|events| - 1]);
    }
  }

  // ------------------------------------------------------------- delivered bytes

  /** The codes the keyboard handler was called with during a run, less the two replies it throws away. */
  function KeyboardBytes(s: System, events: seq<Event>): seq<Byte> {
    if events == [] then []
    else
      var front, e := events[..|events| - 1], events[|events| - 1];
      if e.KeyboardIrq? && InterruptsOn(Run(s, front)) && !IsReply(e.code) then KeyboardBytes(s, front) + [e.code]
      else KeyboardBytes(s, front)
  }

  /** The bytes the mouse handler was called with. */
  function MouseBytes(s: System, events: seq<Event>): seq<Byte> {
    if events == [] then []
    else
      var front, e := events[..|events| - 1], events[|events| - 1];
      if e.MouseIrq? && InterruptsOn(Run(s, front)) then MouseBytes(s, front) + [e.byte] else MouseBytes(s, front)
  }

  /** `a` is `b` with some bytes left out. */
  predicate Subsequence(a: seq<Byte>, b: seq<Byte>) {
    a == [] || (b != [] &&
      (Subsequence(a, b[..|b| - 1])
       || (a[|a| - 1] == b[|b| - 1] && Subsequence(a[..|a| - 1], b[..|b| - 1]))))
  }

  lemma SubsequenceNext(a: seq<Byte>, b: seq<Byte>, x: Byte)
    requires Subsequence(a, b)
    ensures Subsequence(a, b + [x]) && Subsequence(a + [x], b + [x])
  {
    assert (b + [x])[..|b|] == b && (a + [x])[..|a|] == a;
  }

  lemma {:induction false} SubsequenceLength(a: seq<Byte>, b: seq<Byte>)
    requires Subsequence(a, b)
    ensures |a| <= |b| && (|a| == |b| ==> a == b)
  {
    if a != [] {
      var c, d := a[..|a| - 1], b[..|b| - 1];
      if Subsequence(a, d) { SubsequenceLength(a, d); } else { SubsequenceLength(c, d); }
      assert a == c + [a[|a| - 1]] && b == d + [b[|b| - 1]];
    }
  }

  /** The queue against the bytes it was offered: what it took are some of them, in order, and it counted the rest. */
  ghost predicate TookFrom(q: Queue, delivered: seq<Byte>) {
    Subsequence(q.accepted, delivered) && q.pushed == |delivered|
  }

  lemma PushTakes(q: Queue, delivered: seq<Byte>, b: Byte)
    requires TookFrom(q, delivered)
    ensures TookFrom(Pushed(q, b), delivered + [b])
  {
    SubsequenceNext(q.accepted, delivered, b);
  }

  lemma {:induction false} QueuesTakeDelivered(s: System, events: seq<Event>)
    requires TookFrom(s.keyboard, []) && TookFrom(s.mouse, [])
    ensures TookFrom(Run(s, events).keyboard, KeyboardBytes(s, events))
    ensures TookFrom(Run(s, events).mouse, MouseBytes(s, events))
  {
    if events != [] {
      var front, e := events[..|events| - 1], events[|events| - 1];
      var t := Run(s, front);
      QueuesTakeDelivered(s, front);
      if e.KeyboardIrq? { PushTakes(t.keyboard, KeyboardBytes(s, front), e.code); }
      if e.MouseIrq? { PushTakes(t.mouse, MouseBytes(s, front), e.byte); }
    }
  }

  /** Of the bytes delivered, those read and those waiting are some, in order; the others were counted as dropped; and
      if none was dropped, they are all of them. */
  ghost predicate NothingLost(q: Queue, delivered: seq<Byte>) {
    && Subsequence(q.popped + q.held, delivered)
    && |delivered| == |q.popped| + |q.held| + q.reported + q.dropped
    && (q.reported + q.dropped == 0 ==> q.popped + q.held == delivered)
  }

  lemma TakenIsNotLost(q: Queue, delivered: seq<Byte>)
    requires Accounted(q) && TookFrom(q, delivered)
    ensures NothingLost(q, delivered)
  {
    SubsequenceLength(q.accepted, delivered);
  }

  /** In every interleaving the processor is never halted while a byte waits, and of the bytes each handler was called
      with - keyboard replies 0xfa and 0xfe apart - every one is read in order, waiting, or counted as dropped. */
  lemma NoLostWakeUp(events: seq<Event>)
    ensures var s := Run(START, events); s.phase == Halted ==> s.keyboard.held == [] && s.mouse.held == []
    ensures NothingLost(Run(START, events).keyboard, KeyboardBytes(START, events))
    ensures NothingLost(Run(START, events).mouse, MouseBytes(START, events))
  {
    RunIsSound(START, events);
    QueuesTakeDelivered(START, events);
    TakenIsNotLost(Run(START, events).keyboard, KeyboardBytes(START, events));
    TakenIsNotLost(Run(START, events).mouse, MouseBytes(START, events));
  }

  // ------------------------------------------------------------- bounded response

  /** Loop steps until the keyboard queue is next popped, while it holds a byte. */
  function ToKeyboard(phase: Phase): nat {
    match phase
    case PollKeyboard => 1
    case ReportMouse => 2
    case ReportKeyboard => 3
    case RunTasks => 4
    case PollMouse => 5
    case Resume => 6
    case CheckKeyboard => 7
    case DisableInterrupts => 8
    case _ => 0
  }

  /** Loop steps until the mouse queue is next popped, while it holds a byte. */
  function ToMouse(phase: Phase): nat {
    match phase
    case PollMouse => 1
    case Resume => 2
    case CheckMouse => 3
    case CheckKeyboard => 4
    case DisableInterrupts => 5
    case PollKeyboard => 6
    case ReportMouse => 7
    case ReportKeyboard => 8
    case RunTasks => 9
    case _ => 0
  }

  const KEYBOARD_ROUND: nat := 8
  const MOUSE_ROUND: nat := 9

  function LoopSteps(events: seq<Event>): nat {
    if events == [] then 0 else LoopSteps(events[..|events| - 1]) + if events[|events| - 1] == LoopStep then 1 else 0
  }

  /** The loop steps that remain before `n` bytes have been popped from the keyboard queue. */
  function KeyboardDue(s: System, n: nat): int {
    ToKeyboard(s.phase) + KEYBOARD_ROUND * (n - |s.keyboard.popped| - 1)
  }

  function MouseDue(s: System, n: nat): int {
    ToMouse(s.phase) + MOUSE_ROUND * (n - |s.mouse.popped| - 1)
  }

  /** While the byte wanted waits in the queue, a loop step brings it closer and an interrupt does not put it off. */
  lemma KeyboardStep(s: System, e: Event, n: nat)
    requires Sound(s) && |s.keyboard.popped| < n <= |s.keyboard.accepted|
    ensures var t := Next(s, e);
      && |s.keyboard.accepted| <= |t.keyboard.accepted|
      && (|t.keyboard.popped| >= n || KeyboardDue(t, n) <= KeyboardDue(s, n) - if e == LoopStep then 1 else 0)
  {
  }

  lemma MouseStep(s: System, e: Event, n: nat)
    requires Sound(s) && |s.mouse.popped| < n <= |s.mouse.accepted|
    ensures var t := Next(s, e);
      && |s.mouse.accepted| <= |t.mouse.accepted|
      && (|t.mouse.popped| >= n || MouseDue(t, n) <= MouseDue(s, n) - if e == LoopStep then 1 else 0)
  {
  }

  lemma {:induction false} KeyboardProgress(s: System, events: seq<Event>, n: nat)
    requires Sound(s) && |s.keyboard.popped| < n <= |s.keyboard.accepted|
    ensures var t := Run(s, events);
      && |s.keyboard.accepted| <= |t.keyboard.accepted|
      && (|t.keyboard.popped| >= n || KeyboardDue(t, n) <= KeyboardDue(s, n) - LoopSteps(events))
  {
    if events != [] {
      var front := events[..|events| - 1];
      KeyboardProgress(s, front, n);
      RunIsSound(s, front);
      if |Run(s, front).keyboard.popped| < n { KeyboardStep(Run(s, front), events[|events| - 1], n); }
    }
  }

  lemma {:induction false} MouseProgress(s: System, events: seq<Event>, n: nat)
    requires Sound(s) && |s.mouse.popped| < n <= |s.mouse.accepted|
    ensures var t := Run(s, events);
      && |s.mouse.accepted| <= |t.mouse.accepted|
      && (|t.mouse.popped| >= n || MouseDue(t, n) <= MouseDue(s, n) - LoopSteps(events))
  {
    if events != [] {
      var front := events[..|events| - 1];
      MouseProgress(s, front, n);
      RunIsSound(s, front);
      if |Run(s, front).mouse.popped| < n { MouseStep(Run(s, front), events[|events| - 1], n); }
    }
  }

  /** The byte at position `i` of the keyboard queue has been read after at most `8 * (i + 1)` loop steps, whatever
      interrupts come in between. */
  lemma KeyboardByteIsRead(s: System, events: seq<Event>, i: nat)
    requires Sound(s) && i < |s.keyboard.held| && LoopSteps(events) >= KEYBOARD_ROUND * (i + 1)
    ensures |Run(s, events).keyboard.popped| > |s.keyboard.popped| + i
  {
    var n := |s.keyboard.popped| + i + 1;
    KeyboardProgress(s, events, n);
    RunIsSound(s, events);
  }

  /** Likewise the mouse queue, in at most `9 * (i + 1)` steps. */
  lemma MouseByteIsRead(s: System, events: seq<Event>, i: nat)
    requires Sound(s) && i < |s.mouse.held| && LoopSteps(events) >= MOUSE_ROUND * (i + 1)
    ensures |Run(s, events).mouse.popped| > |s.mouse.popped| + i
  {
    var n := |s.mouse.popped| + i + 1;
    MouseProgress(s, events, n);
    RunIsSound(s, events);
  }

  // ------------------------------------------------------------------ going to sleep

  /** Loop steps until the processor halts when there is nothing to read. */
  function ToHalt(phase: Phase): nat {
    match phase
    case Halted => 0
    case Sleep => 1
    case CheckMouse => 2
    case CheckKeyboard => 3
    case DisableInterrupts => 4
    case PollKeyboard => 5
    case ReportMouse => 6
    case ReportKeyboard => 7
    case RunTasks => 8
    case PollMouse => 9
    case Resume => 10
  }

  predicate Idle(s: System) { s.keyboard.held == [] && s.mouse.held == [] }

  /** No byte arrives. */
  predicate Quiet(events: seq<Event>) { forall e :: e in events ==> e == LoopStep || e == TimerIrq }

  ghost predicate Halts(s: System, events: seq<Event>) {
    exists k :: 0 <= k <= |events| && Run(s, events[..k]).phase == Halted
  }

  lemma {:induction false} IdleProgress(s: System, events: seq<Event>)
    requires Idle(s) && Quiet(events)
    ensures Idle(Run(s, events))
    ensures Halts(s, events) || ToHalt(Run(s, events).phase) <= ToHalt(s.phase) - LoopSteps(events)
  {
    if events == [] {
    } else {
      var front := events[..|events| - 1];
      assert events[|events| - 1] in events && forall e :: e in front ==> e in events;
      IdleProgress(s, front);
      if k :| 0 <= k <= |front| && Run(s, front[..k]).phase == Halted { assert events[..k] == front[..k]; }
      if Run(s, front).phase == Halted { assert events[..|front|] == front; }
    }
  }

  /** With nothing to read the loop halts within ten of its steps, however often the timer interrupts it. */
  lemma IdleLoopHalts(s: System, events: seq<Event>)
    requires Idle(s) && Quiet(events) && LoopSteps(events) >= 10
    ensures Halts(s, events)
  {
    assert events[..|events|] == events;
    IdleProgress(s, events);
  }

  /** A halted processor stays halted until an interrupt, and every interrupt - a timer tick or a keyboard reply too -
      makes the loop go round again. */
  lemma InterruptEndsHalt(s: System, e: Event)
    ensures s.phase == Halted ==> Next(s, e).phase == if e == LoopStep then Halted else PollMouse
    ensures Next(s, e).ticks == s.ticks + if e == TimerIrq && InterruptsOn(s) then 1 else 0
  {
  }

  // ----------------------------------------------------------------- reporting drops

  /** The tick count the loop saw when it last decided whether to report. */
  function LastSeen(events: seq<Event>): Option<nat> {
    if events == [] then None
    else
      var front := events[..|events| - 1];
      if events[|events| - 1] == LoopStep && Run(START, front).phase == RunTasks then Some(Run(START, front).ticks)
      else LastSeen(front)
  }

  predicate DueAt(seen: Option<nat>) { seen.Some? && seen.value % 100 == 0 }

  lemma {:induction false} ReportingIsDue(events: seq<Event>)
    ensures Run(START, events).phase in {ReportKeyboard, ReportMouse} ==> DueAt(LastSeen(events))
  {
    if events != [] { ReportingIsDue(events[..|events| - 1]); }
  }

  /** The step from `q` to `q'` takes the drop counter. */
  predicate TakesDrops(q: Queue, q': Queue) { q.reported != q'.reported || q'.dropped < q.dropped }

  lemma OnlyReportsTakeDrops(s: System, e: Event)
    requires TakesDrops(s.keyboard, Next(s, e).keyboard) || TakesDrops(s.mouse, Next(s, e).mouse)
    ensures s.phase == ReportKeyboard || s.phase == ReportMouse
  {
  }

  /** A drop counter is taken only on a pass of the loop that saw a tick count divisible by a hundred. */
  lemma DropsWaitForTheTick(events: seq<Event>, e: Event)
    requires var s := Run(START, events);
      TakesDrops(s.keyboard, Next(s, e).keyboard) || TakesDrops(s.mouse, Next(s, e).mouse)
    ensures DueAt(LastSeen(events))
  {
    OnlyReportsTakeDrops(Run(START, events), e);
    ReportingIsDue(events);
  }

  /** How far a reporting pass has come after so many loop steps. */
  ghost predicate Reporting(s: System, steps: nat, keyboard: nat, mouse: nat) {
    && (steps == 0 ==> s.phase == ReportKeyboard && s.keyboard.reported + s.keyboard.dropped >= keyboard)
    && (steps == 1 ==> s.phase == ReportMouse)
    && (steps <= 1 ==> s.mouse.reported + s.mouse.dropped >= mouse)
    && (steps >= 1 ==> s.keyboard.reported >= keyboard)
    && (steps >= 2 ==> s.mouse.reported >= mouse)
  }

  lemma {:induction false} ReportingGoesOn(s: System, events: seq<Event>, keyboard: nat, mouse: nat)
    requires Reporting(s, 0, keyboard, mouse)
    ensures Reporting(Run(s, events), LoopSteps(events), keyboard, mouse)
  {
    if events != [] { ReportingGoesOn(s, events[..|events| - 1], keyboard, mouse); }
  }

  /** And every such pass reports both counters within two more steps of the loop, whatever interrupts come in between. */
  lemma DropsAreReported(s: System, events: seq<Event>)
    requires s.phase == RunTasks && s.ticks % 100 == 0 && LoopSteps(events) >= 2
    ensures var t := Run(Next(s, LoopStep), events);
      && t.keyboard.reported >= s.keyboard.reported + s.keyboard.dropped
      && t.mouse.reported >= s.mouse.reported + s.mouse.dropped
  {
    ReportingGoesOn(Next(s, LoopStep), events, s.keyboard.reported + s.keyboard.dropped,
                    s.mouse.reported + s.mouse.dropped);
  }
}

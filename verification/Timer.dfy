/** Converting between milliseconds and timer ticks, with saturation. */
module Timer {
  import opened Machine

  const PIT_FREQUENCY: int := 1_193_182
  const TIMER_FREQUENCY: int := 1_000
  const PIT_DIVISOR: int := PIT_FREQUENCY / TIMER_FREQUENCY

  /** Oscillator periods in a tick, times a thousand. */
  const TICK_MILLIS: int := PIT_DIVISOR * 1_000

  function UptimeMs(ticks: U64): U64 {
    SaturatingMul(SaturatingMul(ticks, PIT_DIVISOR), 1_000) / PIT_FREQUENCY
  }

  /** The numbers of ticks in so many milliseconds, rounded up, at most the largest word. */
  function TicksForMs(ms: U64): U64 {
    if ms == 0 then 0
    else
      Min(RoundedUp(ms * PIT_FREQUENCY, TICK_MILLIS), U64_MAX)
  }

  function RoundedUp(a: nat, b: nat): nat
    requires b > 0
  {
    a / b + if a % b == 0 then 0 else 1
  }

  function DeadlineMs(now: U64, ms: U64): U64 { SaturatingAdd(now, TicksForMs(ms)) }

  lemma QuotientReaches(a: nat, b: int, m: int)
    requires b > 0
    ensures a / b >= m <==> a >= m * b
  {
    var q := a / b;
    assert a == q * b + a % b;
    ProductOrder(m, q, b);
    ProductOrder(q, m, b);
  }

  lemma RoundedUpReaches(a: nat, b: int, t: int)
    requires b > 0
    ensures t >= RoundedUp(a, b) <==> t * b >= a
  {
    var q := a / b;
    assert a == q * b + a % b;
    ProductOrder(q, t, b);
    ProductOrder(t, q, b);
  }

  lemma UptimeIsCapped(ticks: U64)
    ensures UptimeMs(ticks) == Min(ticks * TICK_MILLIS, U64_MAX) / PIT_FREQUENCY
  {
    assert ticks * PIT_DIVISOR * 1_000 == ticks * TICK_MILLIS;
  }

  lemma UptimeAtLeast(ticks: U64, ms: int)
    ensures UptimeMs(ticks) >= ms <==> Min(ticks * TICK_MILLIS, U64_MAX) >= ms * PIT_FREQUENCY
  {
    UptimeIsCapped(ticks);
    QuotientReaches(Min(ticks * TICK_MILLIS, U64_MAX), PIT_FREQUENCY, ms);
  }

  /** So many ticks are enough exactly when they span the milliseconds, or there are no more ticks to ask for. */
  lemma TicksSpan(ms: U64, ticks: U64)
    ensures ticks >= TicksForMs(ms) <==> ticks * TICK_MILLIS >= ms * PIT_FREQUENCY || ticks == U64_MAX
  {
    RoundedUpReaches(ms * PIT_FREQUENCY, TICK_MILLIS, ticks);
  }

  /** The two conversions form a Galois pair as far as the product with the frequency fits 64 bits; beyond it uptime
      stands still. */
  lemma UptimeReaches(ticks: U64, ms: U64)
    ensures UptimeMs(ticks) >= ms <==> ms * PIT_FREQUENCY <= U64_MAX && ticks >= TicksForMs(ms)
  {
    UptimeAtLeast(ticks, ms);
    TicksSpan(ms, ticks);
  }

  /** Waiting from any start until the deadline raises uptime by the time asked for, exactly while uptime can still
      rise that far. */
  lemma WaitRaisesUptime(start: U64, ms: U64, now: U64)
    requires now >= DeadlineMs(start, ms)
    ensures UptimeMs(now) >= UptimeMs(start) + ms <==> (UptimeMs(start) + ms) * PIT_FREQUENCY <= U64_MAX
  {
    var up := UptimeMs(start);
    UptimeAtLeast(start, up);
    UptimeAtLeast(now, up + ms);
    assert (up + ms) * PIT_FREQUENCY == up * PIT_FREQUENCY + ms * PIT_FREQUENCY;
    TicksSpan(ms, TicksForMs(ms));
    Reached(start, TicksForMs(ms), now);
  }

  /** The ticks waited add up, unless the counter is at its end. */
  lemma Reached(start: U64, wait: U64, now: U64)
    requires now >= SaturatingAdd(start, wait)
    ensures now * TICK_MILLIS >= start * TICK_MILLIS + wait * TICK_MILLIS || now * TICK_MILLIS >= U64_MAX
  {
    ProductOrder(start + wait, now, TICK_MILLIS);
    ProductOrder(1, TICK_MILLIS, U64_MAX);
    assert (start + wait) * TICK_MILLIS == start * TICK_MILLIS + wait * TICK_MILLIS;
  }

  /** No earlier tick will do when counting from boot. */
  lemma DeadlineIsLeast(ms: U64, now: U64)
    requires ms * PIT_FREQUENCY <= U64_MAX && now < DeadlineMs(0, ms)
    ensures UptimeMs(now) < ms
  {
    UptimeReaches(now, ms);
  }

  /** From any start the deadline lies no further ahead than any wait that is enough from boot, and one tick less would
      not span the time asked for. */
  lemma DeadlineIsNear(start: U64, ms: U64)
    ensures DeadlineMs(start, ms) >= start
    ensures forall wait: U64 :: UptimeMs(wait) >= ms ==> DeadlineMs(start, ms) - start <= wait
    ensures DeadlineMs(start, ms) > start ==> (DeadlineMs(start, ms) - start - 1) * TICK_MILLIS < ms * PIT_FREQUENCY
  {
    forall wait: U64 | UptimeMs(wait) >= ms ensures DeadlineMs(start, ms) - start <= wait {
      UptimeReaches(wait, ms);
    }
    if DeadlineMs(start, ms) > start { TicksSpan(ms, DeadlineMs(start, ms) - start - 1); }
  }

  /** Polls the tick counter until the deadline, given the readings the polls return. */
  method SleepMs(ms: U64, interruptsEnabled: bool, readings: seq<U64>) returns (polls: nat)
    requires readings != []
    ensures !interruptsEnabled ==> polls == 0
    ensures interruptsEnabled ==> 1 <= polls <= |readings|
    ensures forall i :: 1 <= i < polls ==> readings[i] < DeadlineMs(readings[0], ms)
    ensures interruptsEnabled && polls < |readings| ==> readings[polls] >= DeadlineMs(readings[0], ms)
  {
    if !interruptsEnabled {
      return 0;
    }
    var start := readings[0];
    var target := DeadlineMs(start, ms);
    polls := 1;
    while polls < |readings| && readings[polls] < target
      invariant 1 <= polls <= |readings|
      invariant forall i :: 1 <= i < polls ==> readings[i] < target
    {
      polls := polls + 1;
    }
  }
}

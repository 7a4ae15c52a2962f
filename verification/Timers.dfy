/** Timer rounding and the part of Flink's keyed timer service that the operators use. */
module Timers {
  import opened Wrappers
  import opened Model
  import opened LifecyclePolicy
  import opened GraphLifecycle
  import Extremum

  /** Java's integer division, which truncates toward zero. */
  function Quotient(a: int, b: int): int
    requires b > 0
  {
    if a >= 0 then a / b else -((-a) / b)
  }

  function Remainder(a: int, b: int): int
    requires b > 0
  {
    a - Quotient(a, b) * b
  }

  function TimerMillis(unixNano: int): int {
    Quotient(unixNano + 999_999, NANOS_PER_MILLI)
  }

  function CoalescedTimerMillis(unixMilli: int): int {
    var partial := if Remainder(unixMilli, MILLIS_PER_SECOND) == 0 then 0 else 1;
    (Quotient(unixMilli, MILLIS_PER_SECOND) + partial) * MILLIS_PER_SECOND
  }

  /** `t` is the least whole second (in milliseconds) at or after `x` units, `scale` of them to the millisecond. */
  ghost predicate IsCeilingSecond(t: int, x: int, scale: int) {
    t % MILLIS_PER_SECOND == 0 && x <= t * scale < x + MILLIS_PER_SECOND * scale
  }

  /**
   The coalesced timer is a ceiling exactly where a deadline is nonnegative or already on a whole second;
   elsewhere it is one second after the ceiling.
   */
  lemma CoalescedIsCeiling(x: int)
    ensures CoalescedTimerMillis(x) >= x
    ensures IsCeilingSecond(CoalescedTimerMillis(x), x, 1) <==> x >= 0 || x % MILLIS_PER_SECOND == 0
    ensures x < 0 && x % MILLIS_PER_SECOND != 0 ==> IsCeilingSecond(CoalescedTimerMillis(x) - MILLIS_PER_SECOND, x, 1)
  {
  }

  /** A deadline of minus one millisecond belongs on second zero; the coalesced timer is second one. */
  lemma JustBeforeZero()
    ensures CoalescedTimerMillis(-1) == 1_000 && !IsCeilingSecond(1_000, -1, 1) && IsCeilingSecond(0, -1, 1)
  {
    CoalescedIsCeiling(-1);
  }

  /** Rounding nanoseconds up to milliseconds and then to seconds is one rounding up to seconds. */
  lemma EventTimerIsCeiling(deadline: int)
    requires deadline >= 0
    ensures IsCeilingSecond(CoalescedTimerMillis(TimerMillis(deadline)), deadline, NANOS_PER_MILLI)
  {
    var ms := TimerMillis(deadline);
    CoalescedIsCeiling(ms);
    var t := CoalescedTimerMillis(ms);
    assert ms * NANOS_PER_MILLI < deadline + NANOS_PER_MILLI;
    var seconds := t / MILLIS_PER_SECOND;
    assert (seconds - 1) * MILLIS_PER_SECOND <= ms - 1;
  }

  /** How many units of the clock's deadlines make a millisecond of its timers. */
  function Scale(clock: Clock): int {
    if clock.EventTime? then NANOS_PER_MILLI else 1
  }

  /** The timer a contributor asks for on a clock. */
  function TimerFor(s: Snapshot, clock: Clock): Option<int> {
    match (clock, DeadlineOn(s, clock))
    case (_, None) => None
    case (EventTime, Some(deadline)) => Some(CoalescedTimerMillis(TimerMillis(deadline)))
    case (ProcessingTime, Some(deadline)) => Some(CoalescedTimerMillis(deadline))
  }

  lemma TimerIsCeiling(s: Snapshot, clock: Clock)
    requires DeadlineOn(s, clock).Some? && DeadlineOn(s, clock).value >= 0
    ensures IsCeilingSecond(TimerFor(s, clock).value, DeadlineOn(s, clock).value, Scale(clock))
  {
    if clock.EventTime? { EventTimerIsCeiling(s.eventDeadline.value); }
    else { CoalescedIsCeiling(s.processingDeadline.value); }
  }

  ghost function TimersOf(m: Contributors, clock: Clock): set<int> {
    set id | id in m && TimerFor(m[id], clock).Some? :: TimerFor(m[id], clock).value
  }

  /** The exact next wake-up: the earliest timer any contributor asks for. */
  ghost function Earliest(m: Contributors, clock: Clock): Option<int> {
    var timers := TimersOf(m, clock);
    if timers == {} then None else Some(Extremum.Least(timers))
  }

  function EarlierOf(a: Option<int>, b: Option<int>): Option<int> {
    if a.None? then b
    else if b.None? then a
    else Some(Min(a.value, b.value))
  }

  lemma EarliestUnique(m: Contributors, clock: Clock, t: Option<int>)
    requires t.Some? ==> exists id :: id in m && TimerFor(m[id], clock) == t
    requires forall id | id in m && TimerFor(m[id], clock).Some? :: t.Some? && t.value <= TimerFor(m[id], clock).value
    ensures Earliest(m, clock) == t
  {
    var timers := TimersOf(m, clock);
    if t.Some? {
      assert Extremum.IsLeast(timers, t.value);
    } else {
      assert timers == {};
    }
  }

  /** The loop of `scheduleTimers`, for one clock. */
  method NextTimer(m: Contributors, clock: Clock) returns (next: Option<int>)
    ensures next == Earliest(m, clock)
  {
    next := None;
    var remaining := m.Keys;
    while remaining != {}
      invariant remaining <= m.Keys
      invariant next.Some? ==> exists id :: id in m && id !in remaining && TimerFor(m[id], clock) == next
      invariant forall id | id in m && id !in remaining && TimerFor(m[id], clock).Some? ::
        next.Some? && next.value <= TimerFor(m[id], clock).value
    {
      var id :| id in remaining;
      remaining := remaining - {id};
      next := EarlierOf(next, TimerFor(m[id], clock));
    }
    EarliestUnique(m, clock, next);
  }

  /** The clocks and this key's registered timers. */
  class TimerService {
    var watermark: int
    var processingTime: int
    var eventTimers: set<int>
    var processingTimers: set<int>

    constructor (watermark: int, processingTime: int)
      ensures this.watermark == watermark && this.processingTime == processingTime
      ensures eventTimers == {} && processingTimers == {}
    {
      this.watermark, this.processingTime := watermark, processingTime;
      eventTimers, processingTimers := {}, {};
    }

    function Registered(clock: Clock): set<int>
      reads `eventTimers, `processingTimers
    {
      if clock.EventTime? then eventTimers else processingTimers
    }

    method Register(clock: Clock, timestamp: int)
      modifies this`eventTimers, this`processingTimers
      ensures Registered(clock) == old(Registered(clock)) + {timestamp}
      ensures forall other | other != clock :: Registered(other) == old(Registered(other))
    {
      if clock.EventTime? { eventTimers := eventTimers + {timestamp}; }
      else { processingTimers := processingTimers + {timestamp}; }
    }

    method Delete(clock: Clock, timestamp: int)
      modifies this`eventTimers, this`processingTimers
      ensures Registered(clock) == old(Registered(clock)) - {timestamp}
      ensures forall other | other != clock :: Registered(other) == old(Registered(other))
    {
      if clock.EventTime? { eventTimers := eventTimers - {timestamp}; }
      else { processingTimers := processingTimers - {timestamp}; }
    }
  }
}

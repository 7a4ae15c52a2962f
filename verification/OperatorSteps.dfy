/**
 What one key of the lifecycle operator does, on values: the reference state of GraphLifecycle plus
 one wake-up per clock. The class in ElementLifecycle.dfy is proved to compute these steps.
 */
module OperatorSteps {
  import opened Wrappers
  import opened Model
  import opened LifecyclePolicy
  import opened GraphLifecycle
  import opened Timers

  datatype Operator = Operator(state: Option<State>, eventTimer: Option<int>, processingTimer: Option<int>) {
    function Timer(clock: Clock): Option<int> {
      if clock.EventTime? then eventTimer else processingTimer
    }

    function Without(clock: Clock): Operator {
      if clock.EventTime? then this.(eventTimer := None) else this.(processingTimer := None)
    }

    function Contributors(): Contributors {
      ContributorsOf(state)
    }
  }

  /** Watermark, processing clock and wall clock (milliseconds) at one callback. */
  datatype Instant = Instant(watermark: int, processingTime: int, wallClock: int) {
    function WatermarkNanos(): int {
      Max(watermark, 0) * NANOS_PER_MILLI
    }
  }

  /** The simple semantics of one report: ignore it when stale, otherwise apply it to the reference state. */
  ghost function Reference(policy: Policy, s: Option<State>, c: Contribution, now: Instant):
    Result<Transition, Model.Failure>
    requires s.Some? ==> s.value.contributors != map[]
  {
    if Stale(ContributorsOf(s), c) then Success(Unchanged)
    else match policy.TtlSeconds(c.element)
      case None => Failure(NoTypePrefix)
      case Some(ttl) => Applied(s, c, ttl, now.WatermarkNanos(), now.processingTime, now.wallClock)
  }

  /** The contributor owns an attribute that its new report no longer carries. */
  ghost predicate Loses(m: Contributors, c: Contribution) {
    exists name :: IsOwner(m, name, c.contributorId) && name !in c.element.attributes
  }

  /** Refreshes only move a wake-up earlier; a report that loses an attribute rescans every contributor. */
  ghost function TimerAfterReport(o: Operator, c: Contribution, next: Contributors, clock: Clock): Option<int>
    requires c.contributorId in next
  {
    if Loses(o.Contributors(), c) then Earliest(next, clock)
    else EarlierOf(o.Timer(clock), TimerFor(next[c.contributorId], clock))
  }

  ghost function Report(policy: Policy, o: Operator, c: Contribution, now: Instant):
    Result<(Operator, Option<Event>), Model.Failure>
    requires o.state.Some? ==> o.state.value.contributors != map[]
  {
    match Reference(policy, o.state, c, now)
    case Failure(error) => Failure(error)
    case Success(Unchanged) => Success((o, None))
    case Success(Changed(next, event)) =>
      var m := next.value.contributors;
      Success((Operator(next, TimerAfterReport(o, c, m, EventTime), TimerAfterReport(o, c, m, ProcessingTime)), event))
  }

  /** The expiry timestamp in the unit of the clock's deadlines. */
  function ExpiryTime(clock: Clock, timestamp: int): int {
    timestamp * Scale(clock)
  }

  /** A timer callback: expire what is due on its clock, then rescan both wake-ups. */
  ghost function Fire(o: Operator, clock: Clock, timestamp: int, wallClock: int): (Operator, Option<Event>)
    requires o.state.Some? ==> o.state.value.contributors != map[]
  {
    if o.state.None? then
      (o.Without(clock), None)
    else
      var t := Expired(o.state.value, clock, ExpiryTime(clock, timestamp), wallClock);
      var next := t.Next(o.state);
      var m := ContributorsOf(next);
      (Operator(next, Earliest(m, EventTime), Earliest(m, ProcessingTime)), t.Event())
  }

  // ----- the two paths of a report, spelled out -----

  function Incoming(c: Contribution, ttl: int, now: Instant): Snapshot {
    SnapshotOf(c, ttl, now.WatermarkNanos(), now.processingTime)
  }

  ghost predicate Rejects(o: Operator, c: Contribution)
    requires o.state.Some? ==> o.state.value.contributors != map[]
  {
    o.state.Some? && Conflicts(o.state.value, c.element)
  }

  lemma RefreshIsReport(policy: Policy, o: Operator, c: Contribution, now: Instant, ttl: int)
    requires o.state.Some? ==> o.state.value.contributors != map[]
    requires !Stale(o.Contributors(), c) && !Loses(o.Contributors(), c)
    requires ttl > 0 && policy.TtlSeconds(c.element) == Some(ttl)
    ensures Rejects(o, c) ==> Report(policy, o, c, now) == Failure(IdentityConflict)
    ensures !Rejects(o, c) ==>
      var snapshot := Incoming(c, ttl, now);
      var m := o.Contributors()[c.contributorId := snapshot];
      var t := Announce(o.state, c.element.id, m, Merged(c.element.id, m), c.observedAt, now.wallClock);
      Report(policy, o, c, now) == Success((Operator(
        t.next,
        EarlierOf(o.eventTimer, TimerFor(snapshot, EventTime)),
        EarlierOf(o.processingTimer, TimerFor(snapshot, ProcessingTime))), t.event))
  {
  }

  lemma RescanIsReport(
    policy: Policy, o: Operator, c: Contribution, now: Instant, ttl: int, applied: Result<Transition, Model.Failure>)
    requires o.state.Some? ==> WellFormed(o.state.value)
    requires !Stale(o.Contributors(), c) && Loses(o.Contributors(), c)
    requires ttl > 0 && policy.TtlSeconds(c.element) == Some(ttl)
    requires applied == Applied(o.state, c, ttl, now.WatermarkNanos(), now.processingTime, now.wallClock)
    ensures applied.Failure? ==> Report(policy, o, c, now) == Failure(applied.error)
    ensures applied.Success? ==>
      && applied.value.Changed? && applied.value.next.Some?
      && WellFormed(applied.value.next.value) && applied.value.next.value.elementId == c.element.id
      && Report(policy, o, c, now) == Success((Operator(
        applied.value.next,
        Earliest(ContributorsOf(applied.value.next), EventTime),
        Earliest(ContributorsOf(applied.value.next), ProcessingTime)), applied.value.event))
  {
    assert Reference(policy, o.state, c, now) == applied;
    if applied.Success? {
      AppliedWellFormed(o.state, c, ttl, now.WatermarkNanos(), now.processingTime, now.wallClock);
      var m := ContributorsOf(applied.value.next);
      assert TimerAfterReport(o, c, m, EventTime) == Earliest(m, EventTime);
      assert TimerAfterReport(o, c, m, ProcessingTime) == Earliest(m, ProcessingTime);
    }
  }
}

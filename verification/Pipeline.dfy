/**
 The coalescers of all contributors of one element feeding its lifecycle operator, on one processing
 clock. Event-time callbacks may come at any moment; processing-time callbacks come in timestamp order.
 */
module Pipeline {
  import opened Wrappers
  import opened Model
  import opened LifecyclePolicy
  import opened GraphLifecycle
  import opened OperatorSteps
  import LifecycleRuns
  import opened CoalescerSteps
  import CoalescerRuns

  /** A report that a coalescer accepted, and when. */
  datatype Arrival = Arrival(contributorId: string, at: int)

  /** `newest` is the latest observation time received from each contributor. */
  datatype Pipe = Pipe(
    clock: int, coalescers: map<string, Tracking>, operator: Operator, arrivals: seq<Arrival>, newest: map<string, int>)

  const FRESH := Pipe(0, map[], Operator(None, None, None), [], map[])

  datatype Input =
    | Receipt(contribution: Contribution)
    | Refresh(contributorId: string)
    | ProcessingExpiry
    | EventExpiry

  /** The pipeline's fixed parameters: one element, described by its identity. */
  datatype Setup = Setup(policy: Policy, interval: int, identity: Element) {
    predicate Valid() {
      policy.Valid() && interval >= 0 && policy.TtlSeconds(identity).Some?
    }

    function TtlMillis(): int
      requires Valid()
    {
      policy.TtlSeconds(identity).value * MILLIS_PER_SECOND
    }
  }

  function TrackingOf(p: Pipe, id: string): Option<Tracking> {
    if id in p.coalescers then Some(p.coalescers[id]) else None
  }

  function WithTracking(coalescers: map<string, Tracking>, id: string, t: Option<Tracking>): map<string, Tracking> {
    if t.Some? then coalescers[id := t.value] else coalescers - {id}
  }

  /** Every registered processing-time timer is at or after `timestamp`. */
  predicate NoneEarlier(p: Pipe, timestamp: int) {
    && (forall id | id in p.coalescers :: p.coalescers[id].timer >= timestamp)
    && (p.operator.processingTimer.Some? ==> p.operator.processingTimer.value >= timestamp)
  }

  predicate Enabled(setup: Setup, p: Pipe, input: Input, now: Instant) {
    && now.processingTime >= p.clock
    && match input
       case Receipt(c) => c.Valid() && c.element.Identity() == setup.identity.Identity()
       case Refresh(id) =>
         id in p.coalescers && p.coalescers[id].timer <= now.processingTime && NoneEarlier(p, p.coalescers[id].timer)
       case ProcessingExpiry =>
         var timer := p.operator.processingTimer;
         timer.Some? && timer.value <= now.processingTime && NoneEarlier(p, timer.value)
       case EventExpiry => p.operator.eventTimer.Some? && p.operator.eventTimer.value <= now.watermark
  }

  /** What contributor `id`'s coalescer does with a report: pass it through when the interval is zero. */
  function Coalesce(setup: Setup, t: Option<Tracking>, c: Contribution, now: int):
    Option<(Option<Tracking>, Option<Contribution>)>
  {
    if setup.interval == 0 then Some((t, Some(c))) else Receive(setup.policy, setup.interval, t, c, now)
  }

  /** The lifecycle operator's share of a coalescer's output. */
  ghost function Deliver(setup: Setup, o: Operator, output: Option<Contribution>, now: Instant): Operator
    requires o.state.Some? ==> o.state.value.contributors != map[]
  {
    if output.None? then o
    else match Report(setup.policy, o, output.value, now)
      case Failure(_) => o
      case Success((after, _)) => after
  }

  ghost predicate Runnable(setup: Setup, p: Pipe) {
    && setup.Valid()
    && (p.operator.state.Some? ==> p.operator.state.value.contributors != map[])
    && forall id | id in p.coalescers :: setup.policy.TtlSeconds(p.coalescers[id].latest.element).Some?
  }

  ghost function Step(setup: Setup, p: Pipe, input: Input, now: Instant): Pipe
    requires Runnable(setup, p) && Enabled(setup, p, input, now)
  {
    match input
    case Receipt(c) =>
      setup.policy.TtlOfIdentity(c.element, setup.identity);
      var id := c.contributorId;
      var (next, output) := Coalesce(setup, TrackingOf(p, id), c, now.processingTime).value;
      Pipe(
        now.processingTime,
        WithTracking(p.coalescers, id, next),
        Deliver(setup, p.operator, output, now),
        p.arrivals + (if Older(TrackingOf(p, id), c) then [] else [Arrival(id, now.processingTime)]),
        p.newest[id := if id in p.newest then Max(p.newest[id], c.observedAt) else c.observedAt])
    case Refresh(id) =>
      var (next, output) := CoalescerSteps.Fire(setup.policy, Some(p.coalescers[id]), p.coalescers[id].timer);
      Pipe(
        now.processingTime,
        WithTracking(p.coalescers, id, next),
        Deliver(setup, p.operator, output, now),
        p.arrivals,
        p.newest)
    case ProcessingExpiry =>
      p.(clock := now.processingTime,
         operator := OperatorSteps.Fire(p.operator, ProcessingTime, p.operator.processingTimer.value, now.wallClock).0)
    case EventExpiry =>
      p.(clock := now.processingTime,
         operator := OperatorSteps.Fire(p.operator, EventTime, p.operator.eventTimer.value, now.wallClock).0)
  }

  // ----- invariant -----

  ghost predicate SameElement(setup: Setup, o: Operator) {
    forall id | id in o.Contributors() :: o.Contributors()[id].element.Identity() == setup.identity.Identity()
  }

  /** Each coalescer's timer plays its role, and its cached report is of this element. */
  predicate CoalescerInvariant(setup: Setup, id: string, t: Tracking, clock: int) {
    && CoalescerRuns.TimerRole(setup.policy, setup.interval, t, clock)
    && t.latest.Valid() && t.latest.contributorId == id
    && t.latest.element.Identity() == setup.identity.Identity()
    && setup.interval > 0
  }

  /** Nothing older than what a contributor last sent is held anywhere downstream. */
  ghost predicate InOrder(p: Pipe, who: string) {
    && (who in p.coalescers || who in p.operator.Contributors() ==> who in p.newest)
    && (who in p.coalescers ==> p.coalescers[who].latest.observedAt == p.newest[who])
    && (who in p.operator.Contributors() ==> p.operator.Contributors()[who].observedAt <= p.newest[who])
  }

  function LiveIn(o: Operator, who: string): Option<Snapshot> {
    if who in o.Contributors() then Some(o.Contributors()[who]) else None
  }

  /**
   The lifecycle deadline of a contributor covers every accepted report, except while a refresh is pending;
   and it always covers the last report forwarded.
   */
  predicate Covers(ttlMillis: int, live: Option<Snapshot>, t: Option<Tracking>, arrivals: seq<Arrival>, who: string) {
    live.Some? ==>
      && live.value.processingDeadline.Some?
      && (t.Some? ==> live.value.processingDeadline.value >= t.value.lastForwarded + ttlMillis)
      && ((t.Some? && t.value.pending)
          || forall a | a in arrivals && a.contributorId == who ::
               live.value.processingDeadline.value >= a.at + ttlMillis)
  }

  predicate DeadlineCovers(setup: Setup, p: Pipe, who: string)
    requires setup.Valid()
  {
    Covers(setup.TtlMillis(), LiveIn(p.operator, who), TrackingOf(p, who), p.arrivals, who)
  }

  ghost predicate Invariant(setup: Setup, p: Pipe) {
    && setup.Valid() && p.clock >= 0
    && LifecycleRuns.Invariant(setup.identity.id, p.operator)
    && SameElement(setup, p.operator)
    && (forall id | id in p.coalescers :: CoalescerInvariant(setup, id, p.coalescers[id], p.clock))
    && forall a | a in p.arrivals :: a.at <= p.clock
  }

  /** Additionally for one contributor whose observation times do not go backwards. */
  ghost predicate InvariantFor(setup: Setup, p: Pipe, who: string) {
    Invariant(setup, p) && InOrder(p, who) && DeadlineCovers(setup, p, who)
  }

  predicate NotBackwards(p: Pipe, who: string, input: Input) {
    input.Receipt? && input.contribution.contributorId == who && who in p.newest ==>
      input.contribution.observedAt >= p.newest[who]
  }

  lemma InvariantRunnable(setup: Setup, p: Pipe)
    requires Invariant(setup, p)
    ensures Runnable(setup, p)
  {
  }

  // ----- the operator's side of a step -----

  lemma NoConflict(setup: Setup, o: Operator, e: Element)
    requires o.state.Some? ==> WellFormed(o.state.value)
    requires SameElement(setup, o) && e.Identity() == setup.identity.Identity()
    ensures o.state.Some? ==> !Conflicts(o.state.value, e)
  {
    if o.state.Some? {
      var id :| id in o.state.value.contributors;
      assert o.Contributors()[id].element.Identity() == e.Identity();
      AnyIdentity(o.state.value.elementId, o.state.value.contributors, id);
    }
  }

  lemma ReportsAccepted(setup: Setup, o: Operator, c: Contribution, now: Instant)
    requires setup.Valid() && LifecycleRuns.Invariant(setup.identity.id, o) && SameElement(setup, o)
    requires c.element.Identity() == setup.identity.Identity()
    ensures setup.policy.TtlSeconds(c.element) == setup.policy.TtlSeconds(setup.identity)
    ensures c.element.id == setup.identity.id
    ensures Report(setup.policy, o, c, now).Success?
  {
    setup.policy.TtlOfIdentity(c.element, setup.identity);
    assert c.element.Identity().id == c.element.id && setup.identity.Identity().id == setup.identity.id;
    NoConflict(setup, o, c.element);
    assert Reference(setup.policy, o.state, c, now).Success?;
  }

  /** The operator before and after a coalescer's output reached it. */
  ghost predicate Delivered(setup: Setup, before: Operator, after: Operator, output: Option<Contribution>, now: Instant)
    requires setup.Valid()
  {
    && LifecycleRuns.Invariant(setup.identity.id, after)
    && SameElement(setup, after)
    && after.Contributors() == (
      if output.None? || Stale(before.Contributors(), output.value) then before.Contributors()
      else before.Contributors()[output.value.contributorId :=
        Incoming(output.value, setup.policy.TtlSeconds(setup.identity).value, now)])
  }

  lemma DeliverOutcome(setup: Setup, o: Operator, output: Option<Contribution>, now: Instant)
    requires setup.Valid() && LifecycleRuns.Invariant(setup.identity.id, o) && SameElement(setup, o)
    requires output.Some? ==> output.value.Valid() && output.value.element.Identity() == setup.identity.Identity()
    requires now.processingTime >= 0
    ensures Delivered(setup, o, Deliver(setup, o, output, now), output, now)
  {
    if output.Some? {
      var c := output.value;
      ReportsAccepted(setup, o, c, now);
      LifecycleRuns.ReportKeepsInvariant(setup.identity.id, setup.policy, o, c, now);
      assert LifecycleRuns.Step(setup.policy, o, LifecycleRuns.Observation(c, now)).0 == Deliver(setup, o, output, now);
      if Stale(o.Contributors(), c) {
        assert Report(setup.policy, o, c, now) == Success((o, None));
      } else {
        LifecycleRuns.AcceptedReport(setup.policy, o, c, now);
      }
    }
  }

  lemma ExpiryOutcome(setup: Setup, o: Operator, clock: Clock, wallClock: int)
    requires LifecycleRuns.Invariant(setup.identity.id, o) && SameElement(setup, o) && o.Timer(clock).Some?
    ensures var after := OperatorSteps.Fire(o, clock, o.Timer(clock).value, wallClock).0;
      && LifecycleRuns.Invariant(setup.identity.id, after) && SameElement(setup, after)
      && after.Contributors() == Survivors(o.Contributors(), clock, ExpiryTime(clock, o.Timer(clock).value))
  {
    LifecycleRuns.TimerNeedsContributors(o, clock);
    LifecycleRuns.FireKeepsInvariant(setup.identity.id, o, clock, o.Timer(clock).value, wallClock);
    LifecycleRuns.FireOutcome(o, clock, o.Timer(clock).value, wallClock);
  }

  // ----- the coalescer's side of a step -----

  lemma CoalesceOutcome(setup: Setup, t: Option<Tracking>, c: Contribution, clock: int, now: int)
    requires setup.Valid() && now >= clock && c.Valid() && c.element.Identity() == setup.identity.Identity()
    requires t.Some? ==> CoalescerInvariant(setup, c.contributorId, t.value, clock)
    ensures setup.policy.TtlSeconds(c.element) == setup.policy.TtlSeconds(setup.identity)
    ensures Coalesce(setup, t, c, now).Some?
    ensures var (next, output) := Coalesce(setup, t, c, now).value;
      && (next.Some? ==> CoalescerInvariant(setup, c.contributorId, next.value, now))
      && (output.Some? ==> output.value == c)
  {
    setup.policy.TtlOfIdentity(c.element, setup.identity);
  }

  lemma RefreshOutcome(setup: Setup, t: Tracking, id: string, clock: int, now: int)
    requires setup.Valid() && setup.interval < setup.TtlMillis() && clock <= now && t.timer <= now
    requires CoalescerInvariant(setup, id, t, clock)
    ensures setup.policy.TtlSeconds(t.latest.element) == setup.policy.TtlSeconds(setup.identity)
    ensures CoalescerSteps.Fire(setup.policy, Some(t), t.timer) ==
      if t.pending then
        (Some(t.(lastForwarded := t.timer, pending := false, timer := t.lastSeen + setup.TtlMillis())), Some(t.latest))
      else (None, None)
    ensures t.pending ==> CoalescerInvariant(
      setup, id, t.(lastForwarded := t.timer, pending := false, timer := t.lastSeen + setup.TtlMillis()), now)
  {
    setup.policy.TtlOfIdentity(t.latest.element, setup.identity);
  }

  // ----- every step keeps the invariant -----

  /** One contributor's coalescer moved and its output, if any, reached the operator. */
  ghost predicate Moved(
    setup: Setup, p: Pipe, q: Pipe, id: string, next: Option<Tracking>, output: Option<Contribution>, now: Instant)
    requires setup.Valid()
  {
    && q.clock == now.processingTime
    && q.coalescers == WithTracking(p.coalescers, id, next)
    && Delivered(setup, p.operator, q.operator, output, now)
  }

  lemma MovedKeepsInvariant(
    setup: Setup, p: Pipe, q: Pipe, id: string, next: Option<Tracking>, output: Option<Contribution>, now: Instant)
    requires Invariant(setup, p) && Moved(setup, p, q, id, next, output, now) && now.processingTime >= p.clock
    requires next.Some? ==> CoalescerInvariant(setup, id, next.value, now.processingTime)
    requires forall a | a in q.arrivals :: a in p.arrivals || a.at == now.processingTime
    ensures Invariant(setup, q)
  {
    forall other | other in q.coalescers ensures CoalescerInvariant(setup, other, q.coalescers[other], q.clock) {
      if other != id { assert q.coalescers[other] == p.coalescers[other]; }
    }
  }

  lemma ReceiptMoves(setup: Setup, p: Pipe, c: Contribution, now: Instant)
    requires Invariant(setup, p) && Enabled(setup, p, Receipt(c), now)
    ensures Runnable(setup, p)
    ensures Coalesce(setup, TrackingOf(p, c.contributorId), c, now.processingTime).Some?
    ensures var (next, output) := Coalesce(setup, TrackingOf(p, c.contributorId), c, now.processingTime).value;
      && (next.Some? ==> CoalescerInvariant(setup, c.contributorId, next.value, now.processingTime))
      && (output.Some? ==> output.value == c)
      && Moved(setup, p, Step(setup, p, Receipt(c), now), c.contributorId, next, output, now)
  {
    CoalesceOutcome(setup, TrackingOf(p, c.contributorId), c, p.clock, now.processingTime);
    var (next, output) := Coalesce(setup, TrackingOf(p, c.contributorId), c, now.processingTime).value;
    DeliverOutcome(setup, p.operator, output, now);
  }

  lemma RefreshMoves(setup: Setup, p: Pipe, id: string, now: Instant)
    requires Invariant(setup, p) && Enabled(setup, p, Refresh(id), now)
    requires setup.interval < setup.TtlMillis()
    ensures Runnable(setup, p)
    ensures var (next, output) := CoalescerSteps.Fire(setup.policy, Some(p.coalescers[id]), p.coalescers[id].timer);
      && (next.Some? ==> CoalescerInvariant(setup, id, next.value, now.processingTime))
      && Moved(setup, p, Step(setup, p, Refresh(id), now), id, next, output, now)
  {
    var t := p.coalescers[id];
    RefreshOutcome(setup, t, id, p.clock, now.processingTime);
    DeliverOutcome(setup, p.operator, if t.pending then Some(t.latest) else None, now);
  }

  lemma ReceiptKeepsInvariant(setup: Setup, p: Pipe, c: Contribution, now: Instant)
    requires Invariant(setup, p) && Enabled(setup, p, Receipt(c), now)
    ensures Runnable(setup, p) && Invariant(setup, Step(setup, p, Receipt(c), now))
  {
    ReceiptMoves(setup, p, c, now);
    var (next, output) := Coalesce(setup, TrackingOf(p, c.contributorId), c, now.processingTime).value;
    MovedKeepsInvariant(setup, p, Step(setup, p, Receipt(c), now), c.contributorId, next, output, now);
  }

  lemma RefreshKeepsInvariant(setup: Setup, p: Pipe, id: string, now: Instant)
    requires Invariant(setup, p) && Enabled(setup, p, Refresh(id), now)
    requires setup.interval < setup.TtlMillis()
    ensures Runnable(setup, p) && Invariant(setup, Step(setup, p, Refresh(id), now))
  {
    RefreshMoves(setup, p, id, now);
    var (next, output) := CoalescerSteps.Fire(setup.policy, Some(p.coalescers[id]), p.coalescers[id].timer);
    MovedKeepsInvariant(setup, p, Step(setup, p, Refresh(id), now), id, next, output, now);
  }

  lemma ExpiryKeepsInvariant(setup: Setup, p: Pipe, clock: Clock, now: Instant)
    requires Invariant(setup, p) && p.operator.Timer(clock).Some? && now.processingTime >= p.clock
    ensures Invariant(setup, p.(
      clock := now.processingTime,
      operator := OperatorSteps.Fire(p.operator, clock, p.operator.Timer(clock).value, now.wallClock).0))
  {
    ExpiryOutcome(setup, p.operator, clock, now.wallClock);
    forall id | id in p.coalescers ensures CoalescerInvariant(setup, id, p.coalescers[id], now.processingTime) {
    }
  }

  lemma StepKeepsInvariant(setup: Setup, p: Pipe, input: Input, now: Instant)
    requires Invariant(setup, p) && Enabled(setup, p, input, now)
    requires setup.interval < setup.TtlMillis()
    ensures Runnable(setup, p) && Invariant(setup, Step(setup, p, input, now))
  {
    InvariantRunnable(setup, p);
    match input
    case Receipt(c) => ReceiptKeepsInvariant(setup, p, c, now);
    case Refresh(id) => RefreshKeepsInvariant(setup, p, id, now);
    case ProcessingExpiry => ExpiryKeepsInvariant(setup, p, ProcessingTime, now);
    case EventExpiry => ExpiryKeepsInvariant(setup, p, EventTime, now);
  }

  // ----- deadlines cover reports -----

  /** The bookkeeping of a receipt. */
  predicate Recorded(p: Pipe, q: Pipe, c: Contribution, now: Instant) {
    && q.arrivals == p.arrivals +
      (if Older(TrackingOf(p, c.contributorId), c) then [] else [Arrival(c.contributorId, now.processingTime)])
    && q.newest == p.newest[c.contributorId :=
      if c.contributorId in p.newest then Max(p.newest[c.contributorId], c.observedAt) else c.observedAt]
  }

  /** Ignored, held back or sent on, as seen by the contributor's tracking. */
  predicate Shaped(
    t: Option<Tracking>, next: Option<Tracking>, output: Option<Contribution>, c: Contribution, now: int)
  {
    || (output.None? && next == t && Older(t, c))
    || (output.None? && next.Some? && next.value.pending
        && t.Some? && next.value.lastForwarded == t.value.lastForwarded)
    || (output == Some(c) && (next.Some? ==> next.value.lastForwarded <= now))
  }

  lemma CoalesceShape(setup: Setup, t: Option<Tracking>, c: Contribution, now: int)
    requires setup.Valid() && setup.policy.TtlSeconds(c.element).Some?
    requires t.Some? ==> t.value.lastForwarded <= now && setup.interval > 0
    ensures Coalesce(setup, t, c, now).Some?
    ensures Shaped(t, Coalesce(setup, t, c, now).value.0, Coalesce(setup, t, c, now).value.1, c, now)
  {
  }

  lemma LiveAfterOutput(
    setup: Setup, before: Operator, after: Operator, output: Option<Contribution>, now: Instant, who: string)
    requires setup.Valid() && Delivered(setup, before, after, output, now)
    requires output.Some? ==> output.value.contributorId == who && !Stale(before.Contributors(), output.value)
    ensures LiveIn(after, who) == if output.None? then LiveIn(before, who)
      else Some(Incoming(output.value, setup.policy.TtlSeconds(setup.identity).value, now))
  {
  }

  /** A contributor that does not go backwards is never stale at the operator. */
  lemma InOrderNotStale(p: Pipe, c: Contribution)
    requires InOrder(p, c.contributorId) && NotBackwards(p, c.contributorId, Receipt(c))
    ensures !Stale(p.operator.Contributors(), c)
  {
  }

  lemma ReceiptKeepsOrder(
    setup: Setup, p: Pipe, q: Pipe, c: Contribution, next: Option<Tracking>,
    output: Option<Contribution>, now: Instant, who: string)
    requires InvariantFor(setup, p, who) && NotBackwards(p, who, Receipt(c)) && now.processingTime >= p.clock
    requires Coalesce(setup, TrackingOf(p, c.contributorId), c, now.processingTime) == Some((next, output))
    requires Moved(setup, p, q, c.contributorId, next, output, now) && Recorded(p, q, c, now)
    requires setup.policy.TtlSeconds(c.element) == setup.policy.TtlSeconds(setup.identity)
    ensures InOrder(q, who)
  {
    var t := TrackingOf(p, c.contributorId);
    assert t.Some? ==> CoalescerInvariant(setup, c.contributorId, t.value, p.clock);
    CoalesceShape(setup, t, c, now.processingTime);
    if c.contributorId != who {
      assert LiveIn(q.operator, who) == LiveIn(p.operator, who);
      assert TrackingOf(q, who) == TrackingOf(p, who);
    } else {
      InOrderNotStale(p, c);
      LiveAfterOutput(setup, p.operator, q.operator, output, now, who);
      assert TrackingOf(q, who) == next;
    }
  }

  lemma OtherReceiptCovers(setup: Setup, p: Pipe, q: Pipe, c: Contribution, now: Instant, who: string)
    requires setup.Valid() && DeadlineCovers(setup, p, who) && Recorded(p, q, c, now) && c.contributorId != who
    requires LiveIn(q.operator, who) == LiveIn(p.operator, who) && TrackingOf(q, who) == TrackingOf(p, who)
    ensures DeadlineCovers(setup, q, who)
  {
    MoreArrivals(setup.TtlMillis(), LiveIn(p.operator, who), TrackingOf(p, who), p.arrivals, q.arrivals, who);
  }

  lemma OtherStays(
    setup: Setup, p: Pipe, q: Pipe, id: string, next: Option<Tracking>, output: Option<Contribution>, now: Instant,
    who: string)
    requires setup.Valid() && Moved(setup, p, q, id, next, output, now) && id != who
    requires output.Some? ==> output.value.contributorId == id
    ensures LiveIn(q.operator, who) == LiveIn(p.operator, who) && TrackingOf(q, who) == TrackingOf(p, who)
  {
  }

  lemma MoreArrivals(
    ttl: int, live: Option<Snapshot>, t: Option<Tracking>, before: seq<Arrival>, after: seq<Arrival>, who: string)
    requires Covers(ttl, live, t, before, who)
    requires forall a | a in after && a.contributorId == who :: a in before
    ensures Covers(ttl, live, t, after, who)
  {
  }

  /** A contributor's own report: held back, or delivered with a deadline a lifetime from now. */
  lemma OwnReportCovers(
    ttl: int, live: Option<Snapshot>, after: Option<Snapshot>, t: Option<Tracking>, next: Option<Tracking>,
    before: seq<Arrival>, arrivals: seq<Arrival>, now: int, who: string)
    requires Covers(ttl, live, t, before, who)
    requires forall a | a in before :: a.at <= now
    requires
      || (next == t && after == live && arrivals == before)
      || (next.Some? && next.value.pending && t.Some?
          && next.value.lastForwarded == t.value.lastForwarded && after == live)
      || (after.Some? && after.value.processingDeadline == Some(now + ttl)
          && (next.Some? ==> next.value.lastForwarded <= now) && forall a | a in arrivals :: a.at <= now)
    ensures Covers(ttl, after, next, arrivals, who)
  {
  }

  lemma OwnReceiptCovers(
    setup: Setup, p: Pipe, q: Pipe, c: Contribution, next: Option<Tracking>, output: Option<Contribution>, now: Instant)
    requires setup.Valid() && DeadlineCovers(setup, p, c.contributorId) && Recorded(p, q, c, now)
    requires forall a | a in p.arrivals :: a.at <= now.processingTime
    requires Shaped(TrackingOf(p, c.contributorId), next, output, c, now.processingTime)
    requires TrackingOf(q, c.contributorId) == next
    requires LiveIn(q.operator, c.contributorId) == if output.None? then LiveIn(p.operator, c.contributorId)
      else Some(Incoming(c, setup.policy.TtlSeconds(setup.identity).value, now))
    ensures DeadlineCovers(setup, q, c.contributorId)
  {
    var who := c.contributorId;
    assert forall a | a in q.arrivals :: a.at <= now.processingTime;
    OwnReportCovers(setup.TtlMillis(), LiveIn(p.operator, who), LiveIn(q.operator, who), TrackingOf(p, who), next,
                    p.arrivals, q.arrivals, now.processingTime, who);
  }

  lemma ReceiptCovers(
    setup: Setup, p: Pipe, q: Pipe, c: Contribution, next: Option<Tracking>,
    output: Option<Contribution>, now: Instant, who: string)
    requires InvariantFor(setup, p, who) && NotBackwards(p, who, Receipt(c)) && now.processingTime >= p.clock
    requires Coalesce(setup, TrackingOf(p, c.contributorId), c, now.processingTime) == Some((next, output))
    requires Moved(setup, p, q, c.contributorId, next, output, now) && Recorded(p, q, c, now)
    requires setup.policy.TtlSeconds(c.element) == setup.policy.TtlSeconds(setup.identity)
    ensures InOrder(q, who) && DeadlineCovers(setup, q, who)
  {
    ReceiptKeepsOrder(setup, p, q, c, next, output, now, who);
    var t := TrackingOf(p, c.contributorId);
    assert t.Some? ==> CoalescerInvariant(setup, c.contributorId, t.value, p.clock);
    CoalesceShape(setup, t, c, now.processingTime);
    if c.contributorId != who {
      OtherStays(setup, p, q, c.contributorId, next, output, now, who);
      OtherReceiptCovers(setup, p, q, c, now, who);
    } else {
      InOrderNotStale(p, c);
      LiveAfterOutput(setup, p.operator, q.operator, output, now, who);
      OwnReceiptCovers(setup, p, q, c, next, output, now);
    }
  }

  lemma RefreshCovers(
    setup: Setup, p: Pipe, q: Pipe, id: string, next: Option<Tracking>,
    output: Option<Contribution>, now: Instant, who: string)
    requires InvariantFor(setup, p, who) && now.processingTime >= p.clock && id in p.coalescers
    requires setup.interval < setup.TtlMillis() && p.coalescers[id].timer <= now.processingTime
    requires CoalescerSteps.Fire(setup.policy, Some(p.coalescers[id]), p.coalescers[id].timer) == (next, output)
    requires Moved(setup, p, q, id, next, output, now)
    requires q.arrivals == p.arrivals && q.newest == p.newest
    ensures InOrder(q, who) && DeadlineCovers(setup, q, who)
  {
    RefreshOutcome(setup, p.coalescers[id], id, p.clock, now.processingTime);
    if id != who { assert who in q.coalescers <==> who in p.coalescers; }
  }

  lemma ExpiryCovers(setup: Setup, p: Pipe, q: Pipe, clock: Clock, timestamp: int, who: string)
    requires InvariantFor(setup, p, who)
    requires q == p.(clock := q.clock, operator := q.operator)
    requires q.operator.Contributors() == Survivors(p.operator.Contributors(), clock, timestamp)
    ensures InOrder(q, who) && DeadlineCovers(setup, q, who)
  {
  }

  lemma StepCovers(setup: Setup, p: Pipe, input: Input, now: Instant, who: string)
    requires InvariantFor(setup, p, who) && Enabled(setup, p, input, now) && NotBackwards(p, who, input)
    requires setup.interval < setup.TtlMillis()
    ensures Runnable(setup, p) && InvariantFor(setup, Step(setup, p, input, now), who)
  {
    StepKeepsInvariant(setup, p, input, now);
    var q := Step(setup, p, input, now);
    match input
    case Receipt(c) =>
      ReceiptMoves(setup, p, c, now);
      CoalesceOutcome(setup, TrackingOf(p, c.contributorId), c, p.clock, now.processingTime);
      var (next, output) := Coalesce(setup, TrackingOf(p, c.contributorId), c, now.processingTime).value;
      ReceiptCovers(setup, p, q, c, next, output, now, who);
    case Refresh(id) =>
      RefreshMoves(setup, p, id, now);
      var (next, output) := CoalescerSteps.Fire(setup.policy, Some(p.coalescers[id]), p.coalescers[id].timer);
      RefreshCovers(setup, p, q, id, next, output, now, who);
    case ProcessingExpiry =>
      ExpiryOutcome(setup, p.operator, ProcessingTime, now.wallClock);
      ExpiryCovers(setup, p, q, ProcessingTime, ExpiryTime(ProcessingTime, p.operator.processingTimer.value), who);
    case EventExpiry =>
      ExpiryOutcome(setup, p.operator, EventTime, now.wallClock);
      ExpiryCovers(setup, p, q, EventTime, ExpiryTime(EventTime, p.operator.eventTimer.value), who);
  }
}

/** Whole runs of one lifecycle key: reports and timer callbacks in any order the runtime allows. */
module LifecycleRuns {
  import opened Wrappers
  import opened Model
  import opened LifecyclePolicy
  import opened GraphLifecycle
  import opened Timers
  import opened OperatorSteps

  datatype Input =
    | Observation(contribution: Contribution, now: Instant)
    | Callback(clock: Clock, timestamp: int, wallClock: int)

  // ----- one step -----

  predicate PositiveTimes(s: Snapshot) {
    s.observedAt > 0
    && (s.eventDeadline.Some? ==> s.eventDeadline.value > 0)
    && (s.processingDeadline.Some? ==> s.processingDeadline.value >= 0)
  }

  /** The wake-up on a clock is no later than any contributor's timer, on a whole second, and wanted by someone. */
  ghost predicate TimerInvariant(o: Operator, clock: Clock) {
    var m := o.Contributors();
    && (forall id | id in m && TimerFor(m[id], clock).Some? ::
          o.Timer(clock).Some? && o.Timer(clock).value <= TimerFor(m[id], clock).value)
    && (o.Timer(clock).Some? ==>
          o.Timer(clock).value % MILLIS_PER_SECOND == 0 && exists id :: id in m && TimerFor(m[id], clock).Some?)
  }

  ghost predicate Invariant(key: string, o: Operator) {
    && (o.state.Some? ==> o.state.value.elementId == key && WellFormed(o.state.value))
    && (forall id | id in o.Contributors() :: PositiveTimes(o.Contributors()[id]))
    && TimerInvariant(o, EventTime) && TimerInvariant(o, ProcessingTime)
  }

  /** Reports are addressed to this key on a nonnegative clock; only the registered timer can fire. */
  predicate Enabled(key: string, o: Operator, input: Input) {
    match input
    case Observation(c, now) => c.Valid() && c.element.id == key && now.processingTime >= 0
    case Callback(clock, timestamp, _) => o.Timer(clock) == Some(timestamp)
  }

  /** A rejected report changes nothing and emits nothing. */
  ghost function Step(policy: Policy, o: Operator, input: Input): (Operator, Option<Event>)
    requires o.state.Some? ==> o.state.value.contributors != map[]
  {
    match input
    case Observation(c, now) =>
      (match Report(policy, o, c, now) case Success(r) => r case Failure(_) => (o, None))
    case Callback(clock, timestamp, wallClock) => Fire(o, clock, timestamp, wallClock)
  }

  lemma EarliestCovers(m: Contributors, clock: Clock)
    ensures forall id | id in m && TimerFor(m[id], clock).Some? ::
      Earliest(m, clock).Some? && Earliest(m, clock).value <= TimerFor(m[id], clock).value
    ensures Earliest(m, clock).Some? ==> exists id :: id in m && TimerFor(m[id], clock) == Earliest(m, clock)
  {
    forall id | id in m && TimerFor(m[id], clock).Some?
      ensures Earliest(m, clock).Some? && Earliest(m, clock).value <= TimerFor(m[id], clock).value
    {
      assert TimerFor(m[id], clock).value in TimersOf(m, clock);
    }
  }

  lemma TimerOnWholeSecond(s: Snapshot, clock: Clock)
    requires TimerFor(s, clock).Some?
    ensures TimerFor(s, clock).value % MILLIS_PER_SECOND == 0
  {
  }

  lemma ExactTimerInvariant(o: Operator, clock: Clock)
    requires o.Timer(clock) == Earliest(o.Contributors(), clock)
    ensures TimerInvariant(o, clock)
  {
    var m := o.Contributors();
    EarliestCovers(m, clock);
    if o.Timer(clock).Some? {
      var id :| id in m && TimerFor(m[id], clock) == o.Timer(clock);
      TimerOnWholeSecond(m[id], clock);
    }
  }

  /** A refresh that only moves the wake-up earlier keeps it ahead of every contributor. */
  lemma AdvancedTimerInvariant(before: Operator, after: Operator, id: string, s: Snapshot, clock: Clock)
    requires TimerInvariant(before, clock)
    requires after.Contributors() == before.Contributors()[id := s] && TimerFor(s, clock).Some?
    requires after.Timer(clock) == EarlierOf(before.Timer(clock), TimerFor(s, clock))
    ensures TimerInvariant(after, clock)
  {
    TimerOnWholeSecond(s, clock);
    assert id in after.Contributors();
  }

  /** What an accepted report does to the contributors and to each wake-up. */
  lemma AcceptedReport(policy: Policy, o: Operator, c: Contribution, now: Instant)
    requires o.state.Some? ==> WellFormed(o.state.value)
    requires policy.Valid() && Report(policy, o, c, now).Success? && !Stale(o.Contributors(), c)
    ensures policy.TtlSeconds(c.element).Some?
    ensures var after := Report(policy, o, c, now).value.0;
      var s := Incoming(c, policy.TtlSeconds(c.element).value, now);
      && after.Contributors() == o.Contributors()[c.contributorId := s]
      && after.state.Some? && WellFormed(after.state.value) && after.state.value.elementId == c.element.id
      && after.eventTimer == TimerAfterReport(o, c, after.Contributors(), EventTime)
      && after.processingTimer == TimerAfterReport(o, c, after.Contributors(), ProcessingTime)
  {
    var ttl := policy.TtlSeconds(c.element).value;
    var applied := Applied(o.state, c, ttl, now.WatermarkNanos(), now.processingTime, now.wallClock);
    assert Reference(policy, o.state, c, now) == applied;
    AppliedWellFormed(o.state, c, ttl, now.WatermarkNanos(), now.processingTime, now.wallClock);
    var after := Report(policy, o, c, now).value.0;
    assert after.state == applied.value.next;
    assert after.Contributors() == o.Contributors()[c.contributorId := Incoming(c, ttl, now)];
  }

  /** Whether two elements agree on everything but attributes. */
  predicate SameElement(a: Element, b: Element) {
    && a.id == b.id && a.semanticType == b.semanticType && (a.Node? <==> b.Node?)
    && (a.Edge? && b.Edge? ==> a.sourceId == b.sourceId && a.targetId == b.targetId)
  }

  /**
   What becomes of a report: ignored when its contributor has a strictly newer one, otherwise refused without a
   lifetime or when some contributor describes another element, otherwise accepted.
   */
  lemma ReportVerdict(policy: Policy, o: Operator, c: Contribution, now: Instant)
    requires policy.Valid() && (o.state.Some? ==> WellFormed(o.state.value))
    ensures var m, r := o.Contributors(), Report(policy, o, c, now);
      if c.contributorId in m && m[c.contributorId].observedAt > c.observedAt then r == Success((o, None))
      else if policy.TtlSeconds(c.element).None? then r == Failure(NoTypePrefix)
      else if exists id :: id in m && !SameElement(m[id].element, c.element) then r == Failure(IdentityConflict)
      else r.Success?
  {
    var m := o.Contributors();
    if o.state.Some? {
      var s := o.state.value;
      forall id | id in m ensures Conflicts(s, c.element) <==> !SameElement(m[id].element, c.element) {
        AnyIdentity(s.elementId, m, id);
        SameIdentity(m[id].element, c.element);
      }
      var first :| first in m;
    }
  }

  lemma SameIdentity(a: Element, b: Element)
    ensures a.Identity() == b.Identity() <==> SameElement(a, b)
  {
    assert a.Identity().id == a.id && a.Identity().semanticType == a.semanticType;
    assert b.Identity().id == b.id && b.Identity().semanticType == b.semanticType;
    if a.Edge? && b.Edge? {
      assert a.Identity().sourceId == a.sourceId && a.Identity().targetId == a.targetId;
      assert b.Identity().sourceId == b.sourceId && b.Identity().targetId == b.targetId;
    }
  }

  /** When a report's life starts in event time: at its observation or the watermark, if that is later. */
  function EventStart(c: Contribution, now: Instant): int {
    if now.watermark > 0 && now.watermark * 1_000_000 > c.observedAt then now.watermark * 1_000_000 else c.observedAt
  }

  /** A snapshot of the report that lives `seconds` on both clocks: nanoseconds of event time, milliseconds from now. */
  predicate LivesFor(s: Snapshot, c: Contribution, seconds: int, now: Instant) {
    && s.observedAt == c.observedAt && s.element == c.element
    && s.eventDeadline == Some(EventStart(c, now) + seconds * 1_000_000_000)
    && s.processingDeadline == Some(now.processingTime + seconds * 1_000)
  }

  lemma IncomingLivesFor(c: Contribution, seconds: int, now: Instant)
    requires c.observedAt > 0
    ensures LivesFor(Incoming(c, seconds, now), c, seconds, now)
  {
  }

  /** An accepted report is remembered as it came, for its element's lifetime on both clocks; the others stay. */
  lemma ReportLifetime(policy: Policy, o: Operator, c: Contribution, now: Instant)
    requires o.state.Some? ==> WellFormed(o.state.value)
    requires policy.Valid() && c.Valid() && Report(policy, o, c, now).Success?
    requires c.contributorId in o.Contributors() ==> c.observedAt >= o.Contributors()[c.contributorId].observedAt
    ensures policy.TtlSeconds(c.element).Some?
    ensures var before, after := o.Contributors(), Report(policy, o, c, now).value.0.Contributors();
      && c.contributorId in after && after == before[c.contributorId := after[c.contributorId]]
      && LivesFor(after[c.contributorId], c, policy.TtlSeconds(c.element).value, now)
  {
    AcceptedReport(policy, o, c, now);
    IncomingLivesFor(c, policy.TtlSeconds(c.element).value, now);
  }

  /** Both wake-ups after an accepted report. */
  lemma ReportKeepsTimer(before: Operator, after: Operator, c: Contribution, s: Snapshot, clock: Clock)
    requires TimerInvariant(before, clock) && TimerFor(s, clock).Some?
    requires after.Contributors() == before.Contributors()[c.contributorId := s]
    requires after.Timer(clock) == TimerAfterReport(before, c, after.Contributors(), clock)
    ensures TimerInvariant(after, clock)
  {
    if Loses(before.Contributors(), c) { ExactTimerInvariant(after, clock); }
    else { AdvancedTimerInvariant(before, after, c.contributorId, s, clock); }
  }

  lemma AcceptedKeepsInvariant(key: string, policy: Policy, o: Operator, c: Contribution, now: Instant)
    requires Invariant(key, o) && policy.Valid() && Enabled(key, o, Observation(c, now))
    requires Report(policy, o, c, now).Success? && !Stale(o.Contributors(), c)
    ensures Invariant(key, Report(policy, o, c, now).value.0)
  {
    var after := Report(policy, o, c, now).value.0;
    AcceptedReport(policy, o, c, now);
    var s := Incoming(c, policy.TtlSeconds(c.element).value, now);
    assert PositiveTimes(s);
    ReportKeepsTimer(o, after, c, s, EventTime);
    ReportKeepsTimer(o, after, c, s, ProcessingTime);
  }

  lemma ReportKeepsInvariant(key: string, policy: Policy, o: Operator, c: Contribution, now: Instant)
    requires Invariant(key, o) && policy.Valid() && Enabled(key, o, Observation(c, now))
    ensures Invariant(key, Step(policy, o, Observation(c, now)).0)
  {
    if Report(policy, o, c, now).Success? {
      if Stale(o.Contributors(), c) {
        assert Report(policy, o, c, now).value.0 == o;
      } else {
        AcceptedKeepsInvariant(key, policy, o, c, now);
      }
    }
  }

  lemma TimerNeedsContributors(o: Operator, clock: Clock)
    requires TimerInvariant(o, clock) && o.Timer(clock).Some?
    ensures o.state.Some? && o.Contributors() != map[]
  {
    var id :| id in o.Contributors() && TimerFor(o.Contributors()[id], clock).Some?;
  }

  /** What a timer callback does to the contributors and to both wake-ups. */
  lemma FireOutcome(o: Operator, clock: Clock, timestamp: int, wallClock: int)
    requires o.state.Some? && WellFormed(o.state.value)
    ensures var after := Fire(o, clock, timestamp, wallClock).0;
      && after.Contributors() == Survivors(o.Contributors(), clock, ExpiryTime(clock, timestamp))
      && (after.state.Some? ==> WellFormed(after.state.value) && after.state.value.elementId == o.state.value.elementId)
      && after.eventTimer == Earliest(after.Contributors(), EventTime)
      && after.processingTimer == Earliest(after.Contributors(), ProcessingTime)
  {
    var t := Expired(o.state.value, clock, ExpiryTime(clock, timestamp), wallClock);
    ExpiredWellFormed(o.state.value, clock, ExpiryTime(clock, timestamp), wallClock);
    var after := Fire(o, clock, timestamp, wallClock).0;
    assert after.state == t.Next(o.state);
  }

  lemma FireKeepsInvariant(key: string, o: Operator, clock: Clock, timestamp: int, wallClock: int)
    requires Invariant(key, o) && o.Timer(clock) == Some(timestamp)
    ensures Invariant(key, Fire(o, clock, timestamp, wallClock).0)
  {
    TimerNeedsContributors(o, clock);
    FireOutcome(o, clock, timestamp, wallClock);
    var after := Fire(o, clock, timestamp, wallClock).0;
    ExactTimerInvariant(after, EventTime);
    ExactTimerInvariant(after, ProcessingTime);
  }

  // ----- runs -----

  /** The operator and everything it emitted after a sequence of inputs. */
  ghost function Run(policy: Policy, start: Operator, inputs: seq<Input>): (r: (Operator, seq<Event>))
    requires start.state.Some? ==> start.state.value.contributors != map[]
    ensures r.0.state.Some? ==> r.0.state.value.contributors != map[]
  {
    if inputs == [] then (start, [])
    else
      var before := Run(policy, start, inputs[..|inputs| - 1]);
      var (after, event) := Step(policy, before.0, inputs[|inputs| - 1]);
      StepNonempty(policy, before.0, inputs[|inputs| - 1]);
      (after, before.1 + if event.Some? then [event.value] else [])
  }

  lemma StepNonempty(policy: Policy, o: Operator, input: Input)
    requires o.state.Some? ==> o.state.value.contributors != map[]
    ensures var after := Step(policy, o, input).0;
      after.state.Some? ==> after.state.value.contributors != map[]
  {
  }

  ghost predicate Allowed(key: string, policy: Policy, start: Operator, inputs: seq<Input>)
    requires start.state.Some? ==> start.state.value.contributors != map[]
  {
    forall i | 0 <= i < |inputs| :: Enabled(key, Run(policy, start, inputs[..i]).0, inputs[i])
  }

  lemma AllowedPrefix(key: string, policy: Policy, start: Operator, inputs: seq<Input>)
    requires start.state.Some? ==> start.state.value.contributors != map[]
    requires inputs != [] && Allowed(key, policy, start, inputs)
    ensures Allowed(key, policy, start, inputs[..|inputs| - 1])
  {
    var front := inputs[..|inputs| - 1];
    forall i | 0 <= i < |front| ensures Enabled(key, Run(policy, start, front[..i]).0, front[i]) {
      assert front[..i] == inputs[..i];
    }
  }

  /** The invariant holds in every reachable state, from an empty key or any restored one. */
  lemma {:induction false} RunKeepsInvariant(key: string, policy: Policy, start: Operator, inputs: seq<Input>)
    requires policy.Valid() && Invariant(key, start) && Allowed(key, policy, start, inputs)
    ensures Invariant(key, Run(policy, start, inputs).0)
  {
    if inputs != [] {
      var front, last := inputs[..|inputs| - 1], inputs[|inputs| - 1];
      AllowedPrefix(key, policy, start, inputs);
      RunKeepsInvariant(key, policy, start, front);
      var before := Run(policy, start, front).0;
      assert Enabled(key, before, last);
      match last
      case Observation(c, now) => ReportKeepsInvariant(key, policy, before, c, now);
      case Callback(clock, timestamp, wallClock) => FireKeepsInvariant(key, before, clock, timestamp, wallClock);
    }
  }

  // ----- the event stream reconstructs the state -----

  function Folded(base: Option<Element>, events: seq<Event>): Option<Element> {
    if events == [] then base else Payload(events[|events| - 1])
  }

  ghost function Visible(s: Option<State>): Option<Element>
    requires s.Some? ==> s.value.contributors != map[]
  {
    if s.None? then None else Some(Merged(s.value.elementId, s.value.contributors))
  }

  function Payload(event: Event): Option<Element> {
    if event.Upsert? then Some(event.element) else None
  }

  /** No event repeats what is visible already: an upsert changes it, a delete follows something. */
  predicate NoRepeatAt(base: Option<Element>, events: seq<Event>, i: nat)
    requires i < |events|
  {
    Payload(events[i]) != Folded(base, events[..i])
  }

  predicate NoRepeats(base: Option<Element>, events: seq<Event>) {
    forall i | 0 <= i < |events| :: NoRepeatAt(base, events, i)
  }

  /** The id, hash and time of an event fit its payload, as the event constructors demand. */
  predicate WellFormedEvent(key: string, event: Event) {
    match event
    case Upsert(id, observedAt, _, hash, e) =>
      e.id == key && hash == PayloadHash(e) && observedAt > 0
      && id == EventId(UpsertOperation, key, observedAt, Some(hash))
    case Delete(id, elementId, observedAt, _) =>
      elementId == key && observedAt > 0 && id == EventId(DeleteOperation, key, observedAt, None)
  }

  /** A transition announces itself exactly when it changes what is visible, and with the new payload. */
  ghost predicate Announces(key: string, before: Option<State>, after: Option<State>, event: Option<Event>)
    requires before.Some? ==> before.value.contributors != map[]
  {
    && (after.Some? ==> after.value.contributors != map[])
    && (event.Some? <==> Visible(after) != Visible(before))
    && (event.Some? ==> WellFormedEvent(key, event.value) && Payload(event.value) == Visible(after))
  }

  lemma StepAnnounces(key: string, policy: Policy, o: Operator, input: Input)
    requires Invariant(key, o) && Enabled(key, o, input) && policy.Valid()
    ensures var (after, event) := Step(policy, o, input);
      Announces(key, o.state, after.state, event)
  {
    match input
    case Observation(c, now) =>
      ReportAnnounces(key, policy, o.state, c, now);
    case Callback(clock, timestamp, wallClock) =>
      TimerNeedsContributors(o, clock);
      ExpiryAnnounces(o.state.value, clock, ExpiryTime(clock, timestamp), wallClock);
  }

  /** A fresh merge announces itself when its hash is new. */
  lemma AnnounceAnnounces(key: string, s: Option<State>, m: Contributors, observedAt: int, wallClock: int)
    requires s.Some? ==> WellFormed(s.value) && s.value.elementId == key
    requires m != map[] && observedAt > 0
    ensures var t := Announce(s, key, m, Merged(key, m), observedAt, wallClock);
      Announces(key, s, t.next, t.event)
  {
  }

  lemma ReportAnnounces(key: string, policy: Policy, s: Option<State>, c: Contribution, now: Instant)
    requires s.Some? ==> WellFormed(s.value) && s.value.elementId == key
    requires c.Valid() && c.element.id == key
    ensures var r := Reference(policy, s, c, now);
      r.Success? ==> Announces(key, s, r.value.Next(s), r.value.Event())
  {
    var r := Reference(policy, s, c, now);
    if r.Success? && r.value.Changed? {
      var ttl := policy.TtlSeconds(c.element).value;
      var m := ContributorsOf(s)[c.contributorId := Incoming(c, ttl, now)];
      AnnounceAnnounces(key, s, m, c.observedAt, now.wallClock);
      assert r.value == Announce(s, key, m, Merged(key, m), c.observedAt, now.wallClock);
    }
  }

  lemma LatestEndPositive(m: Contributors, clock: Clock, timestamp: int)
    requires forall id | id in m :: PositiveTimes(m[id])
    requires Survivors(m, clock, timestamp) != m
    ensures LatestEnd(m, clock, timestamp) > 0
  {
    var id :| id in m && Due(m[id], clock, timestamp);
    assert EndOf(m[id]) in {0} + set other | other in m && Due(m[other], clock, timestamp) :: EndOf(m[other]);
  }

  lemma ExpiryAnnounces(s: State, clock: Clock, timestamp: int, wallClock: int)
    requires WellFormed(s) && forall id | id in s.contributors :: PositiveTimes(s.contributors[id])
    ensures var t := Expired(s, clock, timestamp, wallClock);
      Announces(s.elementId, Some(s), t.Next(Some(s)), t.Event())
  {
    var m := Survivors(s.contributors, clock, timestamp);
    if m != s.contributors {
      LatestEndPositive(s.contributors, clock, timestamp);
      var observedAt := LatestEnd(s.contributors, clock, timestamp);
      if m != map[] { AnnounceAnnounces(s.elementId, Some(s), m, observedAt, wallClock); }
    }
  }

  /** The event of a report carries the report's time; it is made now. */
  lemma ReportEventTime(policy: Policy, o: Operator, c: Contribution, now: Instant)
    requires o.state.Some? ==> o.state.value.contributors != map[]
    ensures var r := Report(policy, o, c, now);
      r.Success? && r.value.1.Some? ==>
        && r.value.1.value.Upsert?
        && r.value.1.value.observedAt == c.observedAt && r.value.1.value.emittedAt == now.wallClock
  {
  }

  /** The contributor's deadline on this clock, in nanoseconds or milliseconds, has come by the timer. */
  predicate HasExpired(s: Snapshot, clock: Clock, timestamp: int) {
    match clock
    case EventTime => s.eventDeadline.Some? && s.eventDeadline.value <= timestamp * 1_000_000
    case ProcessingTime => s.processingDeadline.Some? && s.processingDeadline.value <= timestamp
  }

  /** When an observation ends in event time: at its event deadline, or at once without one. */
  function EndsAt(s: Snapshot): int {
    match s.eventDeadline
    case Some(deadline) => deadline
    case None => s.observedAt
  }

  /** The latest end among what has expired. */
  ghost predicate IsLatestEnd(m: Contributors, clock: Clock, timestamp: int, latest: int) {
    && (forall id | id in m && HasExpired(m[id], clock, timestamp) :: EndsAt(m[id]) <= latest)
    && exists id :: id in m && HasExpired(m[id], clock, timestamp) && EndsAt(m[id]) == latest
  }

  /** The event of a callback carries the latest end among what expired; it is made now. */
  lemma ExpiryEventTime(o: Operator, clock: Clock, timestamp: int, wallClock: int)
    requires o.state.Some? && WellFormed(o.state.value)
    requires forall id | id in o.Contributors() :: PositiveTimes(o.Contributors()[id])
    ensures var event := Fire(o, clock, timestamp, wallClock).1;
      event.Some? ==>
        && event.value.emittedAt == wallClock
        && IsLatestEnd(o.Contributors(), clock, timestamp, event.value.observedAt)
  {
    var m, at := o.Contributors(), ExpiryTime(clock, timestamp);
    var event := Fire(o, clock, timestamp, wallClock).1;
    if event.Some? {
      assert event.value.observedAt == LatestEnd(m, clock, at) && event.value.emittedAt == wallClock;
      LatestEndOfExpired(m, clock, timestamp);
    }
  }

  lemma LatestEndOfExpired(m: Contributors, clock: Clock, timestamp: int)
    requires forall id | id in m :: PositiveTimes(m[id])
    requires Survivors(m, clock, ExpiryTime(clock, timestamp)) != m
    ensures IsLatestEnd(m, clock, timestamp, LatestEnd(m, clock, ExpiryTime(clock, timestamp)))
  {
    var at := ExpiryTime(clock, timestamp);
    LatestEndIsLatest(m, clock, at);
    assert forall id | id in m :: HasExpired(m[id], clock, timestamp) <==> Due(m[id], clock, at);
    assert forall id | id in m :: EndsAt(m[id]) == EndOf(m[id]);
  }

  lemma LatestEndIsLatest(m: Contributors, clock: Clock, timestamp: int)
    requires forall id | id in m :: PositiveTimes(m[id])
    requires Survivors(m, clock, timestamp) != m
    ensures forall id | id in m && Due(m[id], clock, timestamp) :: LatestEnd(m, clock, timestamp) >= EndOf(m[id])
    ensures exists id :: id in m && Due(m[id], clock, timestamp) && LatestEnd(m, clock, timestamp) == EndOf(m[id])
  {
    LatestEndPositive(m, clock, timestamp);
    var ends := set id | id in m && Due(m[id], clock, timestamp) :: EndOf(m[id]);
    assert LatestEnd(m, clock, timestamp) in {0} + ends;
    assert LatestEnd(m, clock, timestamp) in ends;
    forall id | id in m && Due(m[id], clock, timestamp) ensures LatestEnd(m, clock, timestamp) >= EndOf(m[id]) {
      assert EndOf(m[id]) in ends;
    }
  }

  lemma NoRepeatsAppend(base: Option<Element>, events: seq<Event>, event: Event)
    requires NoRepeats(base, events)
    requires Payload(event) != Folded(base, events)
    ensures NoRepeats(base, events + [event])
  {
    var all := events + [event];
    forall i | 0 <= i < |all| ensures NoRepeatAt(base, all, i) {
      assert all[..i] == events[..i];
      if i == |events| { assert events[..i] == events; } else { assert NoRepeatAt(base, events, i); }
    }
  }

  /** One more step that announces itself. */
  lemma FoldStep(
    base: Option<Element>, events: seq<Event>, before: Option<Element>, after: Option<Element>, event: Option<Event>)
    requires Folded(base, events) == before && NoRepeats(base, events)
    requires event.Some? <==> after != before
    requires event.Some? ==> Payload(event.value) == after
    ensures var all := events + (if event.Some? then [event.value] else []);
      Folded(base, all) == after && NoRepeats(base, all)
  {
    if event.Some? { NoRepeatsAppend(base, events, event.value); }
    else { assert events + [] == events; }
  }

  /** Folding the emitted events over what was visible at the start gives what is visible now. */
  lemma {:induction false} EventsReconstructState(key: string, policy: Policy, start: Operator, inputs: seq<Input>)
    requires policy.Valid() && Invariant(key, start) && Allowed(key, policy, start, inputs)
    ensures var (o, events) := Run(policy, start, inputs);
      && Folded(Visible(start.state), events) == Visible(o.state)
      && NoRepeats(Visible(start.state), events)
      && forall i | 0 <= i < |events| :: WellFormedEvent(key, events[i])
  {
    if inputs != [] {
      var front, last := inputs[..|inputs| - 1], inputs[|inputs| - 1];
      AllowedPrefix(key, policy, start, inputs);
      EventsReconstructState(key, policy, start, front);
      RunKeepsInvariant(key, policy, start, front);
      var (before, sofar) := Run(policy, start, front);
      assert Enabled(key, before, last);
      StepAnnounces(key, policy, before, last);
      var (after, event) := Step(policy, before, last);
      FoldStep(Visible(start.state), sofar, Visible(before.state), Visible(after.state), event);
    }
  }
}

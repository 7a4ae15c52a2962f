/** How long an accepted report keeps its contributor, on both clocks and over whole runs. */
module LifecycleLifetimes {
  import opened Wrappers
  import opened Model
  import opened LifecyclePolicy
  import opened GraphLifecycle
  import opened Timers
  import opened OperatorSteps
  import opened LifecycleRuns
  import LifecycleBounds

  /** Neither clock runs backwards from one report to the next. */
  predicate ClocksForward(inputs: seq<Input>) {
    forall i, j | 0 <= i < j < |inputs| && inputs[i].Observation? && inputs[j].Observation? ::
      inputs[i].now.watermark <= inputs[j].now.watermark && inputs[i].now.processingTime <= inputs[j].now.processingTime
  }

  ghost predicate Accepts(policy: Policy, o: Operator, c: Contribution, now: Instant)
    requires o.state.Some? ==> o.state.value.contributors != map[]
  {
    && Report(policy, o, c, now).Success?
    && (c.contributorId in o.Contributors() ==> c.observedAt >= o.Contributors()[c.contributorId].observedAt)
  }

  /** The snapshot is at least as new as the report, and lives at least as long on both clocks. */
  predicate Covers(policy: Policy, s: Snapshot, c: Contribution, now: Instant) {
    && s.observedAt >= c.observedAt
    && policy.TtlSeconds(c.element).Some? && policy.TtlSeconds(s.element) == policy.TtlSeconds(c.element)
    && var seconds := policy.TtlSeconds(c.element).value;
      && s.eventDeadline.Some? && s.eventDeadline.value >= EventStart(c, now) + seconds * 1_000_000_000
      && s.processingDeadline.Some? && s.processingDeadline.value >= now.processingTime + seconds * 1_000
  }

  /** A report is accepted only for the element that is there, which has one lifetime. */
  lemma SameLifetime(policy: Policy, o: Operator, c: Contribution, now: Instant, id: string)
    requires o.state.Some? ==> WellFormed(o.state.value)
    requires policy.Valid() && Accepts(policy, o, c, now) && id in o.Contributors()
    ensures policy.TtlSeconds(o.Contributors()[id].element) == policy.TtlSeconds(c.element)
  {
    var s := o.state.value;
    AnyIdentity(s.elementId, s.contributors, id);
    AcceptedReport(policy, o, c, now);
    assert !Conflicts(s, c.element);
    policy.TtlOfIdentity(s.contributors[id].element, c.element);
  }

  lemma LaterLivesLonger(policy: Policy, s: Snapshot, c: Contribution, now: Instant, d: Contribution, later: Instant)
    requires policy.TtlSeconds(d.element) == policy.TtlSeconds(c.element) && policy.TtlSeconds(c.element).Some?
    requires LivesFor(s, d, policy.TtlSeconds(d.element).value, later)
    requires d.observedAt >= c.observedAt
    requires now.watermark <= later.watermark && now.processingTime <= later.processingTime
    ensures Covers(policy, s, c, now)
  {
  }

  lemma NotAcceptedChangesNothing(policy: Policy, o: Operator, c: Contribution, now: Instant)
    requires o.state.Some? ==> o.state.value.contributors != map[]
    requires !Accepts(policy, o, c, now)
    ensures Step(policy, o, Observation(c, now)).0 == o
  {
  }

  lemma ReportCovers(
    policy: Policy, o: Operator, d: Contribution, later: Instant, c: Contribution, now: Instant, who: string)
    requires o.state.Some? ==> WellFormed(o.state.value)
    requires policy.Valid() && d.Valid() && Accepts(policy, o, d, later)
    requires who in o.Contributors() && Covers(policy, o.Contributors()[who], c, now)
    requires now.watermark <= later.watermark && now.processingTime <= later.processingTime
    ensures var after := Report(policy, o, d, later).value.0.Contributors();
      who in after && Covers(policy, after[who], c, now)
  {
    ReportLifetime(policy, o, d, later);
    SameLifetime(policy, o, d, later, who);
    if d.contributorId == who {
      LaterLivesLonger(policy, Report(policy, o, d, later).value.0.Contributors()[who], c, now, d, later);
    }
  }

  /** One more input leaves the contributor covered, if it leaves it at all. */
  lemma StepCovers(
    key: string, policy: Policy, o: Operator, input: Input, c: Contribution, now: Instant, who: string)
    requires policy.Valid() && Invariant(key, o) && Enabled(key, o, input)
    requires who in o.Contributors() && Covers(policy, o.Contributors()[who], c, now)
    requires input.Observation? ==>
      now.watermark <= input.now.watermark && now.processingTime <= input.now.processingTime
    ensures var after := Step(policy, o, input).0.Contributors();
      who in after ==> Covers(policy, after[who], c, now)
  {
    match input
    case Observation(d, later) =>
      if Accepts(policy, o, d, later) { ReportCovers(policy, o, d, later, c, now, who); }
      else { NotAcceptedChangesNothing(policy, o, d, later); }
    case Callback(clock, timestamp, wallClock) =>
      TimerNeedsContributors(o, clock);
      FireOutcome(o, clock, timestamp, wallClock);
  }

  /** The report at `i` was accepted, and its contributor has not been removed since. */
  ghost predicate KeptSince(policy: Policy, start: Operator, inputs: seq<Input>, i: nat)
    requires start.state.Some? ==> start.state.value.contributors != map[]
    requires i < |inputs| && inputs[i].Observation?
  {
    && Accepts(policy, Run(policy, start, inputs[..i]).0, inputs[i].contribution, inputs[i].now)
    && forall k | i < k <= |inputs| ::
      inputs[i].contribution.contributorId in Run(policy, start, inputs[..k]).0.Contributors()
  }

  lemma KeptBefore(policy: Policy, start: Operator, inputs: seq<Input>, i: nat)
    requires start.state.Some? ==> start.state.value.contributors != map[]
    requires i < |inputs| - 1 && inputs[i].Observation? && KeptSince(policy, start, inputs, i)
    ensures KeptSince(policy, start, inputs[..|inputs| - 1], i)
  {
    var front := inputs[..|inputs| - 1];
    assert front[..i] == inputs[..i];
    forall k | i < k <= |front|
      ensures inputs[i].contribution.contributorId in Run(policy, start, front[..k]).0.Contributors()
    {
      assert front[..k] == inputs[..k];
    }
  }

  lemma {:induction false} KeptIsCovered(key: string, policy: Policy, start: Operator, inputs: seq<Input>, i: nat)
    requires policy.Valid() && Invariant(key, start) && Allowed(key, policy, start, inputs) && ClocksForward(inputs)
    requires i < |inputs| && inputs[i].Observation? && KeptSince(policy, start, inputs, i)
    ensures var m := Run(policy, start, inputs).0.Contributors();
      && inputs[i].contribution.contributorId in m
      && Covers(policy, m[inputs[i].contribution.contributorId], inputs[i].contribution, inputs[i].now)
    decreases |inputs|
  {
    var front, last := inputs[..|inputs| - 1], inputs[|inputs| - 1];
    var c, now := inputs[i].contribution, inputs[i].now;
    assert inputs[..|inputs|] == inputs;
    AllowedPrefix(key, policy, start, inputs);
    RunKeepsInvariant(key, policy, start, front);
    var before := Run(policy, start, front).0;
    assert Enabled(key, before, last);
    if i == |inputs| - 1 {
      ReportLifetime(policy, before, c, now);
      LaterLivesLonger(policy, Report(policy, before, c, now).value.0.Contributors()[c.contributorId], c, now, c, now);
    } else {
      KeptBefore(policy, start, inputs, i);
      KeptIsCovered(key, policy, start, front, i);
      StepCovers(key, policy, before, last, c, now, c.contributorId);
    }
  }

  /**
   No callback on either clock removes a contributor before any report accepted from it, since it was last absent,
   has lived its lifetime: in event time from the report's observation or the watermark then, in processing time
   from its arrival.
   */
  lemma NoReportExpiresEarly(
    key: string, policy: Policy, start: Operator, inputs: seq<Input>, i: nat,
    clock: Clock, timestamp: int, wallClock: int)
    requires policy.Valid() && Invariant(key, start) && Allowed(key, policy, start, inputs) && ClocksForward(inputs)
    requires i < |inputs| && inputs[i].Observation? && KeptSince(policy, start, inputs, i)
    requires var o := Run(policy, start, inputs).0;
      && o.Timer(clock) == Some(timestamp)
      && inputs[i].contribution.contributorId !in Fire(o, clock, timestamp, wallClock).0.Contributors()
    ensures policy.TtlSeconds(inputs[i].contribution.element).Some?
    ensures var c, now := inputs[i].contribution, inputs[i].now;
      var seconds := policy.TtlSeconds(c.element).value;
      && (clock.EventTime? ==> timestamp * 1_000_000 >= EventStart(c, now) + seconds * 1_000_000_000)
      && (clock.ProcessingTime? ==> timestamp >= now.processingTime + seconds * 1_000)
  {
    RunKeepsInvariant(key, policy, start, inputs);
    KeptIsCovered(key, policy, start, inputs, i);
    var o := Run(policy, start, inputs).0;
    LifecycleBounds.CallbackRemovesExactlyDue(
      key, o, clock, timestamp, wallClock, inputs[i].contribution.contributorId);
  }
}

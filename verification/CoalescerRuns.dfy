/** Whole runs of one coalescer key: what it delivers, and when. */
module CoalescerRuns {
  import opened Wrappers
  import opened Model
  import opened LifecyclePolicy
  import opened CoalescerSteps

  datatype Input =
    | Receipt(contribution: Contribution, now: int)
    | Callback(timestamp: int, now: int)

  /** A report the coalescer took in, and the processing time at which it did. */
  datatype Accepted = Accepted(contribution: Contribution, at: int)

  /**
   A report it sent on at processing time `at`; `nominal` is the time the operator accounts it to, which for a
   timer is the timer's own timestamp; `session` counts cleanups.
   */
  datatype Output = Output(contribution: Contribution, nominal: int, at: int, session: nat)

  datatype World = World(
    tracking: Option<Tracking>, clock: int, session: nat, accepted: seq<Accepted>, outputs: seq<Output>)

  const FRESH := World(None, 0, 0, [], [])

  predicate TtlLongerThan(policy: Policy, interval: int) {
    policy.Valid()
    && interval < policy.defaultSeconds * MILLIS_PER_SECOND
    && forall t | t in policy.typeSeconds :: interval < policy.typeSeconds[t] * MILLIS_PER_SECOND
  }

  /** What EngineConfig checks per type holds for the lifetime of every element. */
  lemma TtlExceedsInterval(policy: Policy, interval: int, e: Element)
    requires TtlLongerThan(policy, interval) && policy.TtlSeconds(e).Some?
    ensures interval < policy.TtlSeconds(e).value * MILLIS_PER_SECOND
  {
  }

  function TtlMillis(policy: Policy, e: Element): int {
    var ttl := policy.TtlSeconds(e);
    if ttl.None? then 0 else ttl.value * MILLIS_PER_SECOND
  }

  // ----- steps -----

  /**
   The processing clock never runs back, only the registered timer fires and not before its time.
   `lateness` bounds how overdue a pending refresh may be when its callback, or a report, comes.
   */
  predicate Enabled(policy: Policy, lateness: int, w: World, input: Input) {
    && input.now >= w.clock
    && (w.tracking.Some? && w.tracking.value.pending ==> input.now <= w.tracking.value.timer + lateness)
    && match input
       case Receipt(c, now) => policy.TtlSeconds(c.element).Some?
       case Callback(timestamp, now) => w.tracking.Some? && w.tracking.value.timer == timestamp <= now
  }

  function Sent(w: World, output: Option<Contribution>, nominal: int, at: int): seq<Output> {
    w.outputs + if output.None? then [] else [Output(output.value, nominal, at, w.session)]
  }

  function Step(policy: Policy, interval: int, w: World, input: Input): World
    requires w.tracking.Some? ==> policy.TtlSeconds(w.tracking.value.latest.element).Some?
    requires input.Receipt? ==> policy.TtlSeconds(input.contribution.element).Some?
  {
    match input
    case Receipt(c, now) =>
      var (next, output) := Receive(policy, interval, w.tracking, c, now).value;
      World(next, now, w.session,
            w.accepted + (if Older(w.tracking, c) then [] else [Accepted(c, now)]),
            Sent(w, output, now, now))
    case Callback(timestamp, now) =>
      var (next, output) := Fire(policy, w.tracking, timestamp);
      World(next, now, w.session + (if next.None? then 1 else 0), w.accepted, Sent(w, output, timestamp, now))
  }

  // ----- invariant -----

  /** Pending: the timer delivers the refresh one interval after the last output. Otherwise: it cleans up. */
  predicate TimerRole(policy: Policy, interval: int, t: Tracking, clock: int) {
    && policy.TtlSeconds(t.latest.element).Some?
    && t.lastForwarded <= clock && t.lastSeen <= clock
    && if t.pending then t.timer == t.lastForwarded + interval && t.lastForwarded <= t.lastSeen < t.timer
       else t.timer == t.lastSeen + TtlMillis(policy, t.latest.element)
  }

  /** The last output of this session is accounted to `lastForwarded` and carries the cached element. */
  predicate LastOutputMatches(w: World) {
    w.tracking.Some? ==>
      && w.outputs != []
      && var o := w.outputs[|w.outputs| - 1];
         && o.session == w.session
         && o.nominal == w.tracking.value.lastForwarded
         && o.contribution.element == w.tracking.value.latest.element
         && o.contribution.observedAt <= w.tracking.value.latest.observedAt
         && (!w.tracking.value.pending ==> o.contribution == w.tracking.value.latest)
  }

  /** No output is sent before its nominal time, nor more than `lateness` after it. */
  predicate OnTime(lateness: int, w: World) {
    forall i | 0 <= i < |w.outputs| ::
      w.outputs[i].nominal <= w.outputs[i].at <= w.outputs[i].nominal + lateness && w.outputs[i].at <= w.clock
  }

  predicate SessionsCounted(w: World) {
    && (forall i | 0 <= i < |w.outputs| :: w.outputs[i].session <= w.session)
    && (w.tracking.None? ==> forall i | 0 <= i < |w.outputs| :: w.outputs[i].session < w.session)
  }

  /**
   Outputs never go back in time; within a session nor do observation times, and the nominal times of
   unchanged outputs are an interval apart.
   */
  predicate Spaced(interval: int, a: Output, b: Output) {
    && a.session <= b.session && a.at <= b.at
    && (a.session == b.session ==>
      && a.contribution.observedAt <= b.contribution.observedAt
      && (a.contribution.element == b.contribution.element ==> a.nominal + interval <= b.nominal))
  }

  predicate Rate(interval: int, w: World) {
    forall i | 0 <= i < |w.outputs| - 1 :: Spaced(interval, w.outputs[i], w.outputs[i + 1])
  }

  /** An output at least as new went out no later than `slack` after the report came in. */
  predicate CoveredBy(a: Accepted, o: Output, slack: int) {
    a.contribution.observedAt <= o.contribution.observedAt && a.at <= o.at <= a.at + slack
  }

  predicate Covered(a: Accepted, outputs: seq<Output>, slack: int) {
    exists i :: 0 <= i < |outputs| && CoveredBy(a, outputs[i], slack)
  }

  /** The cached report is the last one taken in. */
  predicate CacheAccepted(w: World) {
    w.tracking.Some? ==> Accepted(w.tracking.value.latest, w.tracking.value.lastSeen) in w.accepted
  }

  /** A report not covered yet waits for the pending refresh, which is due within its interval. */
  predicate Waiting(a: Accepted, t: Tracking) {
    t.pending && t.lastForwarded <= a.at <= t.lastSeen && a.contribution.observedAt <= t.latest.observedAt
  }

  predicate Delivery(interval: int, lateness: int, w: World) {
    forall a | a in w.accepted ::
      Covered(a, w.outputs, interval + lateness) || (w.tracking.Some? && Waiting(a, w.tracking.value))
  }

  predicate Invariant(policy: Policy, interval: int, lateness: int, w: World) {
    && (w.tracking.Some? ==> TimerRole(policy, interval, w.tracking.value, w.clock))
    && CacheAccepted(w)
    && LastOutputMatches(w)
    && OnTime(lateness, w)
    && SessionsCounted(w)
    && Rate(interval, w)
    && Delivery(interval, lateness, w)
  }

  lemma CoveredStays(a: Accepted, outputs: seq<Output>, more: seq<Output>, slack: int)
    requires Covered(a, outputs, slack)
    ensures Covered(a, outputs + more, slack)
  {
    var i :| 0 <= i < |outputs| && CoveredBy(a, outputs[i], slack);
    assert (outputs + more)[i] == outputs[i];
  }

  lemma CoveredByLast(a: Accepted, outputs: seq<Output>, o: Output, slack: int)
    requires CoveredBy(a, o, slack)
    ensures Covered(a, outputs + [o], slack)
  {
    assert (outputs + [o])[|outputs|] == o;
  }

  lemma RateAppend(interval: int, w: World, after: World, o: Output)
    requires Rate(interval, w) && after.outputs == w.outputs + [o]
    requires w.outputs != [] ==> Spaced(interval, w.outputs[|w.outputs| - 1], o)
    ensures Rate(interval, after)
  {
    forall i | 0 <= i < |after.outputs| - 1 ensures Spaced(interval, after.outputs[i], after.outputs[i + 1]) {
      if i < |w.outputs| - 1 { assert Spaced(interval, w.outputs[i], w.outputs[i + 1]); }
    }
  }

  /** Sending `o` covers everything that was waiting for it. */
  lemma DeliveryAfterOutput(interval: int, lateness: int, w: World, after: World, o: Output)
    requires interval >= 0 && lateness >= 0
    requires Delivery(interval, lateness, w)
    requires after.outputs == w.outputs + [o]
    requires forall a | a in after.accepted :: a in w.accepted || a == Accepted(o.contribution, o.at)
    requires w.tracking.Some? && w.tracking.value.pending ==>
      && w.tracking.value.timer == w.tracking.value.lastForwarded + interval
      && w.tracking.value.latest.observedAt <= o.contribution.observedAt
      && w.tracking.value.lastSeen <= o.at <= w.tracking.value.timer + lateness
    ensures Delivery(interval, lateness, after)
  {
    forall a | a in after.accepted ensures Covered(a, after.outputs, interval + lateness) {
      if a in w.accepted {
        if Covered(a, w.outputs, interval + lateness) { CoveredStays(a, w.outputs, [o], interval + lateness); }
        else { CoveredByLast(a, w.outputs, o, interval + lateness); }
      } else {
        CoveredByLast(a, w.outputs, o, interval + lateness);
      }
    }
  }

  lemma ForwardKeepsInvariant(policy: Policy, interval: int, lateness: int, w: World, c: Contribution, now: int)
    requires interval >= 0 && lateness >= 0
    requires Invariant(policy, interval, lateness, w) && Enabled(policy, lateness, w, Receipt(c, now))
    requires !Older(w.tracking, c) && Forwards(interval, w.tracking, c, now)
    ensures Invariant(policy, interval, lateness, Step(policy, interval, w, Receipt(c, now)))
  {
    var after := Step(policy, interval, w, Receipt(c, now));
    var o := Output(c, now, now, w.session);
    assert after.outputs == w.outputs + [o];
    assert after.accepted == w.accepted + [Accepted(c, now)];
    RateAppend(interval, w, after, o);
    DeliveryAfterOutput(interval, lateness, w, after, o);
  }

  lemma SuppressKeepsInvariant(policy: Policy, interval: int, lateness: int, w: World, c: Contribution, now: int)
    requires Invariant(policy, interval, lateness, w) && Enabled(policy, lateness, w, Receipt(c, now))
    requires !Older(w.tracking, c) && !Forwards(interval, w.tracking, c, now)
    ensures Invariant(policy, interval, lateness, Step(policy, interval, w, Receipt(c, now)))
  {
    var after := Step(policy, interval, w, Receipt(c, now));
    assert after.outputs == w.outputs;
    assert after.accepted == w.accepted + [Accepted(c, now)];
    forall a | a in after.accepted
      ensures Covered(a, after.outputs, interval + lateness) || Waiting(a, after.tracking.value)
    {
      if a in w.accepted && !Covered(a, w.outputs, interval + lateness) { assert Waiting(a, w.tracking.value); }
    }
  }

  lemma CallbackKeepsInvariant(policy: Policy, interval: int, lateness: int, w: World, timestamp: int, now: int)
    requires 0 <= interval && TtlLongerThan(policy, interval) && lateness >= 0
    requires Invariant(policy, interval, lateness, w) && Enabled(policy, lateness, w, Callback(timestamp, now))
    ensures Invariant(policy, interval, lateness, Step(policy, interval, w, Callback(timestamp, now)))
  {
    var after := Step(policy, interval, w, Callback(timestamp, now));
    var t := w.tracking.value;
    TtlExceedsInterval(policy, interval, t.latest.element);
    if t.pending {
      var o := Output(t.latest, timestamp, now, w.session);
      assert after.outputs == w.outputs + [o];
      RateAppend(interval, w, after, o);
      DeliveryAfterOutput(interval, lateness, w, after, o);
    } else {
      assert after.tracking.None? && after.outputs == w.outputs;
      forall a | a in after.accepted ensures Covered(a, after.outputs, interval + lateness) {
        assert !Waiting(a, t);
      }
    }
  }

  lemma StepKeepsInvariant(policy: Policy, interval: int, lateness: int, w: World, input: Input)
    requires 0 <= interval && TtlLongerThan(policy, interval) && lateness >= 0
    requires Invariant(policy, interval, lateness, w) && Enabled(policy, lateness, w, input)
    ensures Invariant(policy, interval, lateness, Step(policy, interval, w, input))
  {
    match input
    case Callback(timestamp, now) => CallbackKeepsInvariant(policy, interval, lateness, w, timestamp, now);
    case Receipt(c, now) =>
      if Older(w.tracking, c) { IgnoreKeepsInvariant(policy, interval, lateness, w, c, now); }
      else if Forwards(interval, w.tracking, c, now) { ForwardKeepsInvariant(policy, interval, lateness, w, c, now); }
      else { SuppressKeepsInvariant(policy, interval, lateness, w, c, now); }
  }

  lemma IgnoreKeepsInvariant(policy: Policy, interval: int, lateness: int, w: World, c: Contribution, now: int)
    requires Invariant(policy, interval, lateness, w) && Enabled(policy, lateness, w, Receipt(c, now))
    requires Older(w.tracking, c)
    ensures Invariant(policy, interval, lateness, Step(policy, interval, w, Receipt(c, now)))
  {
    var after := Step(policy, interval, w, Receipt(c, now));
    assert after == w.(clock := now);
  }

  // ----- runs -----

  function Run(policy: Policy, interval: int, inputs: seq<Input>): (w: Option<World>)
    ensures w.Some? && w.value.tracking.Some? ==> policy.TtlSeconds(w.value.tracking.value.latest.element).Some?
  {
    if inputs == [] then Some(FRESH)
    else
      var before := Run(policy, interval, inputs[..|inputs| - 1]);
      var last := inputs[|inputs| - 1];
      if before.None? || (last.Receipt? && policy.TtlSeconds(last.contribution.element).None?) then None
      else Some(Step(policy, interval, before.value, last))
  }

  predicate Allowed(policy: Policy, interval: int, lateness: int, inputs: seq<Input>) {
    forall i | 0 <= i < |inputs| ::
      var before := Run(policy, interval, inputs[..i]);
      before.Some? && Enabled(policy, lateness, before.value, inputs[i])
  }

  lemma {:induction false} RunKeepsInvariant(policy: Policy, interval: int, lateness: int, inputs: seq<Input>)
    requires 0 <= interval && TtlLongerThan(policy, interval) && lateness >= 0
    requires Allowed(policy, interval, lateness, inputs)
    ensures var w := Run(policy, interval, inputs); w.Some? && Invariant(policy, interval, lateness, w.value)
  {
    if inputs != [] {
      var front, last := inputs[..|inputs| - 1], inputs[|inputs| - 1];
      AllowedPrefix(policy, interval, lateness, inputs);
      RunKeepsInvariant(policy, interval, lateness, front);
      var w := Run(policy, interval, front).value;
      assert Enabled(policy, lateness, w, last);
      StepKeepsInvariant(policy, interval, lateness, w, last);
    }
  }

  /**
   Delivery: once no refresh due by then is outstanding, a report taken in at `a.at` has been followed, within
   one interval and the lateness of callbacks, by the sending of a report at least as new.
   */
  lemma EveryReportIsDelivered(policy: Policy, interval: int, lateness: int, inputs: seq<Input>, a: Accepted)
    requires 0 <= interval && TtlLongerThan(policy, interval) && lateness >= 0
    requires Allowed(policy, interval, lateness, inputs) && a in Run(policy, interval, inputs).value.accepted
    requires var w := Run(policy, interval, inputs).value;
      w.tracking.Some? && w.tracking.value.pending ==> w.tracking.value.timer > a.at + interval
    ensures Covered(a, Run(policy, interval, inputs).value.outputs, interval + lateness)
  {
    RunKeepsInvariant(policy, interval, lateness, inputs);
  }

  predicate TakenInOrNewer(accepted: seq<Accepted>, c: Contribution, at: int) {
    Accepted(c, at) in accepted || exists a :: a in accepted && a.contribution.observedAt > c.observedAt
  }

  lemma StepTakesIn(policy: Policy, interval: int, lateness: int, w: World, input: Input)
    requires Invariant(policy, interval, lateness, w) && Enabled(policy, lateness, w, input)
    ensures w.accepted <= Step(policy, interval, w, input).accepted
    ensures input.Receipt? ==>
      TakenInOrNewer(Step(policy, interval, w, input).accepted, input.contribution, input.now)
  {
    if input.Receipt? {
      var after := Step(policy, interval, w, input);
      if Older(w.tracking, input.contribution) {
        assert Accepted(w.tracking.value.latest, w.tracking.value.lastSeen) in after.accepted;
      } else {
        assert after.accepted[|w.accepted|] == Accepted(input.contribution, input.now);
      }
    }
  }

  lemma AllowedPrefix(policy: Policy, interval: int, lateness: int, inputs: seq<Input>)
    requires inputs != [] && Allowed(policy, interval, lateness, inputs)
    ensures Allowed(policy, interval, lateness, inputs[..|inputs| - 1])
  {
    var front := inputs[..|inputs| - 1];
    forall i | 0 <= i < |front| ensures
      var before := Run(policy, interval, front[..i]);
      before.Some? && Enabled(policy, lateness, before.value, front[i])
    {
      assert front[..i] == inputs[..i];
    }
  }

  /** Only a report strictly older than one taken in is ever ignored. */
  lemma {:induction false} EveryReportIsTakenIn(
    policy: Policy, interval: int, lateness: int, inputs: seq<Input>, i: nat)
    requires 0 <= interval && TtlLongerThan(policy, interval) && lateness >= 0
    requires Allowed(policy, interval, lateness, inputs) && i < |inputs| && inputs[i].Receipt?
    ensures Run(policy, interval, inputs).Some?
    ensures TakenInOrNewer(Run(policy, interval, inputs).value.accepted, inputs[i].contribution, inputs[i].now)
    decreases |inputs|
  {
    var front, last := inputs[..|inputs| - 1], inputs[|inputs| - 1];
    AllowedPrefix(policy, interval, lateness, inputs);
    RunKeepsInvariant(policy, interval, lateness, front);
    RunKeepsInvariant(policy, interval, lateness, inputs);
    var w := Run(policy, interval, front).value;
    assert Enabled(policy, lateness, w, last);
    StepTakesIn(policy, interval, lateness, w, last);
    if i < |inputs| - 1 {
      EveryReportIsTakenIn(policy, interval, lateness, front, i);
      MoreAccepted(w.accepted, Run(policy, interval, inputs).value.accepted, inputs[i].contribution, inputs[i].now);
    }
  }

  lemma MoreAccepted(accepted: seq<Accepted>, more: seq<Accepted>, c: Contribution, at: int)
    requires accepted <= more && TakenInOrNewer(accepted, c, at)
    ensures TakenInOrNewer(more, c, at)
  {
    assert forall a | a in accepted :: a in more;
  }

  /** No change is lost: the last output always carries the element the coalescer holds. */
  lemma LastOutputIsCurrent(policy: Policy, interval: int, lateness: int, inputs: seq<Input>)
    requires 0 <= interval && TtlLongerThan(policy, interval) && lateness >= 0
    requires Allowed(policy, interval, lateness, inputs)
    ensures var w := Run(policy, interval, inputs).value;
      w.tracking.Some? ==>
        && w.outputs != []
        && w.outputs[|w.outputs| - 1].contribution.element == w.tracking.value.latest.element
        && (!w.tracking.value.pending ==> w.outputs[|w.outputs| - 1].contribution == w.tracking.value.latest)
  {
    RunKeepsInvariant(policy, interval, lateness, inputs);
  }

  lemma {:induction false} RateFromTo(interval: int, w: World, i: nat, j: nat)
    requires Rate(interval, w) && i < j < |w.outputs|
    ensures w.outputs[i].session <= w.outputs[j].session && w.outputs[i].at <= w.outputs[j].at
    ensures w.outputs[i].session == w.outputs[j].session ==>
      w.outputs[i].contribution.observedAt <= w.outputs[j].contribution.observedAt
    decreases j
  {
    assert Spaced(interval, w.outputs[j - 1], w.outputs[j]);
    if i < j - 1 { RateFromTo(interval, w, i, j - 1); }
  }

  /**
   Between cleanups output observation times never decrease, and unchanged outputs are sent at least one
   interval, less the lateness of callbacks, apart.
   */
  lemma OutputsAreSpaced(policy: Policy, interval: int, lateness: int, inputs: seq<Input>, i: nat, j: nat)
    requires 0 <= interval && TtlLongerThan(policy, interval) && lateness >= 0
    requires Allowed(policy, interval, lateness, inputs)
    requires var outputs := Run(policy, interval, inputs).value.outputs;
      i < j < |outputs| && outputs[i].session == outputs[j].session
    ensures var outputs := Run(policy, interval, inputs).value.outputs;
      && outputs[i].contribution.observedAt <= outputs[j].contribution.observedAt
      && outputs[i].at <= outputs[j].at
      && (j == i + 1 && outputs[i].contribution.element == outputs[j].contribution.element ==>
            outputs[i].at + interval - lateness <= outputs[j].at)
  {
    RunKeepsInvariant(policy, interval, lateness, inputs);
    var w := Run(policy, interval, inputs).value;
    RateFromTo(interval, w, i, j);
    if j == i + 1 { assert Spaced(interval, w.outputs[i], w.outputs[j]); }
  }

  // ----- the lateness shows -----

  /** Two reports in the same millisecond, a refresh `lateness` overdue, and a report when the next is due. */
  function LateRefresh(e: Element, interval: int, lateness: int): seq<Input> {
    [Receipt(Contribution("contributor", 1, e), 0),
     Receipt(Contribution("contributor", 2, e), 0),
     Callback(interval, interval + lateness),
     Receipt(Contribution("contributor", 3, e), 2 * interval)]
  }

  lemma RunAppend(policy: Policy, interval: int, inputs: seq<Input>, input: Input)
    requires Run(policy, interval, inputs).Some?
    requires input.Receipt? ==> policy.TtlSeconds(input.contribution.element).Some?
    ensures Run(policy, interval, inputs + [input]) ==
      Some(Step(policy, interval, Run(policy, interval, inputs).value, input))
  {
    assert (inputs + [input])[..|inputs|] == inputs;
  }

  /** After the two reports the second waits for its refresh. */
  lemma HeldBack(policy: Policy, e: Element, interval: int, lateness: int)
    requires policy.TtlSeconds(e).Some? && 0 < interval
    ensures var inputs := LateRefresh(e, interval, lateness);
      var c, d := inputs[0].contribution, inputs[1].contribution;
      && Run(policy, interval, inputs[..0]) == Some(FRESH) && Enabled(policy, lateness, FRESH, inputs[0])
      && Run(policy, interval, inputs[..1]).Some?
      && Enabled(policy, lateness, Run(policy, interval, inputs[..1]).value, inputs[1])
      && Run(policy, interval, inputs[..2]) == Some(World(
        Some(Tracking(d, 0, 0, true, interval)), 0, 0, [Accepted(c, 0), Accepted(d, 0)], [Output(c, 0, 0, 0)]))
  {
    var inputs := LateRefresh(e, interval, lateness);
    assert inputs[..0] == [] && inputs[..1] == [] + [inputs[0]] && inputs[..2] == inputs[..1] + [inputs[1]];
    RunAppend(policy, interval, [], inputs[0]);
    RunAppend(policy, interval, inputs[..1], inputs[1]);
    var c, d := inputs[0].contribution, inputs[1].contribution;
    var first, second := Run(policy, interval, inputs[..1]).value, Run(policy, interval, inputs[..2]).value;
    assert first.accepted == [Accepted(c, 0)] && first.outputs == [Output(c, 0, 0, 0)];
    assert second.accepted == [Accepted(c, 0), Accepted(d, 0)] && second.outputs == first.outputs;
  }

  /** Both bounds are met with equality: delivery takes that long, and spacing is that short. */
  lemma LatenessShows(policy: Policy, e: Element, interval: int, lateness: int)
    requires TtlLongerThan(policy, interval) && policy.TtlSeconds(e).Some? && 0 < interval && 0 <= lateness <= interval
    ensures var inputs := LateRefresh(e, interval, lateness);
      && Allowed(policy, interval, lateness, inputs)
      && var w := Run(policy, interval, inputs).value;
        && |w.outputs| == 3 && Accepted(inputs[1].contribution, 0) in w.accepted
        && w.outputs[0].contribution.observedAt < inputs[1].contribution.observedAt
        && w.outputs[1].at == interval + lateness
        && w.outputs[2].at == w.outputs[1].at + interval - lateness
        && w.outputs[1].contribution.element == w.outputs[2].contribution.element
        && w.outputs[1].session == w.outputs[2].session
  {
    var inputs := LateRefresh(e, interval, lateness);
    HeldBack(policy, e, interval, lateness);
    assert inputs[..3] == inputs[..2] + [inputs[2]] && inputs == inputs[..3] + [inputs[3]];
    RunAppend(policy, interval, inputs[..2], inputs[2]);
    RunAppend(policy, interval, inputs[..3], inputs[3]);
    assert Run(policy, interval, inputs).value.accepted[1] == Accepted(inputs[1].contribution, 0);
  }

  /** A callback that re-arms the timer does so strictly later than it fired. */
  lemma RearmsLater(policy: Policy, interval: int, lateness: int, w: World, timestamp: int, now: int)
    requires 0 <= interval && TtlLongerThan(policy, interval)
    requires Invariant(policy, interval, lateness, w) && Enabled(policy, lateness, w, Callback(timestamp, now))
    ensures var after := Step(policy, interval, w, Callback(timestamp, now)).tracking;
      after.Some? ==> after.value.timer > timestamp && !after.value.pending
    ensures w.tracking.value.pending <==> Step(policy, interval, w, Callback(timestamp, now)).tracking.Some?
  {
    TtlExceedsInterval(policy, interval, w.tracking.value.latest.element);
  }
}

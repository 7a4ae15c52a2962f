/** Coalescing never makes the lifecycle operator forget a contributor early on the processing clock. */
module PipelineRuns {
  import opened Wrappers
  import opened Model
  import opened GraphLifecycle
  import opened Timers
  import opened OperatorSteps
  import LifecycleRuns
  import opened CoalescerSteps
  import opened Pipeline

  datatype Timed = Timed(input: Input, now: Instant)

  ghost function Next(setup: Setup, p: Pipe, timed: Timed): Pipe {
    if Runnable(setup, p) && Enabled(setup, p, timed.input, timed.now) then Step(setup, p, timed.input, timed.now)
    else p
  }

  ghost function Run(setup: Setup, inputs: seq<Timed>): Pipe {
    if inputs == [] then FRESH else Next(setup, Run(setup, inputs[..|inputs| - 1]), inputs[|inputs| - 1])
  }

  /** A possible run, in which contributor `who` never reports an older observation time. */
  ghost predicate Allowed(setup: Setup, who: string, inputs: seq<Timed>) {
    forall i | 0 <= i < |inputs| ::
      var p := Run(setup, inputs[..i]);
      Enabled(setup, p, inputs[i].input, inputs[i].now) && NotBackwards(p, who, inputs[i].input)
  }

  lemma FreshInvariant(setup: Setup, who: string)
    requires setup.Valid()
    ensures InvariantFor(setup, FRESH, who)
  {
  }

  lemma {:induction false} RunKeepsInvariant(setup: Setup, who: string, inputs: seq<Timed>)
    requires setup.Valid() && setup.interval < setup.TtlMillis() && Allowed(setup, who, inputs)
    ensures InvariantFor(setup, Run(setup, inputs), who)
  {
    if inputs == [] {
      FreshInvariant(setup, who);
    } else {
      var front, last := inputs[..|inputs| - 1], inputs[|inputs| - 1];
      forall i | 0 <= i < |front| ensures
        var p := Run(setup, front[..i]);
        Enabled(setup, p, front[i].input, front[i].now) && NotBackwards(p, who, front[i].input)
      {
        assert front[..i] == inputs[..i];
      }
      RunKeepsInvariant(setup, who, front);
      var p := Run(setup, front);
      assert Enabled(setup, p, last.input, last.now) && NotBackwards(p, who, last.input);
      StepCovers(setup, p, last.input, last.now, who);
    }
  }

  /**
   After an allowed run, the processing-time callback due now removes `who` although one of its accepted
   reports is younger than the element's lifetime.
   */
  ghost predicate ExpiresEarly(setup: Setup, who: string, inputs: seq<Timed>, now: Instant, a: Arrival)
    requires setup.Valid()
  {
    var p := Run(setup, inputs);
    && Allowed(setup, who, inputs)
    && Enabled(setup, p, ProcessingExpiry, now)
    && a in p.arrivals && a.contributorId == who
    && who in p.operator.Contributors()
    && who !in Survivors(p.operator.Contributors(), ProcessingTime, p.operator.processingTimer.value)
    && p.operator.processingTimer.value < a.at + setup.TtlMillis()
  }

  /** With an interval shorter than the lifetime, no run expires a contributor early. */
  lemma NeverExpiresEarly(setup: Setup, who: string, inputs: seq<Timed>, now: Instant, a: Arrival)
    requires setup.Valid() && setup.interval < setup.TtlMillis()
    ensures !ExpiresEarly(setup, who, inputs, now, a)
  {
    if ExpiresEarly(setup, who, inputs, now, a) {
      RunKeepsInvariant(setup, who, inputs);
    }
  }

  /** What the processing-time callback removes is exactly what the operator's step removes. */
  lemma ExpiryRemoves(setup: Setup, who: string, inputs: seq<Timed>, now: Instant)
    requires setup.Valid() && setup.interval < setup.TtlMillis() && Allowed(setup, who, inputs)
    requires Enabled(setup, Run(setup, inputs), ProcessingExpiry, now)
    ensures var p := Run(setup, inputs);
      Runnable(setup, p) && Step(setup, p, ProcessingExpiry, now).operator.Contributors()
        == Survivors(p.operator.Contributors(), ProcessingTime, p.operator.processingTimer.value)
  {
    RunKeepsInvariant(setup, who, inputs);
    ExpiryOutcome(setup, Run(setup, inputs).operator, ProcessingTime, now.wallClock);
  }

  // ----- and the condition is needed -----

  function Evidence(setup: Setup, who: string, observedAt: int): Contribution {
    Contribution(who, observedAt, setup.identity)
  }

  const START := Instant(0, 0, 0)
  const ONE_MILLI_LATER := Instant(0, 1, 1)

  function TwoReports(setup: Setup, who: string): seq<Timed> {
    [Timed(Receipt(Evidence(setup, who, 1)), START), Timed(Receipt(Evidence(setup, who, 2)), ONE_MILLI_LATER)]
  }

  lemma FirstTimer(setup: Setup, c: Contribution)
    requires setup.Valid()
    ensures TimerFor(Incoming(c, setup.policy.TtlSeconds(setup.identity).value, START), ProcessingTime)
      == Some(setup.TtlMillis())
  {
    CoalescedIsCeiling(setup.TtlMillis());
  }

  lemma TimerOfFirstReport(c: Contribution, m: Contributors)
    requires c.contributorId in m
    ensures TimerAfterReport(FRESH.operator, c, m, ProcessingTime) == TimerFor(m[c.contributorId], ProcessingTime)
  {
    assert !Loses(map[], c);
  }

  lemma FirstDelivery(setup: Setup, c: Contribution)
    requires setup.Valid() && c.Valid() && c.element.Identity() == setup.identity.Identity()
    ensures Deliver(setup, FRESH.operator, Some(c), START).processingTimer == Some(setup.TtlMillis())
  {
    ReportsAccepted(setup, FRESH.operator, c, START);
    LifecycleRuns.AcceptedReport(setup.policy, FRESH.operator, c, START);
    FirstTimer(setup, c);
    TimerOfFirstReport(c, Deliver(setup, FRESH.operator, Some(c), START).Contributors());
  }

  lemma FirstReport(setup: Setup, who: string)
    requires setup.Valid() && setup.interval > 0
    ensures var c := Evidence(setup, who, 1);
      var p := Next(setup, FRESH, Timed(Receipt(c), START));
      && Enabled(setup, FRESH, Receipt(c), START)
      && p.clock == 0 && Invariant(setup, p)
      && p.coalescers == map[who := Forwarded(c, 0, setup.policy.TtlSeconds(setup.identity).value)]
      && p.newest == map[who := 1]
      && p.operator.Contributors() == map[who := Incoming(c, setup.policy.TtlSeconds(setup.identity).value, START)]
      && p.operator.processingTimer == Some(setup.TtlMillis())
  {
    var c := Evidence(setup, who, 1);
    FreshInvariant(setup, who);
    ReceiptMoves(setup, FRESH, c, START);
    var (next, output) := Coalesce(setup, None, c, 0).value;
    assert output == Some(c);
    MovedKeepsInvariant(setup, FRESH, Step(setup, FRESH, Receipt(c), START), who, next, output, START);
    FirstDelivery(setup, c);
  }

  /** A second report one millisecond later is held back. */
  lemma SecondReport(setup: Setup, p: Pipe, who: string)
    requires Runnable(setup, p) && p.clock == 0 && setup.interval > 1
    requires p.coalescers
      == map[who := Forwarded(Evidence(setup, who, 1), 0, setup.policy.TtlSeconds(setup.identity).value)]
    ensures var c := Evidence(setup, who, 2);
      var q := Next(setup, p, Timed(Receipt(c), ONE_MILLI_LATER));
      && Enabled(setup, p, Receipt(c), ONE_MILLI_LATER)
      && q.clock == 1 && q.operator == p.operator
      && q.coalescers == map[who := Tracking(c, 0, 1, true, setup.interval)]
      && Arrival(who, 1) in q.arrivals
  {
    var c := Evidence(setup, who, 2);
    assert TrackingOf(p, who).Some?;
    var (next, output) := Coalesce(setup, TrackingOf(p, who), c, 1).value;
    assert output == None && next == Some(Tracking(c, 0, 1, true, setup.interval));
    var q := Step(setup, p, Receipt(c), ONE_MILLI_LATER);
    assert q.arrivals == p.arrivals + [Arrival(who, 1)];
    assert Arrival(who, 1) == q.arrivals[|p.arrivals|];
  }

  /** What the pipeline holds after both reports. */
  lemma TwoReportsOutcome(setup: Setup, who: string)
    requires setup.Valid() && setup.interval > 1
    ensures Allowed(setup, who, TwoReports(setup, who))
    ensures var q := Run(setup, TwoReports(setup, who));
      && q.clock == 1
      && q.operator.Contributors() ==
          map[who := Incoming(Evidence(setup, who, 1), setup.policy.TtlSeconds(setup.identity).value, START)]
      && q.operator.processingTimer == Some(setup.TtlMillis())
      && q.coalescers == map[who := Tracking(Evidence(setup, who, 2), 0, 1, true, setup.interval)]
      && Arrival(who, 1) in q.arrivals
  {
    var inputs := TwoReports(setup, who);
    FirstReport(setup, who);
    RunOfTwo(setup, inputs);
    InvariantRunnable(setup, Run(setup, inputs[..1]));
    SecondReport(setup, Run(setup, inputs[..1]), who);
  }

  /** With an interval at or above the lifetime, two quick reports are enough to expire early. */
  lemma LongIntervalExpiresEarly(setup: Setup, who: string)
    requires setup.Valid() && setup.interval >= setup.TtlMillis()
    ensures ExpiresEarly(setup, who, TwoReports(setup, who), Instant(0, setup.TtlMillis(), 0), Arrival(who, 1))
  {
    TwoReportsOutcome(setup, who);
  }

  lemma RunOfTwo(setup: Setup, inputs: seq<Timed>)
    requires |inputs| == 2
    ensures Run(setup, inputs[..0]) == FRESH
    ensures Run(setup, inputs[..1]) == Next(setup, FRESH, inputs[0])
    ensures Run(setup, inputs) == Next(setup, Next(setup, FRESH, inputs[0]), inputs[1])
  {
    assert inputs[..1] == [inputs[0]] && [inputs[0]][..0] == [];
    assert Run(setup, [inputs[0]]) == Next(setup, Run(setup, []), inputs[0]);
  }

  /** The lifetime is respected in every run exactly when the interval is shorter than the lifetime. */
  lemma RespectsLifetimeIffShortInterval(setup: Setup)
    requires setup.Valid()
    ensures setup.interval < setup.TtlMillis() <==>
      forall who, inputs, now, a :: !ExpiresEarly(setup, who, inputs, now, a)
  {
    if setup.interval < setup.TtlMillis() {
      forall who, inputs, now, a ensures !ExpiresEarly(setup, who, inputs, now, a) {
        NeverExpiresEarly(setup, who, inputs, now, a);
      }
    } else {
      LongIntervalExpiresEarly(setup, "contributor");
    }
  }
}

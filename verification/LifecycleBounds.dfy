/** How late an expiry can be, and how an idle key drains. */
module LifecycleBounds {
  import opened Wrappers
  import opened Model
  import opened LifecyclePolicy
  import opened GraphLifecycle
  import opened Timers
  import opened OperatorSteps
  import opened LifecycleRuns

  // ----- expiry -----

  /** A callback removes exactly the contributors whose deadline on its clock has come, and no others. */
  lemma CallbackRemovesExactlyDue(key: string, o: Operator, clock: Clock, timestamp: int, wallClock: int, id: string)
    requires Invariant(key, o) && o.Timer(clock) == Some(timestamp) && id in o.Contributors()
    ensures var deadline := DeadlineOn(o.Contributors()[id], clock);
      id !in Fire(o, clock, timestamp, wallClock).0.Contributors() <==>
        deadline.Some? && deadline.value <= timestamp * Scale(clock)
  {
    TimerNeedsContributors(o, clock);
    FireOutcome(o, clock, timestamp, wallClock);
  }

  /** Once every timer due by `now` has fired, no deadline is a full second behind. */
  lemma NoStragglers(key: string, o: Operator, clock: Clock, now: int, id: string)
    requires Invariant(key, o) && id in o.Contributors() && DeadlineOn(o.Contributors()[id], clock).Some?
    requires o.Timer(clock).Some? ==> o.Timer(clock).value > now
    ensures DeadlineOn(o.Contributors()[id], clock).value > (now - MILLIS_PER_SECOND) * Scale(clock)
  {
    var s := o.Contributors()[id];
    assert PositiveTimes(s);
    TimerIsCeiling(s, clock);
    var timer := TimerFor(s, clock).value;
    assert timer > now;
    assert (timer - MILLIS_PER_SECOND) * Scale(clock) < DeadlineOn(s, clock).value;
  }

  lemma SurvivorTimerIsLater(s: Snapshot, clock: Clock, timestamp: int)
    requires PositiveTimes(s) && TimerFor(s, clock).Some?
    requires !Due(s, clock, ExpiryTime(clock, timestamp))
    ensures TimerFor(s, clock).value > timestamp
  {
    TimerIsCeiling(s, clock);
  }

  /** A callback re-arms its own clock strictly later than it fired. */
  lemma RearmsLater(key: string, o: Operator, clock: Clock, timestamp: int, wallClock: int)
    requires Invariant(key, o) && o.Timer(clock) == Some(timestamp)
    ensures var next := Fire(o, clock, timestamp, wallClock).0.Timer(clock); next.Some? ==> next.value > timestamp
  {
    TimerNeedsContributors(o, clock);
    FireOutcome(o, clock, timestamp, wallClock);
    var after := Fire(o, clock, timestamp, wallClock).0;
    var m := after.Contributors();
    EarliestCovers(m, clock);
    if after.Timer(clock).Some? {
      var id :| id in m && TimerFor(m[id], clock) == after.Timer(clock);
      SurvivorTimerIsLater(m[id], clock, timestamp);
    }
  }

  // ----- draining without input -----

  /** Both wake-ups are exact, as after any callback. */
  ghost predicate Exact(o: Operator) {
    && o.eventTimer == Earliest(o.Contributors(), EventTime)
    && o.processingTimer == Earliest(o.Contributors(), ProcessingTime)
  }

  /** An exact wake-up removes someone: the contributor that asked for it is due. */
  lemma ExactWakeUpRemoves(key: string, o: Operator, clock: Clock, wallClock: int)
    requires Invariant(key, o) && Exact(o) && o.Timer(clock).Some?
    ensures var after := Fire(o, clock, o.Timer(clock).value, wallClock).0;
      |after.Contributors()| < |o.Contributors()|
  {
    var timestamp := o.Timer(clock).value;
    var m := o.Contributors();
    TimerNeedsContributors(o, clock);
    FireOutcome(o, clock, timestamp, wallClock);
    EarliestCovers(m, clock);
    var id :| id in m && TimerFor(m[id], clock) == o.Timer(clock);
    assert PositiveTimes(m[id]);
    TimerIsCeiling(m[id], clock);
    SurvivorsSmaller(m, clock, ExpiryTime(clock, timestamp), id);
  }

  lemma SurvivorsSmaller(m: Contributors, clock: Clock, timestamp: int, id: string)
    requires id in m
    ensures |Survivors(m, clock, timestamp)| <= |m|
    ensures Due(m[id], clock, timestamp) ==> |Survivors(m, clock, timestamp)| < |m|
  {
    var survivors := Survivors(m, clock, timestamp);
    Smaller(survivors.Keys, m.Keys);
    if Due(m[id], clock, timestamp) { Smaller(survivors.Keys, m.Keys - {id}); }
  }

  lemma {:induction false} Smaller(a: set<string>, b: set<string>)
    requires a <= b
    ensures |a| <= |b|
  {
    if a != {} {
      var x :| x in a;
      Smaller(a - {x}, b - {x});
    }
  }

  predicate OnlyCallbacks(inputs: seq<Input>) {
    forall input | input in inputs :: input.Callback?
  }

  lemma CallbackProgress(key: string, o: Operator, clock: Clock, timestamp: int, wallClock: int)
    requires Invariant(key, o) && o.Timer(clock) == Some(timestamp)
    ensures var after := Fire(o, clock, timestamp, wallClock).0;
      && Exact(after)
      && |after.Contributors()| <= |o.Contributors()|
      && (Exact(o) ==> |after.Contributors()| < |o.Contributors()|)
  {
    TimerNeedsContributors(o, clock);
    FireOutcome(o, clock, timestamp, wallClock);
    var id :| id in o.Contributors();
    SurvivorsSmaller(o.Contributors(), clock, ExpiryTime(clock, timestamp), id);
    if Exact(o) { ExactWakeUpRemoves(key, o, clock, wallClock); }
  }

  /** Only the first callback can be idle; every later one removes a contributor. */
  lemma {:induction false} DrainProgress(key: string, policy: Policy, start: Operator, inputs: seq<Input>)
    requires policy.Valid() && Invariant(key, start)
    requires inputs != [] && OnlyCallbacks(inputs) && Allowed(key, policy, start, inputs)
    ensures var o := Run(policy, start, inputs).0;
      Exact(o) && |o.Contributors()| + |inputs| <= |start.Contributors()| + 1
  {
    var front, last := inputs[..|inputs| - 1], inputs[|inputs| - 1];
    AllowedPrefix(key, policy, start, inputs);
    RunKeepsInvariant(key, policy, start, front);
    var before := Run(policy, start, front).0;
    assert Enabled(key, before, last) && last in inputs;
    CallbackProgress(key, before, last.clock, last.timestamp, last.wallClock);
    if front != [] { DrainProgress(key, policy, start, front); }
  }

  /** Without input, an element of n contributors sees at most n + 1 callbacks. */
  lemma DrainBound(key: string, policy: Policy, start: Operator, inputs: seq<Input>)
    requires policy.Valid() && Invariant(key, start)
    requires OnlyCallbacks(inputs) && Allowed(key, policy, start, inputs)
    ensures |inputs| <= |start.Contributors()| + 1
  {
    if inputs != [] { DrainProgress(key, policy, start, inputs); }
  }

  /** Every contributor can expire on some clock. */
  predicate Expirable(m: Contributors) {
    forall id | id in m :: m[id].eventDeadline.Some? || m[id].processingDeadline.Some?
  }

  lemma StepKeepsExpirable(key: string, policy: Policy, o: Operator, input: Input)
    requires policy.Valid() && Invariant(key, o) && Enabled(key, o, input) && Expirable(o.Contributors())
    ensures Expirable(Step(policy, o, input).0.Contributors())
  {
    match input
    case Observation(c, now) =>
      if Report(policy, o, c, now).Success? && !Stale(o.Contributors(), c) { AcceptedReport(policy, o, c, now); }
    case Callback(clock, timestamp, wallClock) =>
      TimerNeedsContributors(o, clock);
      FireOutcome(o, clock, timestamp, wallClock);
  }

  /** From an empty key, or any state in which it holds, every reachable contributor can expire. */
  lemma {:induction false} RunKeepsExpirable(key: string, policy: Policy, start: Operator, inputs: seq<Input>)
    requires policy.Valid() && Invariant(key, start) && Allowed(key, policy, start, inputs)
    requires Expirable(start.Contributors())
    ensures Expirable(Run(policy, start, inputs).0.Contributors())
  {
    if inputs != [] {
      var front, last := inputs[..|inputs| - 1], inputs[|inputs| - 1];
      AllowedPrefix(key, policy, start, inputs);
      RunKeepsExpirable(key, policy, start, front);
      RunKeepsInvariant(key, policy, start, front);
      var before := Run(policy, start, front).0;
      assert Enabled(key, before, last);
      StepKeepsExpirable(key, policy, before, last);
    }
  }

  /**
   Where no timer is left, nothing is left, as long as every contributor can expire on some clock;
   conversely a deleted element has no timer.
   */
  lemma DrainedIsDeleted(key: string, o: Operator)
    requires Invariant(key, o) && Expirable(o.Contributors())
    ensures o.eventTimer.None? && o.processingTimer.None? <==> o == Operator(None, None, None)
  {
    if o.state.Some? {
      var m := o.Contributors();
      var id :| id in m;
      var clock := if m[id].eventDeadline.Some? then EventTime else ProcessingTime;
      assert TimerFor(m[id], clock).Some?;
      assert o.Timer(clock).Some?;
    }
  }

  /**
   Without input, callbacks run out exactly when the element is deleted with its timers, and that takes at
   most n + 1 of them.
   */
  lemma DrainDeletes(key: string, policy: Policy, start: Operator, inputs: seq<Input>)
    requires policy.Valid() && Invariant(key, start) && Expirable(start.Contributors())
    requires OnlyCallbacks(inputs) && Allowed(key, policy, start, inputs)
    ensures |inputs| <= |start.Contributors()| + 1
    ensures var o := Run(policy, start, inputs).0;
      o.eventTimer.None? && o.processingTimer.None? <==> o == Operator(None, None, None)
  {
    DrainBound(key, policy, start, inputs);
    RunKeepsInvariant(key, policy, start, inputs);
    RunKeepsExpirable(key, policy, start, inputs);
    DrainedIsDeleted(key, Run(policy, start, inputs).0);
  }

  lemma AllowedAppend(key: string, policy: Policy, start: Operator, inputs: seq<Input>, input: Input)
    requires start.state.Some? ==> start.state.value.contributors != map[]
    requires Allowed(key, policy, start, inputs) && Enabled(key, Run(policy, start, inputs).0, input)
    ensures Allowed(key, policy, start, inputs + [input])
  {
    var all := inputs + [input];
    forall i | 0 <= i < |all| ensures Enabled(key, Run(policy, start, all[..i]).0, all[i]) {
      assert all[..i] == inputs[..i];
      if i == |inputs| { assert inputs[..i] == inputs; }
    }
  }

  /** However far it has come, draining can be carried on until the element is deleted. */
  lemma {:induction false} DrainCompletes(key: string, policy: Policy, start: Operator, inputs: seq<Input>)
    requires policy.Valid() && Invariant(key, start) && Expirable(start.Contributors())
    requires OnlyCallbacks(inputs) && Allowed(key, policy, start, inputs)
    ensures exists all: seq<Input> ::
      && inputs <= all && OnlyCallbacks(all) && Allowed(key, policy, start, all)
      && Run(policy, start, all).0 == Operator(None, None, None)
    decreases |start.Contributors()| + 1 - |inputs|
  {
    DrainDeletes(key, policy, start, inputs);
    var o := Run(policy, start, inputs).0;
    if o != Operator(None, None, None) {
      var clock := if o.eventTimer.Some? then EventTime else ProcessingTime;
      var next := Callback(clock, o.Timer(clock).value, 0);
      AllowedAppend(key, policy, start, inputs, next);
      DrainBound(key, policy, start, inputs + [next]);
      DrainCompletes(key, policy, start, inputs + [next]);
    }
  }
}

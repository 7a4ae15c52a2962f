/** The operator object driven by the runtime, against the reference semantics over the whole run. */
module LifecycleReplay {
  import opened Wrappers
  import opened Model
  import opened LifecyclePolicy
  import opened GraphLifecycle
  import opened AttributeWinners
  import opened Timers
  import opened OperatorSteps
  import opened LifecycleRuns
  import opened ElementLifecycle

  /** One input to the reference: `apply` or `expire` on the whole state, no index and no timers. */
  ghost function ReferenceStep(policy: Policy, s: Option<State>, input: Input): (Option<State>, Option<Event>)
    requires s.Some? ==> s.value.contributors != map[]
  {
    match input
    case Observation(c, now) =>
      (match Reference(policy, s, c, now)
       case Failure(_) => (s, None)
       case Success(t) => (t.Next(s), t.Event()))
    case Callback(clock, timestamp, wallClock) =>
      if s.None? then (s, None)
      else
        var t := Expired(s.value, clock, ExpiryTime(clock, timestamp), wallClock);
        (t.Next(s), t.Event())
  }

  ghost function ReferenceRun(policy: Policy, start: Option<State>, inputs: seq<Input>):
    (r: (Option<State>, seq<Event>))
    requires start.Some? ==> start.value.contributors != map[]
    ensures r.0.Some? ==> r.0.value.contributors != map[]
  {
    if inputs == [] then (start, [])
    else
      var before := ReferenceRun(policy, start, inputs[..|inputs| - 1]);
      var (after, event) := ReferenceStep(policy, before.0, inputs[|inputs| - 1]);
      (after, before.1 + if event.Some? then [event.value] else [])
  }

  lemma StepIsReferenceStep(policy: Policy, o: Operator, input: Input)
    requires o.state.Some? ==> o.state.value.contributors != map[]
    ensures var (after, event) := Step(policy, o, input);
      (after.state, event) == ReferenceStep(policy, o.state, input)
  {
  }

  /** Timers and refresh shortcuts never show: state and events are those of the reference. */
  lemma {:induction false} RunIsReferenceRun(policy: Policy, start: Operator, inputs: seq<Input>)
    requires start.state.Some? ==> start.state.value.contributors != map[]
    ensures var (o, events) := Run(policy, start, inputs);
      (o.state, events) == ReferenceRun(policy, start.state, inputs)
  {
    if inputs != [] {
      var front, last := inputs[..|inputs| - 1], inputs[|inputs| - 1];
      RunIsReferenceRun(policy, start, front);
      StepIsReferenceStep(policy, Run(policy, start, front).0, last);
    }
  }

  /** The runtime's loop for one key: set the clocks, deliver, collect. */
  method Replay(operator: LifecycleFunction, timers: TimerService, inputs: seq<Input>) returns (events: seq<Event>)
    requires operator.Valid(timers) && operator.policy.Valid()
    requires Invariant(operator.key, operator.View())
    requires Allowed(operator.key, operator.policy, operator.View(), inputs)
    modifies operator, timers
    ensures operator.Valid(timers) && Invariant(operator.key, operator.View())
    ensures (operator.View(), events) == Run(operator.policy, old(operator.View()), inputs)
    ensures (operator.State(), events) == ReferenceRun(operator.policy, old(operator.State()), inputs)
    ensures operator.State().Some? ==> operator.winners.Some? ==>
      operator.winners.value == Rebuilt(operator.key, operator.contributors)
  {
    ghost var start := operator.View();
    events := [];
    for i := 0 to |inputs|
      invariant operator.Valid(timers)
      invariant (operator.View(), events) == Run(operator.policy, start, inputs[..i])
    {
      assert inputs[..i + 1][..i] == inputs[..i];
      assert Enabled(operator.key, operator.View(), inputs[i]);
      var event := Deliver(operator, timers, inputs[i]);
      events := events + if event.Some? then [event.value] else [];
    }
    assert inputs[..|inputs|] == inputs;
    RunKeepsInvariant(operator.key, operator.policy, start, inputs);
    RunIsReferenceRun(operator.policy, start, inputs);
  }

  method Deliver(operator: LifecycleFunction, timers: TimerService, input: Input) returns (event: Option<Event>)
    requires operator.Valid(timers) && operator.policy.Valid()
    requires Enabled(operator.key, operator.View(), input)
    modifies operator, timers
    ensures operator.Valid(timers)
    ensures (operator.View(), event) == Step(operator.policy, old(operator.View()), input)
  {
    match input {
      case Observation(c, now) =>
        timers.watermark, timers.processingTime := now.watermark, now.processingTime;
        var r := operator.ProcessElement(c, timers, now.wallClock);
        event := if r.Success? then r.value else None;
      case Callback(clock, timestamp, wallClock) =>
        timers.Delete(clock, timestamp);
        event := operator.OnTimer(clock, timestamp, timers, wallClock);
    }
  }
}

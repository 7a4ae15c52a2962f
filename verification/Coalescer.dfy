/** ContributionCoalescer.java: the keyed operator with its five cells and one processing-time timer. */
module Coalescer {
  import opened Wrappers
  import opened Model
  import opened LifecyclePolicy
  import opened GraphLifecycle
  import opened Timers
  import opened CoalescerSteps

  class ContributionCoalescer {
    const intervalMillis: int
    const policy: Policy
    var latest: Option<Contribution>
    var lastForwarded: Option<int>
    var lastSeen: Option<int>
    var pending: Option<bool>
    var timer: Option<int>

    constructor (intervalSeconds: int, policy: Policy, timers: TimerService)
      requires intervalSeconds >= 0 && timers.processingTimers == {}
      ensures this.policy == policy && intervalMillis == intervalSeconds * MILLIS_PER_SECOND
      ensures Valid(timers) && View() == None
    {
      this.policy, intervalMillis := policy, intervalSeconds * MILLIS_PER_SECOND;
      latest, lastForwarded, lastSeen, pending, timer := None, None, None, None, None;
    }

    /** The cells are all set or all clear. */
    ghost predicate CellsAgree()
      reads this
    {
      && (latest.Some? <==> timer.Some?)
      && (latest.Some? <==> lastForwarded.Some?)
      && (latest.Some? <==> lastSeen.Some?)
      && (latest.Some? <==> pending.Some?)
      && (latest.Some? ==> policy.TtlSeconds(latest.value.element).Some?)
    }

    /** And the registered timer is the one in its cell. */
    ghost predicate Valid(timers: TimerService)
      reads this, timers
    {
      CellsAgree() && TimerAgrees(timers)
    }

    ghost predicate TimerAgrees(timers: TimerService)
      reads this, timers
    {
      timers.processingTimers == if timer.None? then {} else {timer.value}
    }

    function View(): Option<Tracking>
      reads this
    {
      if latest.Some? && lastForwarded.Some? && lastSeen.Some? && pending.Some? && timer.Some?
      then Some(Tracking(latest.value, lastForwarded.value, lastSeen.value, pending.value, timer.value))
      else None
    }

    method ReplaceTimer(deadline: int, timers: TimerService)
      requires TimerAgrees(timers)
      modifies `timer, timers`eventTimers, timers`processingTimers
      ensures timer == Some(deadline) && TimerAgrees(timers)
      ensures timers.eventTimers == old(timers.eventTimers)
    {
      if timer == Some(deadline) { return; }
      assert timers.Registered(ProcessingTime) == timers.processingTimers;
      assert timers.Registered(EventTime) == timers.eventTimers;
      if timer.Some? { timers.Delete(ProcessingTime, timer.value); }
      timers.Register(ProcessingTime, deadline);
      assert timers.Registered(ProcessingTime) == timers.processingTimers;
      assert timers.Registered(EventTime) == timers.eventTimers;
      timer := Some(deadline);
    }

    /** Sends a report on and waits for the key to go quiet. */
    method Forward(c: Contribution, now: int, timers: TimerService)
      returns (r: Result<Option<Contribution>, Model.Failure>)
      requires TimerAgrees(timers) && latest == Some(c) && lastSeen == Some(now)
      modifies `lastForwarded, `pending, `timer, timers`eventTimers, timers`processingTimers
      ensures r.Failure? <==> policy.TtlSeconds(c.element).None?
      ensures r.Failure? ==> r.error == NoTypePrefix
      ensures r.Success? ==> r.value == Some(c) && Valid(timers)
      ensures r.Success? ==> View() == Some(Forwarded(c, now, policy.TtlSeconds(c.element).value))
    {
      lastForwarded := Some(now);
      pending := Some(false);
      var ttl := policy.TtlSeconds(c.element);
      if ttl.None? { return Failure(NoTypePrefix); }
      ReplaceTimer(now + ttl.value * MILLIS_PER_SECOND, timers);
      return Success(Some(c));
    }

    /** On failure the job restarts from its checkpoint, so nothing is promised about the cells. */
    method ProcessElement(c: Contribution, timers: TimerService)
      returns (r: Result<Option<Contribution>, Model.Failure>)
      requires Valid(timers)
      modifies this, timers`eventTimers, timers`processingTimers
      ensures intervalMillis == 0 ==> r == Success(Some(c)) && View() == old(View()) && Valid(timers)
      ensures intervalMillis != 0 ==>
        match Receive(policy, intervalMillis, old(View()), c, timers.processingTime)
        case None => r == Failure(NoTypePrefix)
        case Some((after, output)) => r == Success(output) && View() == after && Valid(timers)
    {
      if intervalMillis == 0 { return Success(Some(c)); }
      var previous := latest;
      if previous.Some? && c.observedAt < previous.value.observedAt { return Success(None); }
      var now := timers.processingTime;
      latest := Some(c);
      lastSeen := Some(now);
      if previous.None? {
        r := Forward(c, now, timers);
        return;
      }
      if c.element != previous.value.element {
        r := Forward(c, now, timers);
        return;
      }
      var nextRefresh := lastForwarded.value + intervalMillis;
      if now >= nextRefresh {
        r := Forward(c, now, timers);
        return;
      }
      pending := Some(true);
      ReplaceTimer(nextRefresh, timers);
      return Success(None);
    }

    /** Called after the timer service has removed the timer that fired; a stale one is ignored. */
    method OnTimer(timestamp: int, timers: TimerService) returns (output: Option<Contribution>)
      requires CellsAgree()
      requires timers.processingTimers == (if timer.None? then {} else {timer.value}) - {timestamp}
      modifies this, timers`eventTimers, timers`processingTimers
      ensures Valid(timers)
      ensures (View(), output) == Fire(policy, old(View()), timestamp)
    {
      var expected := timer;
      if expected.None? || expected.value != timestamp { return None; }
      timer := None;
      var current := latest;
      var deadline := lastSeen.value + policy.TtlSeconds(current.value.element).value * MILLIS_PER_SECOND;
      if pending == Some(true) {
        lastForwarded := Some(timestamp);
        pending := Some(false);
        ReplaceTimer(deadline, timers);
        return current;
      }
      if timestamp >= deadline {
        latest, lastForwarded, lastSeen, pending, timer := None, None, None, None, None;
      } else {
        ReplaceTimer(deadline, timers);
      }
      return None;
    }
  }
}

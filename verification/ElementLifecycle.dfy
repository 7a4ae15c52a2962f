/** ElementLifecycleFunction.java: the keyed operator with its five state cells. */
module ElementLifecycle {
  import opened Wrappers
  import opened Model
  import opened LifecyclePolicy
  import opened GraphLifecycle
  import opened AttributeWinners
  import opened Timers
  import opened OperatorSteps

  /** The two exceptions of `loadState`. */
  datatype Corruption = ContributorsWithoutAggregate | AggregateWithoutContributors

  function AsSet(timer: Option<int>): set<int> {
    if timer.None? then {} else {timer.value}
  }

  class LifecycleFunction {
    const key: string
    const policy: Policy
    var contributors: Contributors
    var aggregate: Option<Aggregate>
    var winners: Option<Index>
    var eventTimer: Option<int>
    var processingTimer: Option<int>

    constructor (key: string, policy: Policy)
      ensures this.key == key && this.policy == policy
      ensures CellsAgree() && contributors == map[] && eventTimer.None? && processingTimer.None?
    {
      this.key, this.policy := key, policy;
      contributors, aggregate, winners, eventTimer, processingTimer := map[], None, None, None, None;
    }

    /**
     Contributors, hash and index always tell the same story. The index may be missing: savepoints
     taken before it existed restore without one.
     */
    ghost predicate CellsAgree()
      reads `contributors, `aggregate, `winners
    {
      if contributors == map[] then aggregate.None? && winners.None?
      else
        && Coherent(key, contributors)
        && aggregate == Some(Aggregate(key, PayloadHash(Merged(key, contributors))))
        && (winners.Some? ==> winners.value == Rebuilt(key, contributors))
    }

    function Cell(clock: Clock): Option<int>
      reads `eventTimer, `processingTimer
    {
      if clock.EventTime? then eventTimer else processingTimer
    }

    /** Each clock has at most one registered timer, the one in its cell. */
    ghost predicate TimersAgree(timers: TimerService)
      reads `eventTimer, `processingTimer, timers`eventTimers, timers`processingTimers
    {
      forall clock :: timers.Registered(clock) == AsSet(Cell(clock))
    }

    ghost predicate Valid(timers: TimerService)
      reads this, timers`eventTimers, timers`processingTimers
    {
      CellsAgree() && TimersAgree(timers)
    }

    ghost function State(): (s: Option<State>)
      reads `contributors
      ensures s.Some? ==> s.value.contributors != map[]
      ensures s.Some? && Coherent(key, contributors) ==> WellFormed(s.value)
    {
      if contributors == map[] then None
      else Some(Model.State(key, contributors, PayloadHash(Merged(key, contributors))))
    }

    ghost function View(): (o: Operator)
      reads `contributors, `eventTimer, `processingTimer
      ensures o.state.Some? ==> o.state.value.contributors != map[]
    {
      Operator(State(), Cell(EventTime), Cell(ProcessingTime))
    }

    // ----- timers -----

    method ReplaceTimer(clock: Clock, deadline: Option<int>, timers: TimerService)
      requires TimersAgree(timers)
      modifies `eventTimer, `processingTimer, timers`eventTimers, timers`processingTimers
      ensures TimersAgree(timers) && Cell(clock) == deadline
      ensures forall other | other != clock :: Cell(other) == old(Cell(other))
    {
      var previous := Cell(clock);
      if previous == deadline { return; }
      if previous.Some? { timers.Delete(clock, previous.value); }
      if deadline.Some? { timers.Register(clock, deadline.value); }
      if clock.EventTime? { eventTimer := deadline; } else { processingTimer := deadline; }
    }

    /** Keeps an earlier wake-up on refresh. */
    method AdvanceTimer(clock: Clock, deadline: Option<int>, timers: TimerService)
      requires TimersAgree(timers)
      modifies `eventTimer, `processingTimer, timers`eventTimers, timers`processingTimers
      ensures TimersAgree(timers) && Cell(clock) == EarlierOf(old(Cell(clock)), deadline)
      ensures forall other | other != clock :: Cell(other) == old(Cell(other))
    {
      var previous := Cell(clock);
      if deadline.Some? && (previous.None? || deadline.value < previous.value) {
        ReplaceTimer(clock, deadline, timers);
      }
    }

    /** Both wake-ups after a refresh by one snapshot. */
    method AdvanceTimers(snapshot: Snapshot, timers: TimerService)
      requires TimersAgree(timers)
      modifies `eventTimer, `processingTimer, timers`eventTimers, timers`processingTimers
      ensures TimersAgree(timers)
      ensures Cell(EventTime) == EarlierOf(old(Cell(EventTime)), TimerFor(snapshot, EventTime))
      ensures Cell(ProcessingTime) == EarlierOf(old(Cell(ProcessingTime)), TimerFor(snapshot, ProcessingTime))
    {
      AdvanceTimer(EventTime, TimerFor(snapshot, EventTime), timers);
      AdvanceTimer(ProcessingTime, TimerFor(snapshot, ProcessingTime), timers);
    }

    method ScheduleTimers(s: Option<State>, timers: TimerService)
      requires TimersAgree(timers)
      modifies `eventTimer, `processingTimer, timers`eventTimers, timers`processingTimers
      ensures TimersAgree(timers)
      ensures Cell(EventTime) == Earliest(ContributorsOf(s), EventTime)
      ensures Cell(ProcessingTime) == Earliest(ContributorsOf(s), ProcessingTime)
    {
      var m := ContributorsOf(s);
      var nextEvent := NextTimer(m, EventTime);
      var nextProcessing := NextTimer(m, ProcessingTime);
      ReplaceTimer(EventTime, nextEvent, timers);
      ReplaceTimer(ProcessingTime, nextProcessing, timers);
    }

    // ----- loading and storing the reference state -----

    method LoadState() returns (r: Result<Option<State>, Corruption>)
      ensures CellsAgree() ==> r == Success(State())
      ensures aggregate.None? && contributors != map[] <==> r == Failure(ContributorsWithoutAggregate)
      ensures aggregate.Some? && contributors == map[] <==> r == Failure(AggregateWithoutContributors)
    {
      if aggregate.None? {
        return if contributors != map[] then Failure(ContributorsWithoutAggregate) else Success(None);
      }
      if contributors == map[] { return Failure(AggregateWithoutContributors); }
      return Success(Some(Model.State(aggregate.value.elementId, contributors, aggregate.value.lastHash)));
    }

    /** Writes only the entries that differ, and rebuilds the index. */
    method PersistState(previous: Option<State>, current: Option<State>)
      requires contributors == ContributorsOf(previous)
      requires previous.Some? ==> aggregate == Some(Aggregate(previous.value.elementId, previous.value.lastHash))
      requires previous.Some? && current.Some? ==> previous.value.elementId == current.value.elementId
      requires current.Some? ==> Coherent(current.value.elementId, current.value.contributors)
      modifies `contributors, `aggregate, `winners
      ensures contributors == ContributorsOf(current)
      ensures current.None? ==> aggregate.None? && winners.None?
      ensures current.Some? ==> aggregate == Some(Aggregate(current.value.elementId, current.value.lastHash))
      ensures current.Some? ==> winners == Some(Rebuilt(current.value.elementId, current.value.contributors))
    {
      if current.None? {
        contributors, aggregate, winners := map[], None, None;
        return;
      }
      var target := current.value.contributors;
      var index := Rebuild(current.value.elementId, target);
      winners := Some(index);
      RemoveMissing(target);
      PutChanged(ContributorsOf(previous), target);
      if previous.None? || previous.value.lastHash != current.value.lastHash {
        aggregate := Some(Aggregate(current.value.elementId, current.value.lastHash));
      }
    }

    method RemoveMissing(target: Contributors)
      modifies `contributors
      ensures contributors == map id | id in old(contributors) && id in target :: old(contributors)[id]
    {
      var todo := contributors.Keys;
      while todo != {}
        invariant todo <= old(contributors.Keys)
        invariant forall id :: id in contributors <==> id in old(contributors) && (id in todo || id in target)
        invariant forall id | id in contributors :: contributors[id] == old(contributors)[id]
      {
        var id :| id in todo;
        todo := todo - {id};
        if id !in target { contributors := contributors - {id}; }
      }
    }

    method PutChanged(before: Contributors, target: Contributors)
      requires contributors == map id | id in before && id in target :: before[id]
      modifies `contributors
      ensures contributors == target
    {
      var todo := target.Keys;
      while todo != {}
        invariant todo <= target.Keys
        invariant forall id :: id in contributors <==> id in target && (id in before || id !in todo)
        invariant forall id | id in contributors :: contributors[id] == if id in todo then before[id] else target[id]
      {
        var id :| id in todo;
        todo := todo - {id};
        if id !in before || before[id] != target[id] { contributors := contributors[id := target[id]]; }
      }
    }

    /** `update` for a transition that changed the state. */
    method Update(previous: Option<State>, next: Option<State>, timers: TimerService)
      requires Valid(timers) && previous == State()
      requires next.Some? ==> next.value.elementId == key && WellFormed(next.value)
      modifies this, timers`eventTimers, timers`processingTimers
      ensures Valid(timers)
      ensures View() == Operator(
        next, Earliest(ContributorsOf(next), EventTime), Earliest(ContributorsOf(next), ProcessingTime))
    {
      PersistState(previous, next);
      ScheduleTimers(next, timers);
    }

    // ----- the operator's callbacks -----

    /** The stored index, or one rebuilt from a state that has none; None for an empty key. */
    method CurrentIndex() returns (index: Option<Index>, previousHash: Option<Hash>)
      requires CellsAgree()
      ensures contributors == map[] ==> index.None? && previousHash.None?
      ensures contributors != map[] ==>
        index == Some(Rebuilt(key, contributors)) && previousHash == Some(PayloadHash(Merged(key, contributors)))
    {
      if winners.Some? { return winners, Some(aggregate.value.lastHash); }
      var loaded := LoadState();
      var legacy := loaded.value;
      if legacy.None? { return None, None; }
      var rebuilt := Rebuild(key, legacy.value.contributors);
      return Some(rebuilt), Some(legacy.value.lastHash);
    }

    /** The index after a refresh, computed incrementally unless the key was empty. */
    method RefreshedIndex(index: Option<Index>, c: Contribution, snapshot: Snapshot)
      returns (r: Result<Index, Model.Failure>)
      requires CellsAgree() && c.element.id == key
      requires snapshot.element == c.element && snapshot.observedAt == c.observedAt
      requires contributors == map[] ==> index.None?
      requires contributors != map[] ==> index == Some(Rebuilt(key, contributors))
      requires !Stale(contributors, c) && !Loses(contributors, c)
      ensures r.Failure? ==> r.error == IdentityConflict && Rejects(View(), c)
      ensures r.Success? ==> !Rejects(View(), c)
      ensures r.Success? ==> Coherent(key, contributors[c.contributorId := snapshot])
      ensures r.Success? ==> r.value == Rebuilt(key, contributors[c.contributorId := snapshot])
    {
      if index.None? {
        CoherentAfterReport(None, c, snapshot);
        var initial := Rebuild(c.element.id, map[c.contributorId := snapshot]);
        return Success(initial);
      }
      LosesAttributeMeans(key, contributors, c.contributorId, c.element);
      OwnersHold(contributors);
      r := AttributeWinners.Observe(
        index.value, c.contributorId, snapshot, c.contributorId in contributors, contributors);
      if r.Success? {
        ObserveIsRebuild(key, contributors, c.contributorId, snapshot);
        CoherentReport(key, contributors, c.contributorId, snapshot);
      }
    }

    /** The writes of a refresh: cells that did not change are left alone. */
    method StoreRefresh(c: Contribution, snapshot: Snapshot, next: Index, previousHash: Option<Hash>, wallClock: int)
      returns (event: Option<Event>)
      requires CellsAgree() && c.element.id == key
      requires previousHash == if contributors == map[] then None else Some(PayloadHash(Merged(key, contributors)))
      requires Coherent(key, contributors[c.contributorId := snapshot])
      requires next == Rebuilt(key, contributors[c.contributorId := snapshot])
      modifies `contributors, `winners, `aggregate
      ensures CellsAgree() && contributors == old(contributors)[c.contributorId := snapshot]
      ensures Changed(State(), event) ==
        Announce(old(State()), key, contributors, Merged(key, contributors), c.observedAt, wallClock)
    {
      var hash :=
        if winners.Some? && next.element == winners.value.element then previousHash.value
        else PayloadHash(next.element);
      contributors := contributors[c.contributorId := snapshot];
      if winners != Some(next) { winners := Some(next); }
      var compact := Aggregate(next.element.id, hash);
      if aggregate != Some(compact) { aggregate := Some(compact); }
      event := if previousHash == Some(hash) then None
               else Some(UpsertEvent(next.element.id, next.element, c.observedAt, wallClock));
    }

    method Refresh(
      index: Option<Index>, previousHash: Option<Hash>, c: Contribution, ttl: int, timers: TimerService, wallClock: int)
      returns (r: Result<Option<Event>, Model.Failure>)
      requires Valid(timers) && c.element.id == key
      requires ttl > 0 && policy.TtlSeconds(c.element) == Some(ttl)
      requires !Stale(contributors, c) && !Loses(contributors, c)
      requires contributors == map[] ==> index.None? && previousHash.None?
      requires contributors != map[] ==>
        index == Some(Rebuilt(key, contributors)) && previousHash == Some(PayloadHash(Merged(key, contributors)))
      modifies this, timers`eventTimers, timers`processingTimers
      ensures Valid(timers)
      ensures Reported(policy, old(View()), c, Instant(timers.watermark, timers.processingTime, wallClock), r, View())
    {
      var now := Instant(timers.watermark, timers.processingTime, wallClock);
      RefreshIsReport(policy, View(), c, now, ttl);
      var snapshot := SnapshotOf(c, ttl, now.WatermarkNanos(), now.processingTime);
      var next := RefreshedIndex(index, c, snapshot);
      if next.Failure? { return Failure(next.error); }
      var event := StoreRefresh(c, snapshot, next.value, previousHash, wallClock);
      AdvanceTimers(snapshot, timers);
      return Success(event);
    }

    /**
     The common refresh path, which never visits other contributors except current owners. Returns
     whether it handled the report; if not, nothing has changed.
     */
    method Observe(c: Contribution, timers: TimerService, wallClock: int)
      returns (r: Result<(bool, Option<Event>), Model.Failure>)
      requires Valid(timers) && c.element.id == key && policy.Valid()
      modifies this, timers`eventTimers, timers`processingTimers
      ensures Valid(timers)
      ensures Handled(policy, old(View()), c, Instant(timers.watermark, timers.processingTime, wallClock), r, View())
    {
      var now := Instant(timers.watermark, timers.processingTime, wallClock);
      if c.contributorId in contributors && c.observedAt < contributors[c.contributorId].observedAt {
        return Success((true, None));
      }
      var index, previousHash := CurrentIndex();
      if index.Some? {
        LosesAttributeMeans(key, contributors, c.contributorId, c.element);
        if index.value.LosesAttribute(c.contributorId, c.element) { return Success((false, None)); }
      }
      var ttl := policy.TtlSeconds(c.element);
      if ttl.None? { return Failure(NoTypePrefix); }
      var refreshed := Refresh(index, previousHash, c, ttl.value, timers, wallClock);
      if refreshed.Failure? { return Failure(refreshed.error); }
      return Success((true, refreshed.value));
    }

    /** The rescan path: `apply` on the whole state. */
    method ApplyToState(c: Contribution, ttl: int, timers: TimerService, wallClock: int)
      returns (r: Result<Option<Event>, Model.Failure>)
      requires Valid(timers) && c.element.id == key
      requires ttl > 0 && policy.TtlSeconds(c.element) == Some(ttl)
      requires !Stale(View().Contributors(), c) && Loses(View().Contributors(), c)
      modifies this, timers`eventTimers, timers`processingTimers
      ensures Valid(timers)
      ensures Reported(policy, old(View()), c, Instant(timers.watermark, timers.processingTime, wallClock), r, View())
    {
      var now := Instant(timers.watermark, timers.processingTime, wallClock);
      var loaded := LoadState();
      var previous := loaded.value;
      var applied := Apply(previous, c, ttl, now.WatermarkNanos(), now.processingTime, wallClock);
      RescanIsReport(policy, View(), c, now, ttl, applied);
      if applied.Failure? { return Failure(applied.error); }
      Update(previous, applied.value.next, timers);
      return Success(applied.value.event);
    }

    method ProcessElement(c: Contribution, timers: TimerService, wallClock: int)
      returns (r: Result<Option<Event>, Model.Failure>)
      requires Valid(timers) && c.element.id == key && policy.Valid()
      modifies this, timers`eventTimers, timers`processingTimers
      ensures Valid(timers)
      ensures Reported(policy, old(View()), c, Instant(timers.watermark, timers.processingTime, wallClock), r, View())
    {
      var observed := Observe(c, timers, wallClock);
      if observed.Failure? { return Failure(observed.error); }
      if observed.value.0 { return Success(observed.value.1); }
      var ttl := policy.TtlSeconds(c.element);
      if ttl.None? { return Failure(NoTypePrefix); }
      r := ApplyToState(c, ttl.value, timers, wallClock);
    }

    /** The timer that fired is gone from the timer service; its cell follows. */
    method ForgetTimer(clock: Clock, timers: TimerService)
      requires timers.Registered(clock) == {}
      requires forall other | other != clock :: timers.Registered(other) == AsSet(Cell(other))
      modifies `eventTimer, `processingTimer
      ensures TimersAgree(timers)
      ensures View() == old(View()).Without(clock)
    {
      if clock.EventTime? { eventTimer := None; } else { processingTimer := None; }
    }

    /** Called after the timer service has removed the timer that fired. */
    method OnTimer(clock: Clock, timestamp: int, timers: TimerService, wallClock: int) returns (output: Option<Event>)
      requires CellsAgree() && timers.Registered(clock) == {}
      requires forall other | other != clock :: timers.Registered(other) == AsSet(Cell(other))
      modifies this, timers`eventTimers, timers`processingTimers
      ensures Valid(timers)
      ensures (View(), output) == Fire(old(View()), clock, timestamp, wallClock)
    {
      ForgetTimer(clock, timers);
      var loaded := LoadState();
      var previous := loaded.value;
      if previous.None? { return None; }
      ghost var before := View();
      var t := Expire(previous.value, clock, ExpiryTime(clock, timestamp), wallClock);
      ExpiredWellFormed(previous.value, clock, ExpiryTime(clock, timestamp), wallClock);
      if t.Unchanged? {
        ScheduleTimers(previous, timers);
      } else {
        Update(previous, t.next, timers);
      }
      return t.Event();
    }
  }

  /** One report moves the operator and emits exactly as `Report` says; a rejected one changes nothing. */
  ghost predicate Reported(
    policy: Policy, before: Operator, c: Contribution, now: Instant,
    r: Result<Option<Event>, Model.Failure>, after: Operator)
    requires before.state.Some? ==> before.state.value.contributors != map[]
  {
    match r
    case Success(event) => Report(policy, before, c, now) == Success((after, event))
    case Failure(error) => after == before && Report(policy, before, c, now) == Failure(error)
  }

  /** What the refresh path promises its caller. */
  ghost predicate Handled(
    policy: Policy, before: Operator, c: Contribution, now: Instant,
    r: Result<(bool, Option<Event>), Model.Failure>, after: Operator)
    requires before.state.Some? ==> before.state.value.contributors != map[]
  {
    match r
    case Success((false, _)) =>
      after == before && !Stale(before.Contributors(), c) && Loses(before.Contributors(), c)
    case Success((true, event)) => Report(policy, before, c, now) == Success((after, event))
    case Failure(error) => after == before && Report(policy, before, c, now) == Failure(error)
  }
}

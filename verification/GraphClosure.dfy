/**
 The whole graph of reference states, fed complete service-graph datapoints at common clocks: no edge
 outlives its endpoints.
 */
module GraphClosure {
  import opened Wrappers
  import opened Model
  import opened LifecyclePolicy
  import opened GraphLifecycle
  import opened OperatorSteps
  import opened Identity

  type Graph = map<string, State>

  /** The id of an element fixes its kind, type and endpoints. */
  predicate WellIdentified(e: Element) {
    match e
    case Node(id, semanticType, _) => semanticType != "edge" && EntityType(id) == Some(semanticType)
    case Edge(id, semanticType, sourceId, targetId, _) => id == EdgeId(sourceId, semanticType, targetId)
  }

  lemma SameIdSameIdentity(a: Element, b: Element)
    requires WellIdentified(a) && WellIdentified(b) && a.id == b.id
    ensures a.Identity() == b.Identity()
  {
    if a.Edge? { EdgeIdType(a.sourceId, a.semanticType, a.targetId); }
    if b.Edge? { EdgeIdType(b.sourceId, b.semanticType, b.targetId); }
    if a.Edge? && b.Edge? {
      EdgeIdInjective(a.sourceId, a.semanticType, a.targetId, b.sourceId, b.semanticType, b.targetId);
    }
  }

  /** One datapoint's contributions: one contributor, one time, its elements by id. */
  datatype Datapoint = Datapoint(contributorId: string, observedAt: int, elements: map<string, Element>) {
    function Contribution(id: string): Contribution
      requires id in elements
    {
      Model.Contribution(contributorId, observedAt, elements[id])
    }
  }

  /** Both endpoints of every edge are nodes of the same collection of elements. */
  predicate ClosedElements(elements: map<string, Element>) {
    && (forall id | id in elements :: elements[id].id == id && WellIdentified(elements[id]))
    && forall id | id in elements && elements[id].Edge? ::
      && elements[id].sourceId in elements && elements[elements[id].sourceId].Node?
      && elements[id].targetId in elements && elements[elements[id].targetId].Node?
  }

  predicate Closed(d: Datapoint) {
    d.observedAt > 0 && ClosedElements(d.elements)
  }

  // ----- steps -----

  function StateOf(g: Graph, id: string): Option<State> {
    if id in g then Some(g[id]) else None
  }

  ghost function AfterReport(policy: Policy, s: Option<State>, c: Contribution, now: Instant): Option<State>
    requires s.Some? ==> s.value.contributors != map[]
  {
    match Reference(policy, s, c, now)
    case Failure(_) => s
    case Success(t) => t.Next(s)
  }

  ghost predicate Nonempty(g: Graph) {
    forall id | id in g :: g[id].contributors != map[]
  }

  ghost function StateAfterDatapoint(policy: Policy, g: Graph, d: Datapoint, now: Instant, id: string): Option<State>
    requires Nonempty(g)
  {
    if id in d.elements then AfterReport(policy, StateOf(g, id), d.Contribution(id), now) else StateOf(g, id)
  }

  ghost function AfterDatapoint(policy: Policy, g: Graph, d: Datapoint, now: Instant): Graph
    requires Nonempty(g)
  {
    map id | id in g.Keys + d.elements.Keys && StateAfterDatapoint(policy, g, d, now, id).Some? ::
      StateAfterDatapoint(policy, g, d, now, id).value
  }

  lemma StateOfAfterDatapoint(policy: Policy, g: Graph, d: Datapoint, now: Instant, id: string)
    requires Nonempty(g)
    ensures StateOf(AfterDatapoint(policy, g, d, now), id) == StateAfterDatapoint(policy, g, d, now, id)
  {
  }

  ghost function StateAfterExpiry(g: Graph, clock: Clock, timestamp: int, wallClock: int, id: string): Option<State>
    requires Nonempty(g)
  {
    if id in g then Expired(g[id], clock, timestamp, wallClock).Next(Some(g[id])) else None
  }

  /** Every element expires at one common time. */
  ghost function AfterExpiry(g: Graph, clock: Clock, timestamp: int, wallClock: int): Graph
    requires Nonempty(g)
  {
    map id | id in g && StateAfterExpiry(g, clock, timestamp, wallClock, id).Some? ::
      StateAfterExpiry(g, clock, timestamp, wallClock, id).value
  }

  lemma StateOfAfterExpiry(g: Graph, clock: Clock, timestamp: int, wallClock: int, id: string)
    requires Nonempty(g)
    ensures StateOf(AfterExpiry(g, clock, timestamp, wallClock), id)
      == StateAfterExpiry(g, clock, timestamp, wallClock, id)
  {
  }

  // ----- invariant -----

  function LiveIn(s: Option<State>, contributor: string): Option<Snapshot> {
    if contributor in ContributorsOf(s) then Some(ContributorsOf(s)[contributor]) else None
  }

  function Live(g: Graph, id: string, contributor: string): Option<Snapshot> {
    LiveIn(StateOf(g, id), contributor)
  }

  /** `a` is live wherever `b` is, with deadlines at least as late on both clocks. */
  predicate Outlives(a: Option<Snapshot>, b: Snapshot) {
    && a.Some?
    && a.value.eventDeadline.Some? && b.eventDeadline.Some? && a.value.eventDeadline.value >= b.eventDeadline.value
    && a.value.processingDeadline.Some? && b.processingDeadline.Some?
    && a.value.processingDeadline.value >= b.processingDeadline.value
  }

  predicate EndpointsLive(g: Graph, id: string, contributor: string) {
    var s := Live(g, id, contributor);
    s.Some? && s.value.element.Edge? ==>
      && Outlives(Live(g, s.value.element.sourceId, contributor), s.value)
      && Outlives(Live(g, s.value.element.targetId, contributor), s.value)
  }

  /** The latest clocks, and each contributor's latest observation time. */
  datatype Times = Times(watermarkNanos: int, processingTime: int, newest: map<string, int>)

  /** No deadline is later than a report made right now would set it. */
  ghost predicate Bounded(policy: Policy, times: Times, contributor: string, s: Snapshot) {
    && contributor in times.newest && s.observedAt <= times.newest[contributor]
    && policy.TtlSeconds(s.element).Some?
    && var ttl := policy.TtlSeconds(s.element).value;
      && s.eventDeadline.Some? && s.processingDeadline.Some?
      && s.eventDeadline.value <= Max(times.newest[contributor], times.watermarkNanos) + ttl * NANOS_PER_SECOND
      && s.processingDeadline.value <= times.processingTime + ttl * MILLIS_PER_SECOND
  }

  ghost predicate EntryOk(policy: Policy, times: Times, id: string, contributor: string, s: Snapshot) {
    s.element.id == id && WellIdentified(s.element) && Bounded(policy, times, contributor, s)
  }

  ghost predicate Invariant(policy: Policy, g: Graph, times: Times) {
    && (forall id | id in g :: WellFormed(g[id]) && g[id].elementId == id)
    && (forall id, c | id in g && c in g[id].contributors :: EntryOk(policy, times, id, c, g[id].contributors[c]))
    && forall id, c | id in g && c in g[id].contributors :: EndpointsLive(g, id, c)
  }

  lemma EntryHolds(policy: Policy, g: Graph, times: Times, id: string, c: string)
    requires Invariant(policy, g, times) && Live(g, id, c).Some?
    ensures EntryOk(policy, times, id, c, Live(g, id, c).value) && EndpointsLive(g, id, c)
  {
  }

  predicate Enabled(times: Times, d: Datapoint, now: Instant) {
    && Closed(d)
    && now.WatermarkNanos() >= times.watermarkNanos && now.processingTime >= times.processingTime
    && (d.contributorId in times.newest ==> d.observedAt >= times.newest[d.contributorId])
  }

  function TimesAfter(times: Times, d: Datapoint, now: Instant): Times {
    Times(now.WatermarkNanos(), now.processingTime, times.newest[d.contributorId := d.observedAt])
  }

  // ----- a datapoint -----

  lemma EdgeTtlIsShortest(policy: Policy, e: Element, node: Element)
    requires e.Edge? && node.Node? && WellIdentified(node) && (node.id == e.sourceId || node.id == e.targetId)
    requires policy.TtlSeconds(e).Some?
    ensures policy.TtlSeconds(e).value <= policy.TtlSeconds(node).value
  {
  }

  lemma ElementsHaveTtl(policy: Policy, elements: map<string, Element>, id: string)
    requires ClosedElements(elements) && id in elements
    ensures policy.TtlSeconds(elements[id]).Some?
  {
  }

  /** An accepted report, on the reference state alone. */
  lemma AcceptedOnState(policy: Policy, s: Option<State>, c: Contribution, now: Instant)
    requires policy.Valid() && policy.TtlSeconds(c.element).Some?
    requires s.Some? ==> WellFormed(s.value) && !Stale(s.value.contributors, c) && !Conflicts(s.value, c.element)
    ensures var after := AfterReport(policy, s, c, now);
      && after.Some? && WellFormed(after.value) && after.value.elementId == c.element.id
      && after.value.contributors ==
          ContributorsOf(s)[c.contributorId := Incoming(c, policy.TtlSeconds(c.element).value, now)]
  {
    var ttl := policy.TtlSeconds(c.element).value;
    AppliedWellFormed(s, c, ttl, now.WatermarkNanos(), now.processingTime, now.wallClock);
    assert Reference(policy, s, c, now) == Applied(s, c, ttl, now.WatermarkNanos(), now.processingTime, now.wallClock);
  }

  /** No datapoint conflicts with the graph or comes too late for it. */
  lemma DatapointAccepted(policy: Policy, g: Graph, times: Times, d: Datapoint, now: Instant, id: string)
    requires policy.Valid() && Invariant(policy, g, times) && Enabled(times, d, now) && id in d.elements
    ensures Nonempty(g)
    ensures policy.TtlSeconds(d.elements[id]).Some?
    ensures var after := AfterReport(policy, StateOf(g, id), d.Contribution(id), now);
      && after.Some? && WellFormed(after.value) && after.value.elementId == id
      && after.value.contributors == ContributorsOf(StateOf(g, id))[d.contributorId :=
          Incoming(d.Contribution(id), policy.TtlSeconds(d.elements[id]).value, now)]
  {
    var c := d.Contribution(id);
    ElementsHaveTtl(policy, d.elements, id);
    if id in g {
      var other :| other in g[id].contributors;
      var s := g[id].contributors[other];
      assert EntryOk(policy, times, id, other, s);
      SameIdSameIdentity(s.element, c.element);
      AnyIdentity(id, g[id].contributors, other);
      assert d.contributorId in g[id].contributors ==>
        EntryOk(policy, times, id, d.contributorId, g[id].contributors[d.contributorId]);
    }
    AcceptedOnState(policy, StateOf(g, id), c, now);
  }

  lemma LiveInUpdated(before: Option<State>, after: Option<State>, who: string, s: Snapshot, c: string)
    requires after.Some? && after.value.contributors == ContributorsOf(before)[who := s]
    ensures LiveIn(after, c) == if c == who then Some(s) else LiveIn(before, c)
  {
  }

  /** What a datapoint leaves live for one element and contributor. */
  lemma LiveAfterDatapoint(policy: Policy, g: Graph, times: Times, d: Datapoint, now: Instant, id: string, c: string)
    requires policy.Valid() && Invariant(policy, g, times) && Enabled(times, d, now)
    ensures Nonempty(g)
    ensures id in d.elements ==> policy.TtlSeconds(d.elements[id]).Some?
    ensures Live(AfterDatapoint(policy, g, d, now), id, c) ==
      if id in d.elements && c == d.contributorId
      then Some(Incoming(d.Contribution(id), policy.TtlSeconds(d.elements[id]).value, now))
      else Live(g, id, c)
  {
    StateOfAfterDatapoint(policy, g, d, now, id);
    if id in d.elements {
      DatapointAccepted(policy, g, times, d, now, id);
      LiveInUpdated(
        StateOf(g, id), AfterReport(policy, StateOf(g, id), d.Contribution(id), now), d.contributorId,
        Incoming(d.Contribution(id), policy.TtlSeconds(d.elements[id]).value, now), c);
    }
  }

  lemma RefreshOutlives(policy: Policy, times: Times, d: Datapoint, now: Instant, id: string, before: Snapshot)
    requires policy.Valid() && Enabled(times, d, now) && id in d.elements
    requires EntryOk(policy, times, id, d.contributorId, before)
    ensures policy.TtlSeconds(d.elements[id]).Some?
    ensures Outlives(Some(Incoming(d.Contribution(id), policy.TtlSeconds(d.elements[id]).value, now)), before)
  {
    SameIdSameIdentity(before.element, d.elements[id]);
    policy.TtlOfIdentity(before.element, d.elements[id]);
  }

  lemma IncomingOutlives(policy: Policy, d: Datapoint, now: Instant, id: string, endpoint: string)
    requires Closed(d) && id in d.elements && d.elements[id].Edge?
    requires endpoint == d.elements[id].sourceId || endpoint == d.elements[id].targetId
    ensures policy.TtlSeconds(d.elements[id]).Some? && policy.TtlSeconds(d.elements[endpoint]).Some?
    ensures Outlives(
      Some(Incoming(d.Contribution(endpoint), policy.TtlSeconds(d.elements[endpoint]).value, now)),
      Incoming(d.Contribution(id), policy.TtlSeconds(d.elements[id]).value, now))
  {
    ElementsHaveTtl(policy, d.elements, id);
    EdgeTtlIsShortest(policy, d.elements[id], d.elements[endpoint]);
  }

  lemma IncomingOk(policy: Policy, times: Times, d: Datapoint, now: Instant, id: string)
    requires policy.Valid() && Enabled(times, d, now) && id in d.elements && policy.TtlSeconds(d.elements[id]).Some?
    ensures EntryOk(policy, TimesAfter(times, d, now), id, d.contributorId,
                    Incoming(d.Contribution(id), policy.TtlSeconds(d.elements[id]).value, now))
  {
  }

  lemma EntryStaysOk(policy: Policy, times: Times, d: Datapoint, now: Instant, id: string, c: string, s: Snapshot)
    requires EntryOk(policy, times, id, c, s) && Enabled(times, d, now)
    ensures EntryOk(policy, TimesAfter(times, d, now), id, c, s)
  {
  }

  lemma DatapointKeepsEndpoint(
    policy: Policy, g: Graph, times: Times, d: Datapoint, now: Instant, id: string, c: string, endpoint: string)
    requires policy.Valid() && Invariant(policy, g, times) && Enabled(times, d, now)
    requires Nonempty(g)
    requires var s := Live(AfterDatapoint(policy, g, d, now), id, c);
      s.Some? && s.value.element.Edge? && (endpoint == s.value.element.sourceId || endpoint == s.value.element.targetId)
    ensures var after := AfterDatapoint(policy, g, d, now);
      Outlives(Live(after, endpoint, c), Live(after, id, c).value)
  {
    LiveAfterDatapoint(policy, g, times, d, now, id, c);
    LiveAfterDatapoint(policy, g, times, d, now, endpoint, c);
    if id in d.elements && c == d.contributorId {
      IncomingOutlives(policy, d, now, id, endpoint);
    } else {
      EntryHolds(policy, g, times, id, c);
      var before := Live(g, endpoint, c);
      if endpoint in d.elements && c == d.contributorId {
        EntryHolds(policy, g, times, endpoint, c);
        RefreshOutlives(policy, times, d, now, endpoint, before.value);
      }
    }
  }

  lemma EntryAfterDatapoint(policy: Policy, g: Graph, times: Times, d: Datapoint, now: Instant, id: string, c: string)
    requires policy.Valid() && Invariant(policy, g, times) && Enabled(times, d, now)
    requires Nonempty(g) && Live(AfterDatapoint(policy, g, d, now), id, c).Some?
    ensures EntryOk(policy, TimesAfter(times, d, now), id, c, Live(AfterDatapoint(policy, g, d, now), id, c).value)
  {
    LiveAfterDatapoint(policy, g, times, d, now, id, c);
    if id in d.elements && c == d.contributorId {
      IncomingOk(policy, times, d, now, id);
    } else {
      EntryHolds(policy, g, times, id, c);
      EntryStaysOk(policy, times, d, now, id, c, Live(g, id, c).value);
    }
  }

  lemma DatapointKeepsInvariant(policy: Policy, g: Graph, times: Times, d: Datapoint, now: Instant)
    requires policy.Valid() && Invariant(policy, g, times) && Enabled(times, d, now)
    ensures Nonempty(g) && Invariant(policy, AfterDatapoint(policy, g, d, now), TimesAfter(times, d, now))
  {
    var after := AfterDatapoint(policy, g, d, now);
    forall id | id in after ensures WellFormed(after[id]) && after[id].elementId == id {
      if id in d.elements { DatapointAccepted(policy, g, times, d, now, id); }
    }
    forall id, c | id in after && c in after[id].contributors
      ensures EntryOk(policy, TimesAfter(times, d, now), id, c, after[id].contributors[c])
        && EndpointsLive(after, id, c)
    {
      EntryAfterDatapoint(policy, g, times, d, now, id, c);
      var s := Live(after, id, c).value;
      if s.element.Edge? {
        DatapointKeepsEndpoint(policy, g, times, d, now, id, c, s.element.sourceId);
        DatapointKeepsEndpoint(policy, g, times, d, now, id, c, s.element.targetId);
      }
    }
  }

  // ----- a common expiry -----

  lemma LiveAfterExpiry(g: Graph, clock: Clock, timestamp: int, wallClock: int, id: string, c: string)
    requires Nonempty(g)
    ensures var s := Live(g, id, c);
      Live(AfterExpiry(g, clock, timestamp, wallClock), id, c) ==
        if s.Some? && !Due(s.value, clock, timestamp) then s else None
  {
    StateOfAfterExpiry(g, clock, timestamp, wallClock, id);
    if id in g {
      var t := Expired(g[id], clock, timestamp, wallClock);
      assert ContributorsOf(t.Next(Some(g[id]))) == Survivors(g[id].contributors, clock, timestamp);
    }
  }

  lemma ExpiryKeepsEntry(
    policy: Policy, g: Graph, times: Times, clock: Clock, timestamp: int, wallClock: int, id: string, c: string)
    requires Invariant(policy, g, times) && Nonempty(g)
    requires Live(AfterExpiry(g, clock, timestamp, wallClock), id, c).Some?
    ensures var after := AfterExpiry(g, clock, timestamp, wallClock);
      EntryOk(policy, times, id, c, Live(after, id, c).value) && EndpointsLive(after, id, c)
  {
    LiveAfterExpiry(g, clock, timestamp, wallClock, id, c);
    var s := Live(g, id, c).value;
    EntryHolds(policy, g, times, id, c);
    if s.element.Edge? {
      LiveAfterExpiry(g, clock, timestamp, wallClock, s.element.sourceId, c);
      LiveAfterExpiry(g, clock, timestamp, wallClock, s.element.targetId, c);
      LaterIsNotDue(Live(g, s.element.sourceId, c), s, clock, timestamp);
      LaterIsNotDue(Live(g, s.element.targetId, c), s, clock, timestamp);
    }
  }

  lemma LaterIsNotDue(a: Option<Snapshot>, b: Snapshot, clock: Clock, timestamp: int)
    requires Outlives(a, b) && !Due(b, clock, timestamp)
    ensures !Due(a.value, clock, timestamp)
  {
  }

  lemma ExpiryKeepsInvariant(policy: Policy, g: Graph, times: Times, clock: Clock, timestamp: int, wallClock: int)
    requires Invariant(policy, g, times)
    ensures Nonempty(g) && Invariant(policy, AfterExpiry(g, clock, timestamp, wallClock), times)
  {
    var after := AfterExpiry(g, clock, timestamp, wallClock);
    forall id | id in after ensures WellFormed(after[id]) && after[id].elementId == id {
      ExpiredWellFormed(g[id], clock, timestamp, wallClock);
    }
    forall id, c | id in after && c in after[id].contributors
      ensures EntryOk(policy, times, id, c, after[id].contributors[c]) && EndpointsLive(after, id, c)
    {
      ExpiryKeepsEntry(policy, g, times, clock, timestamp, wallClock, id, c);
    }
  }

  // ----- runs -----

  datatype Input =
    | Ingest(datapoint: Datapoint, now: Instant)
    | ExpireAll(clock: Clock, timestamp: int, wallClock: int)

  datatype World = World(graph: Graph, times: Times)

  const FRESH := World(map[], Times(0, 0, map[]))

  ghost function Step(policy: Policy, w: World, input: Input): World {
    if !Nonempty(w.graph) then w
    else match input
      case Ingest(d, now) => World(AfterDatapoint(policy, w.graph, d, now), TimesAfter(w.times, d, now))
      case ExpireAll(clock, timestamp, wallClock) => World(AfterExpiry(w.graph, clock, timestamp, wallClock), w.times)
  }

  ghost function Run(policy: Policy, inputs: seq<Input>): World {
    if inputs == [] then FRESH else Step(policy, Run(policy, inputs[..|inputs| - 1]), inputs[|inputs| - 1])
  }

  ghost predicate Allowed(policy: Policy, inputs: seq<Input>) {
    forall i | 0 <= i < |inputs| && inputs[i].Ingest? ::
      Enabled(Run(policy, inputs[..i]).times, inputs[i].datapoint, inputs[i].now)
  }

  lemma {:induction false} RunKeepsInvariant(policy: Policy, inputs: seq<Input>)
    requires policy.Valid() && Allowed(policy, inputs)
    ensures var w := Run(policy, inputs); Invariant(policy, w.graph, w.times)
  {
    if inputs != [] {
      var front, last := inputs[..|inputs| - 1], inputs[|inputs| - 1];
      forall i | 0 <= i < |front| && front[i].Ingest?
        ensures Enabled(Run(policy, front[..i]).times, front[i].datapoint, front[i].now)
      {
        assert front[..i] == inputs[..i];
      }
      RunKeepsInvariant(policy, front);
      var w := Run(policy, front);
      match last
      case Ingest(d, now) => DatapointKeepsInvariant(policy, w.graph, w.times, d, now);
      case ExpireAll(clock, timestamp, wallClock) =>
        ExpiryKeepsInvariant(policy, w.graph, w.times, clock, timestamp, wallClock);
    }
  }

  /**
   In every reachable graph, a contributor of an edge is live on both endpoint nodes, and its deadlines
   there are at least as late on both clocks.
   */
  lemma NoEdgeOutlivesItsEndpoints(policy: Policy, inputs: seq<Input>, id: string, c: string)
    requires policy.Valid() && Allowed(policy, inputs)
    requires var s := Live(Run(policy, inputs).graph, id, c); s.Some? && s.value.element.Edge?
    ensures var g := Run(policy, inputs).graph;
      var s := Live(g, id, c).value;
      && Outlives(Live(g, s.element.sourceId, c), s)
      && Live(g, s.element.sourceId, c).value.element.id == s.element.sourceId
      && Outlives(Live(g, s.element.targetId, c), s)
      && Live(g, s.element.targetId, c).value.element.id == s.element.targetId
  {
    RunKeepsInvariant(policy, inputs);
    var w := Run(policy, inputs);
    var s := Live(w.graph, id, c).value;
    EntryHolds(policy, w.graph, w.times, id, c);
    EntryHolds(policy, w.graph, w.times, s.element.sourceId, c);
    EntryHolds(policy, w.graph, w.times, s.element.targetId, c);
  }
}

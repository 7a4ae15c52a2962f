/**
 GraphLifecycle.java: contributor merge and lifecycle decisions on plain values. The functions are
 the reference semantics; the methods are the source's loops, which visit contributors in an
 arbitrary order and are proved to compute the functions.
 */
module GraphLifecycle {
  import opened Wrappers
  import opened Model
  import opened LifecyclePolicy
  import Text
  import Extremum

  datatype Clock = EventTime | ProcessingTime

  // ----- which contributor owns an attribute -----

  predicate Wins(candidateId: string, candidate: Snapshot, currentId: string, current: Snapshot) {
    || candidate.observedAt > current.observedAt
    || (candidate.observedAt == current.observedAt && Text.Less(candidateId, currentId))
  }

  predicate Holds(m: Contributors, id: string, name: string) {
    id in m && name in m[id].element.attributes
  }

  /** The newest holder of the attribute, ties going to the smallest contributor id. */
  ghost predicate IsOwner(m: Contributors, name: string, owner: string) {
    && Holds(m, owner, name)
    && forall other | Holds(m, other, name) && other != owner :: Wins(owner, m[owner], other, m[other])
  }

  lemma WinsTotal(a: string, sa: Snapshot, b: string, sb: Snapshot)
    requires a != b
    ensures Wins(a, sa, b, sb) != Wins(b, sb, a, sa)
  {
    Text.LessTotal(a, b);
    if Text.Less(a, b) { Text.LessAsymmetric(a, b); }
  }

  lemma WinsTransitive(a: string, sa: Snapshot, b: string, sb: Snapshot, c: string, sc: Snapshot)
    requires Wins(a, sa, b, sb) && Wins(b, sb, c, sc)
    ensures Wins(a, sa, c, sc)
  {
    if sa.observedAt == sb.observedAt == sc.observedAt { Text.LessTransitive(a, b, c); }
  }

  lemma OwnerUnique(m: Contributors, name: string, a: string, b: string)
    requires IsOwner(m, name, a) && IsOwner(m, name, b)
    ensures a == b
  {
    if a != b { WinsTotal(a, m[a], b, m[b]); }
  }

  /**
   How ownership of one attribute moves when contributor `id` reports `s`: the new report takes the
   attribute when nobody owned it, when `id` owned it already or when it beats the owner; otherwise
   the owner stays. A report may not be older than the one it replaces, nor drop an attribute that
   `id` owns.
   */
  lemma OwnerAfterReport(m: Contributors, id: string, s: Snapshot, name: string)
    requires id in m ==> s.observedAt >= m[id].observedAt
    requires IsOwner(m, name, id) ==> name in s.element.attributes
    ensures name !in s.element.attributes ==>
      forall o :: IsOwner(m, name, o) ==> o != id && IsOwner(m[id := s], name, o)
    ensures name in s.element.attributes ==> forall o :: IsOwner(m, name, o) ==>
      IsOwner(m[id := s], name, if o == id || Wins(id, s, o, m[o]) then id else o)
    ensures name in s.element.attributes && (forall o :: !Holds(m, o, name)) ==> IsOwner(m[id := s], name, id)
  {
    var next := m[id := s];
    forall o | IsOwner(m, name, o)
      ensures name !in s.element.attributes ==> o != id && IsOwner(next, name, o)
      ensures name in s.element.attributes ==>
        IsOwner(next, name, if o == id || Wins(id, s, o, m[o]) then id else o)
    {
      var winner := if name in s.element.attributes && (o == id || Wins(id, s, o, m[o])) then id else o;
      if o != id { WinsTotal(id, s, o, m[o]); }
      forall other | Holds(next, other, name) && other != winner
        ensures Wins(winner, next[winner], other, next[other])
      {
        if winner == id && o != id && other != o {
          assert Holds(m, other, name);
          WinsTransitive(id, s, o, m[o], other, m[other]);
        } else if other != id {
          assert Holds(m, other, name);
        }
      }
    }
  }

  lemma {:induction false} OwnerExists(m: Contributors, name: string)
    requires exists id :: Holds(m, id, name)
    ensures exists o :: IsOwner(m, name, o)
    decreases |m|
  {
    var id :| Holds(m, id, name);
    var rest := m - {id};
    assert rest[id := m[id]] == m;
    assert |m.Keys| == |rest.Keys + {id}|;
    if exists other :: Holds(rest, other, name) { OwnerExists(rest, name); }
    OwnerAfterReport(rest, id, m[id], name);
  }

  ghost function Owner(m: Contributors, name: string): (o: string)
    requires exists id :: Holds(m, id, name)
    ensures IsOwner(m, name, o)
  {
    OwnerExists(m, name);
    var o :| IsOwner(m, name, o);
    o
  }

  function Names(m: Contributors): (names: set<string>)
    ensures forall id, name | Holds(m, id, name) :: name in names
    ensures forall name | name in names :: exists id :: Holds(m, id, name)
  {
    set id, name | id in m && name in m[id].element.attributes && Holds(m, id, name) :: name
  }

  ghost function Owners(m: Contributors): (owners: map<string, string>)
    ensures owners.Keys == Names(m)
    ensures forall name | name in owners :: IsOwner(m, name, owners[name])
  {
    map name | name in Names(m) :: Owner(m, name)
  }

  lemma OwnersUnique(m: Contributors, owners: map<string, string>)
    requires owners.Keys == Names(m)
    requires forall name | name in owners :: IsOwner(m, name, owners[name])
    ensures owners == Owners(m)
  {
    forall name | name in owners ensures owners[name] == Owners(m)[name] {
      OwnerUnique(m, name, owners[name], Owners(m)[name]);
    }
  }

  /** Whether contributor `id`, reporting `s`, takes an attribute that it reports. */
  predicate Claims(m: Contributors, owners: map<string, string>, id: string, s: Snapshot, name: string)
    requires name in owners ==> owners[name] in m
  {
    name !in owners || owners[name] == id || Wins(id, s, owners[name], m[owners[name]])
  }

  function NextOwners(m: Contributors, owners: map<string, string>, id: string, s: Snapshot): map<string, string>
    requires forall name | name in owners :: owners[name] in m
  {
    map name | name in owners.Keys + s.element.attributes.Keys ::
      if name in s.element.attributes && Claims(m, owners, id, s, name) then id else owners[name]
  }

  /** The report loses no attribute that `id` owns, and is not older than the one it replaces. */
  ghost predicate Incremental(m: Contributors, id: string, s: Snapshot) {
    && (id in m ==> s.observedAt >= m[id].observedAt)
    && forall name | IsOwner(m, name, id) :: name in s.element.attributes
  }

  /** The incremental update of the owner index is its full recomputation. */
  lemma NextOwnersAreOwners(m: Contributors, id: string, s: Snapshot)
    requires Incremental(m, id, s)
    ensures NextOwners(m, Owners(m), id, s) == Owners(m[id := s])
  {
    var owners := Owners(m);
    var next := NextOwners(m, owners, id, s);
    NamesAfterReport(m, id, s);
    forall name | name in next ensures IsOwner(m[id := s], name, next[name]) {
      OwnerAfterReport(m, id, s, name);
    }
    OwnersUnique(m[id := s], next);
  }

  lemma NamesAfterReport(m: Contributors, id: string, s: Snapshot)
    requires Incremental(m, id, s)
    ensures Names(m[id := s]) == Names(m) + s.element.attributes.Keys
  {
    var next := m[id := s];
    forall name | name in s.element.attributes ensures name in Names(next) {
      assert Holds(next, id, name);
    }
    forall name | name in Names(m) && name !in s.element.attributes ensures name in Names(next) {
      assert Holds(next, Owner(m, name), name);
    }
    forall name | name in Names(next) && name !in s.element.attributes ensures name in Names(m) {
      var o :| Holds(next, o, name);
      assert Holds(m, o, name);
    }
  }

  function OwnedValues(m: Contributors, owners: map<string, string>): (a: Attributes)
    requires forall name | name in owners :: owners[name] in m && name in m[owners[name]].element.attributes
    ensures a.Keys == owners.Keys
  {
    map name | name in owners :: m[owners[name]].element.attributes[name]
  }

  lemma OwnersHold(m: Contributors)
    ensures forall name | name in Owners(m) :: Owners(m)[name] in m && name in m[Owners(m)[name]].element.attributes
  {
    forall name | name in Owners(m) ensures Owners(m)[name] in m && name in m[Owners(m)[name]].element.attributes {
      assert IsOwner(m, name, Owners(m)[name]);
    }
  }

  ghost function MergedAttributes(m: Contributors): (a: Attributes)
    ensures a.Keys == Names(m)
  {
    OwnersHold(m);
    OwnedValues(m, Owners(m))
  }

  /** A holder newer than every other, or as new and before it in text order. */
  ghost predicate NewestThenFirst(m: Contributors, name: string, o: string) {
    && o in m && name in m[o].element.attributes
    && forall p | p in m && name in m[p].element.attributes && p != o ::
      m[p].observedAt < m[o].observedAt || (m[p].observedAt == m[o].observedAt && Text.Precedes(o, p))
  }

  lemma OwnerIsNewestThenFirst(m: Contributors, name: string, o: string)
    ensures IsOwner(m, name, o) <==> NewestThenFirst(m, name, o)
  {
    forall p | Holds(m, p, name) ensures Text.Less(o, p) <==> Text.Precedes(o, p) { Text.LessIsPrecedes(o, p); }
    if IsOwner(m, name, o) {
      forall p | p in m && name in m[p].element.attributes && p != o
        ensures m[p].observedAt < m[o].observedAt || (m[p].observedAt == m[o].observedAt && Text.Precedes(o, p))
      {
        assert Holds(m, p, name);
      }
    }
  }

  /** Merging keeps exactly the reported attributes, each with the value of its newest, then first, holder. */
  lemma MergedValues(m: Contributors, name: string)
    ensures name in MergedAttributes(m) <==> exists p :: p in m && name in m[p].element.attributes
    ensures name in MergedAttributes(m) ==> exists o :: NewestThenFirst(m, name, o)
    ensures forall o | NewestThenFirst(m, name, o) ::
      name in MergedAttributes(m) && MergedAttributes(m)[name] == m[o].element.attributes[name]
  {
    if name in MergedAttributes(m) { OwnerIsNewestThenFirst(m, name, Owner(m, name)); }
    forall p | p in m && name in m[p].element.attributes ensures name in MergedAttributes(m) {
      assert Holds(m, p, name);
    }
    forall o | NewestThenFirst(m, name, o)
      ensures name in MergedAttributes(m) && MergedAttributes(m)[name] == m[o].element.attributes[name]
    {
      OwnerIsNewestThenFirst(m, name, o);
      assert Holds(m, o, name);
      OwnersHold(m);
      OwnerUnique(m, name, o, Owners(m)[name]);
    }
  }

  // ----- merge -----

  /** Every contributor describes the same element: what `validateIdentity` maintains. */
  predicate Coherent(elementId: string, m: Contributors) {
    && m != map[]
    && forall a, b | a in m && b in m ::
      m[a].element.id == elementId && m[a].element.Identity() == m[b].element.Identity()
  }

  ghost function SomeElement(m: Contributors): (e: Element)
    requires m != map[]
    ensures exists id :: id in m && m[id].element == e
  {
    var id :| id in m;
    m[id].element
  }

  /** One element for all contributors; no iteration order appears in it. */
  ghost function Merged(elementId: string, m: Contributors): (e: Element)
    requires m != map[]
    ensures e.id == elementId && e.attributes == MergedAttributes(m)
  {
    SomeElement(m).(id := elementId, attributes := MergedAttributes(m))
  }

  lemma MergedIdentity(elementId: string, m: Contributors, id: string)
    requires Coherent(elementId, m) && id in m
    ensures Merged(elementId, m).Identity() == m[id].element.Identity()
    ensures Merged(elementId, m) == m[id].element.WithAttributes(MergedAttributes(m))
  {
    var e := SomeElement(m);
    var other :| other in m && m[other].element == e;
    assert m[other].element.Identity() == m[id].element.Identity();
    assert e == e.Identity().(attributes := e.attributes);
    assert m[id].element == m[id].element.Identity().(attributes := m[id].element.attributes);
  }

  /** What the operator stores: one coherent element and the hash of its merge. */
  ghost predicate WellFormed(s: State) {
    Coherent(s.elementId, s.contributors) && s.lastHash == PayloadHash(Merged(s.elementId, s.contributors))
  }

  /** The winner loop shared by `merge` and `AttributeWinners.rebuild`, over any visiting order. */
  method SelectOwners(contributors: Contributors) returns (owners: map<string, string>)
    ensures owners == Owners(contributors)
  {
    owners := map[];
    var remaining := contributors.Keys;
    ghost var seen: Contributors := map[];
    while remaining != {}
      invariant remaining <= contributors.Keys
      invariant seen.Keys == contributors.Keys - remaining
      invariant forall id | id in seen :: seen[id] == contributors[id]
      invariant owners == Owners(seen)
    {
      var id :| id in remaining;
      NextOwnersAreOwners(seen, id, contributors[id]);
      owners := ClaimAttributes(contributors, owners, id, seen);
      remaining := remaining - {id};
      seen := seen[id := contributors[id]];
    }
    assert seen == contributors;
  }

  /** The inner loop: one more contributor claims its attributes. */
  method ClaimAttributes(contributors: Contributors, owners: map<string, string>, id: string, ghost seen: Contributors)
    returns (next: map<string, string>)
    requires id in contributors && id !in seen
    requires forall o | o in seen :: o in contributors && contributors[o] == seen[o]
    requires forall name | name in owners :: owners[name] in seen
    ensures next == NextOwners(seen, owners, id, contributors[id])
  {
    var snapshot := contributors[id];
    next := owners;
    var todo := snapshot.element.attributes.Keys;
    while todo != {}
      invariant todo <= snapshot.element.attributes.Keys
      invariant next.Keys == owners.Keys + (snapshot.element.attributes.Keys - todo)
      invariant forall name | name in next ::
        next[name] == (
          if name in snapshot.element.attributes && name !in todo && Claims(seen, owners, id, snapshot, name) then id
          else owners[name])
    {
      var name :| name in todo;
      todo := todo - {name};
      if name !in owners || Wins(id, snapshot, owners[name], contributors[owners[name]]) {
        next := next[name := id];
      }
    }
  }

  /** The second loop of `merge`: each attribute's value comes from its owner. */
  method CollectValues(contributors: Contributors, owners: map<string, string>) returns (attributes: Attributes)
    requires forall name | name in owners ::
      owners[name] in contributors && name in contributors[owners[name]].element.attributes
    ensures attributes == OwnedValues(contributors, owners)
  {
    attributes := map[];
    var todo := owners.Keys;
    while todo != {}
      invariant todo <= owners.Keys
      invariant attributes.Keys == owners.Keys - todo
      invariant forall name | name in attributes ::
        attributes[name] == contributors[owners[name]].element.attributes[name]
    {
      var name :| name in todo;
      todo := todo - {name};
      attributes := attributes[name := contributors[owners[name]].element.attributes[name]];
    }
  }

  /** `merge`: the identity of whichever contributor comes first, the attributes of the winners. */
  method Merge(elementId: string, contributors: Contributors) returns (e: Element)
    requires contributors != map[]
    ensures e.attributes == MergedAttributes(contributors)
    ensures exists first | first in contributors ::
      e.Identity() == contributors[first].element.(id := elementId).Identity()
    ensures Coherent(elementId, contributors) ==> e == Merged(elementId, contributors)
  {
    var first :| first in contributors;
    var owners := SelectOwners(contributors);
    OwnersHold(contributors);
    var attributes := CollectValues(contributors, owners);
    e := contributors[first].element.(id := elementId).WithAttributes(attributes);
    if Coherent(elementId, contributors) { MergedIdentity(elementId, contributors, first); }
  }

  // ----- apply -----

  /** `Unchanged` is the source returning the very state it was given. */
  datatype Transition = Unchanged | Changed(next: Option<State>, event: Option<Event>) {
    function Next(previous: Option<State>): Option<State> {
      if Unchanged? then previous else next
    }

    function Event(): Option<Event> {
      if Unchanged? then None else event
    }
  }

  predicate Stale(m: Contributors, c: Contribution) {
    c.contributorId in m && c.observedAt < m[c.contributorId].observedAt
  }

  /** What `validateIdentity` rejects. */
  ghost predicate Conflicts(s: State, e: Element)
    requires s.contributors != map[]
  {
    SomeElement(s.contributors).(id := s.elementId).Identity() != e.Identity()
  }

  function UpsertEvent(elementId: string, e: Element, observedAt: int, emittedAt: int): Event {
    var hash := PayloadHash(e);
    Upsert(EventId(UpsertOperation, elementId, observedAt, Some(hash)), observedAt, emittedAt, hash, e)
  }

  function DeleteEvent(elementId: string, observedAt: int, emittedAt: int): Event {
    Delete(EventId(DeleteOperation, elementId, observedAt, None), elementId, observedAt, emittedAt)
  }

  /** A fresh merge, announced only when its payload hash is new. */
  function Announce(
    previous: Option<State>, elementId: string, m: Contributors, e: Element, observedAt: int, emittedAt: int):
    Transition
  {
    var hash := PayloadHash(e);
    Changed(
      Some(State(elementId, m, hash)),
      if previous.Some? && previous.value.lastHash == hash then None
      else Some(UpsertEvent(elementId, e, observedAt, emittedAt)))
  }

  function ContributorsOf(s: Option<State>): Contributors {
    if s.None? then map[] else s.value.contributors
  }

  /** Reference semantics of `apply`. */
  ghost function Applied(
    previous: Option<State>, c: Contribution, ttl: int, watermarkNanos: int, processingMillis: int, emittedAt: int):
    Result<Transition, Model.Failure>
    requires previous.Some? ==> previous.value.contributors != map[]
  {
    if ttl <= 0 then Failure(NonPositiveTtl)
    else if Stale(ContributorsOf(previous), c) then Success(Unchanged)
    else if previous.Some? && Conflicts(previous.value, c.element) then Failure(IdentityConflict)
    else
      var m := ContributorsOf(previous)[c.contributorId := SnapshotOf(c, ttl, watermarkNanos, processingMillis)];
      Success(Announce(previous, c.element.id, m, Merged(c.element.id, m), c.observedAt, emittedAt))
  }

  // ----- expire -----

  function DeadlineOn(s: Snapshot, clock: Clock): Option<int> {
    if clock.EventTime? then s.eventDeadline else s.processingDeadline
  }

  predicate Due(s: Snapshot, clock: Clock, timestamp: int) {
    DeadlineOn(s, clock).Some? && DeadlineOn(s, clock).value <= timestamp
  }

  function Survivors(m: Contributors, clock: Clock, timestamp: int): Contributors {
    map id | id in m && !Due(m[id], clock, timestamp) :: m[id]
  }

  /** The event time at which an expired observation is taken to have ended. */
  function EndOf(s: Snapshot): int {
    if s.eventDeadline.None? then s.observedAt else s.eventDeadline.value
  }

  ghost function LatestEnd(m: Contributors, clock: Clock, timestamp: int): int {
    Extremum.Greatest({0} + set id | id in m && Due(m[id], clock, timestamp) :: EndOf(m[id]))
  }

  lemma LatestEndUnique(m: Contributors, clock: Clock, timestamp: int, latest: int)
    requires latest >= 0 && forall id | id in m && Due(m[id], clock, timestamp) :: EndOf(m[id]) <= latest
    requires latest == 0 || exists id | id in m :: Due(m[id], clock, timestamp) && EndOf(m[id]) == latest
    ensures LatestEnd(m, clock, timestamp) == latest
  {
    var ends := {0} + set id | id in m && Due(m[id], clock, timestamp) :: EndOf(m[id]);
    assert Extremum.IsGreatest(ends, latest);
  }

  /** Reference semantics of `expire`; the timestamp is in the unit of the clock's deadlines. */
  ghost function Expired(previous: State, clock: Clock, timestamp: int, emittedAt: int): Transition {
    var m := Survivors(previous.contributors, clock, timestamp);
    var observedAt := LatestEnd(previous.contributors, clock, timestamp);
    if m == previous.contributors then Unchanged
    else if m == map[] then Changed(None, Some(DeleteEvent(previous.elementId, observedAt, emittedAt)))
    else Announce(Some(previous), previous.elementId, m, Merged(previous.elementId, m), observedAt, emittedAt)
  }

  lemma AppliedWellFormed(
    previous: Option<State>, c: Contribution, ttl: int, watermarkNanos: int, processingMillis: int, emittedAt: int)
    requires previous.Some? ==> WellFormed(previous.value)
    ensures var r := Applied(previous, c, ttl, watermarkNanos, processingMillis, emittedAt);
      r.Success? && r.value.Changed? ==>
        r.value.next.Some? && WellFormed(r.value.next.value) && r.value.next.value.elementId == c.element.id
  {
    var r := Applied(previous, c, ttl, watermarkNanos, processingMillis, emittedAt);
    if r.Success? && r.value.Changed? {
      CoherentAfterReport(previous, c, SnapshotOf(c, ttl, watermarkNanos, processingMillis));
    }
  }

  lemma ExpiredWellFormed(s: State, clock: Clock, timestamp: int, emittedAt: int)
    requires WellFormed(s)
    ensures var next := Expired(s, clock, timestamp, emittedAt).Next(Some(s));
      next.Some? ==> WellFormed(next.value) && next.value.elementId == s.elementId
  {
  }

  method Apply(
    previous: Option<State>, c: Contribution, ttl: int, watermarkNanos: int, processingMillis: int, emittedAt: int)
    returns (r: Result<Transition, Model.Failure>)
    requires previous.Some? ==> Coherent(previous.value.elementId, previous.value.contributors)
    ensures r == Applied(previous, c, ttl, watermarkNanos, processingMillis, emittedAt)
  {
    if ttl <= 0 { return Failure(NonPositiveTtl); }
    var incoming := SnapshotOf(c, ttl, watermarkNanos, processingMillis);
    var m := ContributorsOf(previous);
    if c.contributorId in m && c.observedAt < m[c.contributorId].observedAt { return Success(Unchanged); }
    if previous.Some? {
      var conflict := ConflictsWith(previous.value, c.element);
      if conflict { return Failure(IdentityConflict); }
    }
    m := m[c.contributorId := incoming];
    CoherentAfterReport(previous, c, incoming);
    var e := Merge(c.element.id, m);
    return Success(Announce(previous, c.element.id, m, e, c.observedAt, emittedAt));
  }

  method ConflictsWith(s: State, e: Element) returns (conflict: bool)
    requires Coherent(s.elementId, s.contributors)
    ensures conflict == Conflicts(s, e)
    ensures conflict <==> exists id :: id in s.contributors && s.contributors[id].element.Identity() != e.Identity()
  {
    var first :| first in s.contributors;
    conflict := s.contributors[first].element.(id := s.elementId).Identity() != e.Identity();
    AnyIdentity(s.elementId, s.contributors, first);
  }

  lemma AnyIdentity(elementId: string, m: Contributors, id: string)
    requires Coherent(elementId, m) && id in m
    ensures SomeElement(m).(id := elementId).Identity() == m[id].element.Identity()
  {
    MergedIdentity(elementId, m, id);
  }

  /** An accepted report keeps every contributor describing the same element. */
  lemma CoherentAfterReport(previous: Option<State>, c: Contribution, s: Snapshot)
    requires previous.Some? ==> Coherent(previous.value.elementId, previous.value.contributors)
    requires previous.Some? ==> !Conflicts(previous.value, c.element)
    requires s.element == c.element
    ensures Coherent(c.element.id, ContributorsOf(previous)[c.contributorId := s])
    ensures previous.Some? ==> previous.value.elementId == c.element.id
  {
    var next := ContributorsOf(previous)[c.contributorId := s];
    forall id | id in next
      ensures next[id].element.Identity() == c.element.Identity() && next[id].element.id == c.element.id
    {
      if id != c.contributorId { AnyIdentity(previous.value.elementId, previous.value.contributors, id); }
      assert next[id].element.Identity().id == next[id].element.id;
    }
    assert c.contributorId in next;
  }

  /** The loop of `expire`: the survivors, and when the expired observations ended. */
  method SplitExpired(all: Contributors, clock: Clock, timestamp: int)
    returns (survivors: Contributors, observedAt: int, expired: bool)
    ensures survivors == Survivors(all, clock, timestamp)
    ensures expired <==> survivors != all
    ensures observedAt == LatestEnd(all, clock, timestamp)
  {
    survivors, observedAt, expired := map[], 0, false;
    var remaining := all.Keys;
    while remaining != {}
      invariant remaining <= all.Keys
      invariant forall id :: id in survivors <==> id in all && id !in remaining && !Due(all[id], clock, timestamp)
      invariant forall id | id in survivors :: survivors[id] == all[id]
      invariant expired <==> exists id :: id in all && id !in remaining && Due(all[id], clock, timestamp)
      invariant observedAt == 0 || exists id ::
        id in all && id !in remaining && Due(all[id], clock, timestamp) && EndOf(all[id]) == observedAt
      invariant observedAt >= 0 && forall id | id in all && id !in remaining ::
        Due(all[id], clock, timestamp) ==> EndOf(all[id]) <= observedAt
    {
      var id :| id in remaining;
      remaining := remaining - {id};
      var snapshot := all[id];
      if Due(snapshot, clock, timestamp) {
        expired := true;
        observedAt := Max(observedAt, EndOf(snapshot));
      } else {
        survivors := survivors[id := snapshot];
      }
    }
    assert survivors == Survivors(all, clock, timestamp);
    LatestEndUnique(all, clock, timestamp, observedAt);
  }

  method Expire(previous: State, clock: Clock, timestamp: int, emittedAt: int) returns (t: Transition)
    requires Coherent(previous.elementId, previous.contributors)
    ensures t == Expired(previous, clock, timestamp, emittedAt)
  {
    var m, observedAt, expired := SplitExpired(previous.contributors, clock, timestamp);
    if !expired { return Unchanged; }
    if m == map[] { return Changed(None, Some(DeleteEvent(previous.elementId, observedAt, emittedAt))); }
    var e := Merge(previous.elementId, m);
    return Announce(Some(previous), previous.elementId, m, e, observedAt, emittedAt);
  }
}

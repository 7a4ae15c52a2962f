/** AttributeWinners.java: the materialized aggregate and its attribute owners. */
module AttributeWinners {
  import opened Wrappers
  import opened Model
  import opened GraphLifecycle

  datatype Index = Index(element: Element, owners: map<string, string>, contributorCount: int) {
    /** What the record's constructor demands. */
    predicate Valid() {
      contributorCount > 0 && owners.Keys == element.attributes.Keys
    }

    predicate LosesAttribute(contributorId: string, replacement: Element) {
      exists name | name in owners :: owners[name] == contributorId && name !in replacement.attributes
    }
  }

  /** The index as the source defines it: a full recomputation from the contributors. */
  ghost function Rebuilt(elementId: string, m: Contributors): (index: Index)
    requires m != map[]
    ensures index.Valid()
  {
    assert |m| > 0;
    Index(Merged(elementId, m), Owners(m), |m|)
  }

  method Rebuild(elementId: string, m: Contributors) returns (index: Index)
    requires Coherent(elementId, m)
    ensures index == Rebuilt(elementId, m)
  {
    var owners := SelectOwners(m);
    var e := Merge(elementId, m);
    index := Index(e, owners, |m|);
  }

  lemma LosesAttributeMeans(elementId: string, m: Contributors, id: string, replacement: Element)
    requires m != map[]
    ensures Rebuilt(elementId, m).LosesAttribute(id, replacement) <==>
      exists name :: IsOwner(m, name, id) && name !in replacement.attributes
  {
    forall name | IsOwner(m, name, id) ensures name in Owners(m) && Owners(m)[name] == id {
      assert Holds(m, id, name);
      OwnerUnique(m, name, id, Owners(m)[name]);
    }
  }

  /** The attributes after an incremental update: the reporter's where it now owns, the old ones elsewhere. */
  function NextAttributes(index: Index, m: Contributors, id: string, s: Snapshot): Attributes
    requires index.Valid() && forall name | name in index.owners :: index.owners[name] in m
  {
    map name | name in index.owners.Keys + s.element.attributes.Keys ::
      if name in s.element.attributes && Claims(m, index.owners, id, s, name) then s.element.attributes[name]
      else index.element.attributes[name]
  }

  /** Incremental attribute values are those of the full merge. */
  lemma NextAttributesAreMerged(elementId: string, m: Contributors, id: string, s: Snapshot)
    requires m != map[]
    requires Incremental(m, id, s)
    ensures NextAttributes(Rebuilt(elementId, m), m, id, s) == MergedAttributes(m[id := s])
  {
    var index := Rebuilt(elementId, m);
    var next := m[id := s];
    NextOwnersAreOwners(m, id, s);
    var owners := NextOwners(m, index.owners, id, s);
    assert owners == Owners(next);
    forall name | name in owners
      ensures NextAttributes(index, m, id, s)[name] == next[owners[name]].element.attributes[name]
    {
      if owners[name] != id { assert owners[name] == index.owners[name]; }
    }
  }

  /** `observe`: point reads of current owners only; never a scan of the contributors. */
  method Observe(index: Index, contributorId: string, snapshot: Snapshot, existing: bool, contributors: Contributors)
    returns (r: Result<Index, Model.Failure>)
    requires index.Valid() && forall name | name in index.owners :: index.owners[name] in contributors
    ensures index.element.Identity() != snapshot.element.Identity() ==> r == Failure(IdentityConflict)
    ensures index.element.Identity() == snapshot.element.Identity() ==>
      r == Success(Observed(index, contributors, contributorId, snapshot, existing))
  {
    if index.element.Identity() != snapshot.element.Identity() { return Failure(IdentityConflict); }
    var nextOwners, attributes := ClaimIncoming(index, contributorId, snapshot, contributors);
    assert nextOwners == NextOwners(contributors, index.owners, contributorId, snapshot);
    assert attributes == NextAttributes(index, contributors, contributorId, snapshot);
    return Success(Index(index.element.WithAttributes(attributes), nextOwners,
                         index.contributorCount + if existing then 0 else 1));
  }

  /** The two maps of `observe` once the names in `done` have been visited. */
  ghost predicate ClaimedSoFar(
    index: Index, m: Contributors, id: string, s: Snapshot, done: set<string>,
    owners: map<string, string>, attributes: Attributes)
    requires index.Valid() && forall name | name in index.owners :: index.owners[name] in m
  {
    && done <= s.element.attributes.Keys
    && owners.Keys == attributes.Keys == index.owners.Keys + done
    && forall name | name in owners ::
      if name in done && Claims(m, index.owners, id, s, name)
      then owners[name] == id && attributes[name] == s.element.attributes[name]
      else owners[name] == index.owners[name] && attributes[name] == index.element.attributes[name]
  }

  method ClaimIncoming(index: Index, contributorId: string, snapshot: Snapshot, contributors: Contributors)
    returns (nextOwners: map<string, string>, attributes: Attributes)
    requires index.Valid() && forall name | name in index.owners :: index.owners[name] in contributors
    ensures ClaimedSoFar(
      index, contributors, contributorId, snapshot, snapshot.element.attributes.Keys, nextOwners, attributes)
  {
    var incoming := snapshot.element.attributes;
    nextOwners, attributes := index.owners, index.element.attributes;
    var todo := incoming.Keys;
    while todo != {}
      invariant todo <= incoming.Keys
      invariant ClaimedSoFar(index, contributors, contributorId, snapshot, incoming.Keys - todo, nextOwners, attributes)
    {
      var name :| name in todo;
      ghost var done := incoming.Keys - todo;
      todo := todo - {name};
      assert incoming.Keys - todo == done + {name};
      if name !in index.owners
        || index.owners[name] == contributorId
        || Wins(contributorId, snapshot, index.owners[name], contributors[index.owners[name]])
      {
        nextOwners := nextOwners[name := contributorId];
        attributes := attributes[name := incoming[name]];
      }
    }
    assert incoming.Keys - todo == incoming.Keys;
  }

  function Observed(index: Index, m: Contributors, id: string, s: Snapshot, existing: bool): Index
    requires index.Valid() && forall name | name in index.owners :: index.owners[name] in m
  {
    Index(
      index.element.WithAttributes(NextAttributes(index, m, id, s)),
      NextOwners(m, index.owners, id, s),
      index.contributorCount + if existing then 0 else 1)
  }

  /** The incremental index equals the full recomputation over the updated contributors. */
  lemma ObserveIsRebuild(elementId: string, m: Contributors, id: string, s: Snapshot)
    requires Coherent(elementId, m) && s.element.Identity() == Merged(elementId, m).Identity()
    requires id in m ==> s.observedAt >= m[id].observedAt
    requires !Rebuilt(elementId, m).LosesAttribute(id, s.element)
    ensures Observed(Rebuilt(elementId, m), m, id, s, id in m) == Rebuilt(elementId, m[id := s])
  {
    LosesAttributeMeans(elementId, m, id, s.element);
    NextAttributesAreMerged(elementId, m, id, s);
    NextOwnersAreOwners(m, id, s);
    CoherentReport(elementId, m, id, s);
    assert |m[id := s].Keys| == |m.Keys + {id}|;
  }

  lemma CoherentReport(elementId: string, m: Contributors, id: string, s: Snapshot)
    requires Coherent(elementId, m) && s.element.Identity() == Merged(elementId, m).Identity()
    ensures Coherent(elementId, m[id := s])
    ensures Merged(elementId, m[id := s]) == Merged(elementId, m).WithAttributes(MergedAttributes(m[id := s]))
  {
    var next := m[id := s];
    var e := Merged(elementId, m).Identity();
    forall other | other in next ensures next[other].element.Identity() == e && next[other].element.id == elementId {
      if other != id { MergedIdentity(elementId, m, other); }
      assert next[other].element.Identity().id == next[other].element.id;
    }
    MergedIdentity(elementId, next, id);
  }
}

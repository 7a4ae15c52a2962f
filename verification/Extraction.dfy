/**
 MetricParser.java and SemanticRegistry.java: from the entities observed on both sides of a call to the
 elements of one datapoint. Entities arrive as `extractValid` returns them.
 */
module Extraction {
  import opened Wrappers
  import opened Model
  import opened Identity
  import opened GraphClosure
  import Text

  datatype EvidenceSource = ServiceGraphEvidence | SpanMetricsEvidence

  datatype Scope = ObservationScope | InteractionScope

  datatype Relationship = Relationship(
    semanticType: string, source: string, target: string,
    evidenceSources: set<EvidenceSource>, scope: Scope, connectionType: Option<string>)

  /** An entity is a node whose id is its type and identity texts. */
  predicate IsEntity(e: Element) {
    e.Node? && WellIdentified(e)
  }

  /** What `quotedId` makes of a colon-free type other than "edge" is such an id. */
  lemma QuotedEntity(semanticType: string, texts: seq<string>, attributes: Attributes)
    requires semanticType != "" && semanticType != "edge" && ':' !in semanticType && texts != []
    ensures IsEntity(Node(QuotedText(semanticType, texts), semanticType, attributes))
  {
    QuotedTextType(semanticType, texts);
  }

  // ----- edges -----

  predicate Selected(r: Relationship, evidence: EvidenceSource, scope: Scope, connectionType: Option<string>) {
    evidence in r.evidenceSources && r.scope == scope && r.connectionType == connectionType
  }

  predicate Relates(r: Relationship, source: Element, target: Element) {
    source.semanticType == r.source && target.semanticType == r.target && source.id != target.id
  }

  function EdgeBetween(r: Relationship, source: Element, target: Element): Element {
    Edge(EdgeId(source.id, r.semanticType, target.id), r.semanticType, source.id, target.id, map[])
  }

  /** The query of `edges`: which registered relationships, between which observed entities. */
  datatype Query = Query(
    sources: seq<Element>, targets: seq<Element>, evidence: EvidenceSource,
    scope: Scope, connectionType: Option<string>)

  /** The edges one relationship adds. */
  function ExpandedBy(r: Relationship, q: Query): set<Element> {
    if Selected(r, q.evidence, q.scope, q.connectionType) then
      set source, target | source in q.sources && target in q.targets && Relates(r, source, target) ::
        EdgeBetween(r, source, target)
    else {}
  }

  function Expanded(relationships: seq<Relationship>, q: Query): set<Element> {
    set r, e | r in relationships && e in ExpandedBy(r, q) :: e
  }

  function AsSet(es: seq<Element>): set<Element> {
    set e | e in es
  }

  method Edges(relationships: seq<Relationship>, q: Query) returns (result: seq<Element>)
    ensures AsSet(result) == Expanded(relationships, q)
  {
    result := [];
    for i := 0 to |relationships|
      invariant AsSet(result) == Expanded(relationships[..i], q)
    {
      var found := EdgesOf(relationships[i], q);
      ExpandedAppend(relationships[..i], relationships[i], q);
      assert relationships[..i + 1] == relationships[..i] + [relationships[i]];
      AsSetAppend(result, found);
      result := result + found;
    }
    assert relationships[..|relationships|] == relationships;
  }

  lemma AsSetAppend(a: seq<Element>, b: seq<Element>)
    ensures AsSet(a + b) == AsSet(a) + AsSet(b)
  {
  }

  lemma ExpandedAppend(relationships: seq<Relationship>, r: Relationship, q: Query)
    ensures Expanded(relationships + [r], q) == Expanded(relationships, q) + ExpandedBy(r, q)
  {
    var all := relationships + [r];
    assert all[|relationships|] == r;
    assert forall x | x in relationships :: x in all;
  }

  /** The two inner loops, for one relationship. */
  method EdgesOf(r: Relationship, q: Query) returns (result: seq<Element>)
    ensures AsSet(result) == ExpandedBy(r, q)
  {
    result := [];
    if !Selected(r, q.evidence, q.scope, q.connectionType) { return; }
    for i := 0 to |q.sources|
      invariant AsSet(result) == set source, target |
          source in q.sources[..i] && target in q.targets && Relates(r, source, target) ::
            EdgeBetween(r, source, target)
    {
      var source := q.sources[i];
      if source.semanticType == r.source {
        var found := EdgesFrom(r, source, q.targets);
        AsSetAppend(result, found);
        result := result + found;
      }
      assert q.sources[..i + 1] == q.sources[..i] + [source];
    }
    assert q.sources[..|q.sources|] == q.sources;
  }

  method EdgesFrom(r: Relationship, source: Element, targets: seq<Element>) returns (result: seq<Element>)
    requires source.semanticType == r.source
    ensures AsSet(result) == set target | target in targets && Relates(r, source, target) ::
      EdgeBetween(r, source, target)
  {
    result := [];
    for i := 0 to |targets|
      invariant AsSet(result) ==
        set target | target in targets[..i] && Relates(r, source, target) :: EdgeBetween(r, source, target)
    {
      var target := targets[i];
      assert targets[..i + 1] == targets[..i] + [target];
      if target.semanticType == r.target && source.id != target.id {
        AsSetAppend(result, [EdgeBetween(r, source, target)]);
        result := result + [EdgeBetween(r, source, target)];
      }
    }
    assert targets[..|targets|] == targets;
  }

  // ----- merging observations of the same element -----

  /** The values that elements with this id report for an attribute. */
  predicate Reports(seen: set<Element>, id: string, name: string, v: Value) {
    exists e :: e in seen && e.id == id && name in e.attributes && e.attributes[name] == v
  }

  /** The least reported value by JSON text. */
  predicate IsLeastValue(seen: set<Element>, id: string, name: string, v: Value) {
    && Reports(seen, id, name, v)
    && forall e | e in seen && e.id == id && name in e.attributes :: !Text.Less(e.attributes[name].text, v.text)
  }

  /** One element combining all those with its id: same identity, least value of every reported attribute. */
  ghost predicate Combines(seen: set<Element>, e: Element) {
    && (exists x :: x in seen && x.id == e.id)
    && (forall x | x in seen && x.id == e.id :: x.Identity() == e.Identity() && x.attributes.Keys <= e.attributes.Keys)
    && forall name | name in e.attributes :: IsLeastValue(seen, e.id, name, e.attributes[name])
  }

  ghost predicate IsCombination(seen: set<Element>, m: map<string, Element>) {
    && (forall e | e in seen :: e.id in m)
    && forall id | id in m :: m[id].id == id && Combines(seen, m[id])
  }

  predicate AllIdentified(seen: set<Element>) {
    forall e | e in seen :: WellIdentified(e)
  }

  lemma LeastValueUnique(seen: set<Element>, id: string, name: string, v: Value, w: Value)
    requires IsLeastValue(seen, id, name, v) && IsLeastValue(seen, id, name, w)
    ensures v == w
  {
    Text.LessTotal(v.text, w.text);
  }

  /** The combination depends on the set of elements alone: no order of processing shows in it. */
  lemma CombinationUnique(seen: set<Element>, a: map<string, Element>, b: map<string, Element>)
    requires IsCombination(seen, a) && IsCombination(seen, b)
    ensures a == b
  {
    forall id | id in a ensures id in b && a[id] == b[id] {
      var x :| x in seen && x.id == a[id].id;
      CombinesUnique(seen, a[id], b[id]);
    }
    forall id | id in b ensures id in a {
      var x :| x in seen && x.id == b[id].id;
    }
  }

  lemma CombinesAttribute(seen: set<Element>, a: Element, b: Element, name: string)
    requires Combines(seen, a) && Combines(seen, b) && a.id == b.id && name in a.attributes
    ensures name in b.attributes && a.attributes[name] == b.attributes[name]
  {
    assert Reports(seen, a.id, name, a.attributes[name]);
    LeastValueUnique(seen, a.id, name, a.attributes[name], b.attributes[name]);
  }

  lemma CombinesAttributes(seen: set<Element>, a: Element, b: Element)
    requires Combines(seen, a) && Combines(seen, b) && a.id == b.id
    ensures forall name | name in a.attributes :: name in b.attributes && a.attributes[name] == b.attributes[name]
  {
    forall name | name in a.attributes ensures name in b.attributes && a.attributes[name] == b.attributes[name] {
      CombinesAttribute(seen, a, b, name);
    }
  }

  lemma SameAttributes(a: Attributes, b: Attributes)
    requires forall name | name in a :: name in b && a[name] == b[name]
    requires forall name | name in b :: name in a
    ensures a == b
  {
  }

  lemma CombinesUnique(seen: set<Element>, a: Element, b: Element)
    requires Combines(seen, a) && Combines(seen, b) && a.id == b.id
    ensures a == b
  {
    CombinesAttributes(seen, a, b);
    CombinesAttributes(seen, b, a);
    SameAttributes(a.attributes, b.attributes);
    CombinesIdentity(seen, a, b);
    SameIdentityAndAttributes(a, b);
  }

  lemma CombinesIdentity(seen: set<Element>, a: Element, b: Element)
    requires Combines(seen, a) && Combines(seen, b) && a.id == b.id
    ensures a.Identity() == b.Identity()
  {
    var x :| x in seen && x.id == a.id;
  }

  lemma SameIdentityAndAttributes(a: Element, b: Element)
    requires a.Identity() == b.Identity() && a.attributes == b.attributes
    ensures a == b
  {
    assert a == a.Identity().WithAttributes(a.attributes) && b == b.Identity().WithAttributes(b.attributes);
  }

  function LeastOf(left: Value, right: Value): Value {
    if Text.Less(right.text, left.text) then right else left
  }

  /** The value of an attribute reported on either side. */
  function MergedValue(left: Attributes, right: Attributes, name: string): Value
    requires name in left || name in right
  {
    if name !in right then left[name]
    else if name !in left then right[name]
    else LeastOf(left[name], right[name])
  }

  /** The `merged.merge` loop of `add`. */
  method MergeAttributes(left: Attributes, right: Attributes) returns (merged: Attributes)
    ensures merged.Keys == left.Keys + right.Keys
    ensures forall name | name in merged :: merged[name] == MergedValue(left, right, name)
  {
    merged := left;
    var todo := right.Keys;
    while todo != {}
      invariant todo <= right.Keys
      invariant merged.Keys == left.Keys + (right.Keys - todo)
      invariant forall name | name in merged ::
        merged[name] == if name in right && name !in todo then MergedValue(left, right, name) else left[name]
    {
      var name :| name in todo;
      todo := todo - {name};
      merged := merged[name := if name in merged then LeastOf(merged[name], right[name]) else right[name]];
    }
  }

  datatype Conflict = ConflictingIdentity

  method Add(elements: map<string, Element>, e: Element, ghost seen: set<Element>)
    returns (r: Result<map<string, Element>, Conflict>)
    requires IsCombination(seen, elements)
    ensures r.Failure? <==> e.id in elements && elements[e.id].Identity() != e.Identity()
    ensures r.Success? ==> IsCombination(seen + {e}, r.value)
    ensures AllIdentified(seen + {e}) ==> r.Success?
  {
    if e.id !in elements {
      AddNew(seen, elements, e);
      return Success(elements[e.id := e]);
    }
    var before := elements[e.id];
    if AllIdentified(seen + {e}) {
      var x :| x in seen && x.id == e.id;
      SameIdSameIdentity(x, e);
    }
    if before.Identity() != e.Identity() { return Failure(ConflictingIdentity); }
    var merged := MergeAttributes(before.attributes, e.attributes);
    AddSame(seen, elements, e, merged);
    return Success(elements[e.id := e.WithAttributes(merged)]);
  }

  lemma OtherIdsLeast(seen: set<Element>, e: Element, id: string, name: string, v: Value)
    requires IsLeastValue(seen, id, name, v) && id != e.id
    ensures IsLeastValue(seen + {e}, id, name, v)
  {
    var y :| y in seen && y.id == id && name in y.attributes && y.attributes[name] == v;
    assert y in seen + {e};
  }

  lemma OtherIdsCombine(seen: set<Element>, e: Element, x: Element)
    requires Combines(seen, x) && x.id != e.id
    ensures Combines(seen + {e}, x)
  {
    forall name | name in x.attributes ensures IsLeastValue(seen + {e}, x.id, name, x.attributes[name]) {
      OtherIdsLeast(seen, e, x.id, name, x.attributes[name]);
    }
    var y :| y in seen && y.id == x.id;
    assert y in seen + {e};
  }

  lemma IdsGrow(seen: set<Element>, elements: map<string, Element>, e: Element, c: Element)
    requires forall x | x in seen :: x.id in elements
    ensures forall x | x in seen + {e} :: x.id in elements[e.id := c]
  {
  }

  /** One more combined element, the others unchanged. */
  lemma CombinationStep(seen: set<Element>, elements: map<string, Element>, e: Element, c: Element)
    requires IsCombination(seen, elements) && Combines(seen + {e}, c) && c.id == e.id
    ensures IsCombination(seen + {e}, elements[e.id := c])
  {
    IdsGrow(seen, elements, e, c);
    var m := elements[e.id := c];
    forall id | id in m ensures m[id].id == id && Combines(seen + {e}, m[id]) {
      if id != e.id { OtherIdsCombine(seen, e, elements[id]); }
    }
  }

  lemma AddNew(seen: set<Element>, elements: map<string, Element>, e: Element)
    requires IsCombination(seen, elements) && e.id !in elements
    ensures IsCombination(seen + {e}, elements[e.id := e])
  {
    NewCombines(seen, e);
    CombinationStep(seen, elements, e, e);
  }

  lemma NewCombines(seen: set<Element>, e: Element)
    requires forall x | x in seen :: x.id != e.id
    ensures Combines(seen + {e}, e)
  {
    forall name | name in e.attributes ensures IsLeastValue(seen + {e}, e.id, name, e.attributes[name]) {
      Text.LessIrreflexive(e.attributes[name].text);
      assert e in seen + {e};
    }
    assert e in seen + {e};
  }

  lemma MergedValueReported(seen: set<Element>, before: Element, e: Element, name: string)
    requires Combines(seen, before) && before.id == e.id
    requires name in before.attributes || name in e.attributes
    ensures Reports(seen + {e}, e.id, name, MergedValue(before.attributes, e.attributes, name))
  {
    assert e in seen + {e};
    if name in before.attributes {
      assert Reports(seen, e.id, name, before.attributes[name]);
      var y :| y in seen && y.id == e.id && name in y.attributes && y.attributes[name] == before.attributes[name];
      assert y in seen + {e};
    }
  }

  lemma LeastAfterMerge(seen: set<Element>, before: Element, e: Element, name: string, v: Value)
    requires Combines(seen, before) && before.id == e.id
    requires name in before.attributes || name in e.attributes
    requires v == MergedValue(before.attributes, e.attributes, name)
    ensures IsLeastValue(seen + {e}, e.id, name, v)
  {
    MergedValueReported(seen, before, e, name);
    forall x | x in seen + {e} && x.id == e.id && name in x.attributes
      ensures !Text.Less(x.attributes[name].text, v.text)
    {
      MergedValueBelow(seen, before, e, x, name);
    }
  }

  lemma MergedValueBelow(seen: set<Element>, before: Element, e: Element, x: Element, name: string)
    requires Combines(seen, before) && before.id == e.id == x.id
    requires (x in seen || x == e) && name in x.attributes
    ensures name in before.attributes || name in e.attributes
    ensures !Text.Less(x.attributes[name].text, MergedValue(before.attributes, e.attributes, name).text)
  {
    var v := x.attributes[name];
    if x in seen {
      assert IsLeastValue(seen, x.id, name, before.attributes[name]);
      if name in e.attributes { LeastOfBelow(before.attributes[name], e.attributes[name], v); }
    } else if name in before.attributes {
      LeastOfBelow(before.attributes[name], e.attributes[name], v);
    } else {
      Text.LessIrreflexive(v.text);
    }
  }

  lemma LeastOfBelow(a: Value, b: Value, v: Value)
    requires v == b || !Text.Less(v.text, a.text)
    ensures !Text.Less(v.text, LeastOf(a, b).text)
  {
    Text.LessIrreflexive(b.text);
    if Text.Less(b.text, a.text) {
      if Text.Less(v.text, b.text) { Text.LessTransitive(v.text, b.text, a.text); }
    }
  }

  /** The merged element combines what its predecessor combined and the new one. */
  lemma SameCombines(seen: set<Element>, before: Element, e: Element, merged: Attributes)
    requires Combines(seen, before) && before.Identity() == e.Identity() && before.id == e.id
    requires merged.Keys == before.attributes.Keys + e.attributes.Keys
    requires forall name | name in merged :: merged[name] == MergedValue(before.attributes, e.attributes, name)
    ensures Combines(seen + {e}, e.WithAttributes(merged)) && e.WithAttributes(merged).id == e.id
  {
    var m := e.WithAttributes(merged);
    assert m.Identity().id == e.Identity().id && m.id == e.id;
    forall name | name in merged ensures IsLeastValue(seen + {e}, e.id, name, merged[name]) {
      LeastAfterMerge(seen, before, e, name, merged[name]);
    }
    assert e in seen + {e};
  }

  lemma AddSame(seen: set<Element>, elements: map<string, Element>, e: Element, merged: Attributes)
    requires IsCombination(seen, elements) && e.id in elements && elements[e.id].Identity() == e.Identity()
    requires merged.Keys == elements[e.id].attributes.Keys + e.attributes.Keys
    requires forall name | name in merged :: merged[name] == MergedValue(elements[e.id].attributes, e.attributes, name)
    ensures IsCombination(seen + {e}, elements[e.id := e.WithAttributes(merged)])
  {
    SameCombines(seen, elements[e.id], e, merged);
    CombinationStep(seen, elements, e, e.WithAttributes(merged));
  }

  // ----- combinations of combinations -----

  function Values(m: map<string, Element>): set<Element> {
    set id | id in m :: m[id]
  }

  /** Combining some elements first and the rest later gives the combination of them all. */
  lemma CombinationNests(part: set<Element>, m: map<string, Element>, rest: set<Element>, all: map<string, Element>)
    requires IsCombination(part, m) && IsCombination(rest + Values(m), all)
    ensures IsCombination(rest + part, all)
  {
    var whole, nested := rest + part, rest + Values(m);
    forall e | e in whole ensures e.id in all {
      if e in part { assert m[e.id] in nested && m[e.id].id == e.id; } else { assert e in nested; }
    }
    forall id | id in all ensures all[id].id == id && Combines(whole, all[id]) {
      NestedCombines(part, m, rest, all[id]);
    }
  }

  lemma NestedCombines(part: set<Element>, m: map<string, Element>, rest: set<Element>, c: Element)
    requires IsCombination(part, m) && Combines(rest + Values(m), c)
    ensures Combines(rest + part, c)
  {
    var whole, nested := rest + part, rest + Values(m);
    var x :| x in nested && x.id == c.id;
    if x !in rest {
      var y :| y in part && y.id == m[x.id].id;
      assert y in whole;
    }
    forall e | e in whole && e.id == c.id
      ensures e.Identity() == c.Identity() && e.attributes.Keys <= c.attributes.Keys
    {
      if e in part { assert m[e.id] in nested; } else { assert e in nested; }
    }
    forall name | name in c.attributes ensures IsLeastValue(whole, c.id, name, c.attributes[name]) {
      NestedLeast(part, m, rest, c, name);
    }
  }

  lemma NestedLeast(part: set<Element>, m: map<string, Element>, rest: set<Element>, c: Element, name: string)
    requires IsCombination(part, m) && Combines(rest + Values(m), c) && name in c.attributes
    ensures IsLeastValue(rest + part, c.id, name, c.attributes[name])
  {
    var whole, nested, v := rest + part, rest + Values(m), c.attributes[name];
    assert IsLeastValue(nested, c.id, name, v);
    var x :| x in nested && x.id == c.id && name in x.attributes && x.attributes[name] == v;
    if x in rest { assert x in whole; }
    else {
      assert IsLeastValue(part, x.id, name, m[x.id].attributes[name]);
      var y :| y in part && y.id == x.id && name in y.attributes && y.attributes[name] == v;
      assert y in whole;
    }
    forall e | e in whole && e.id == c.id && name in e.attributes ensures !Text.Less(e.attributes[name].text, v.text) {
      if e in rest { assert e in nested; }
      else {
        var combined := m[e.id];
        assert combined in nested && Combines(part, combined);
        var least := combined.attributes[name];
        assert IsLeastValue(part, e.id, name, least);
        var candidate := e.attributes[name].text;
        if Text.Less(candidate, v.text) {
          Text.LessTotal(least.text, candidate);
          if Text.Less(least.text, candidate) { Text.LessTransitive(least.text, candidate, v.text); }
        }
      }
    }
  }

  // ----- adding many elements -----

  lemma MoveOne(whole: set<Element>, done: set<Element>, todo: set<Element>, e: Element)
    requires done + todo == whole && e in todo
    ensures (done + {e}) + (todo - {e}) == whole
    ensures AllIdentified(whole) ==> AllIdentified(done + {e})
  {
    assert done + {e} <= whole;
  }

  /** The `add` loops, over any order. */
  method AddAll(elements: map<string, Element>, es: set<Element>, ghost seen: set<Element>)
    returns (r: Result<map<string, Element>, Conflict>)
    requires IsCombination(seen, elements)
    ensures r.Success? ==> IsCombination(seen + es, r.value)
    ensures AllIdentified(seen + es) ==> r.Success?
  {
    var result, todo := elements, es;
    ghost var done := seen;
    while todo != {}
      invariant done + todo == seen + es
      invariant IsCombination(done, result)
    {
      var e :| e in todo;
      MoveOne(seen + es, done, todo, e);
      var added := Add(result, e, done);
      if added.Failure? { return added; }
      result := added.value;
      todo := todo - {e};
      done := done + {e};
    }
    assert done == seen + es;
    return Success(result);
  }

  // ----- one side of a call, and both -----

  /** The elements of one observation: its entities and the relationships among them. */
  function Observed(relationships: seq<Relationship>, entities: seq<Element>, evidence: EvidenceSource): set<Element> {
    AsSet(entities) + Expanded(relationships, Query(entities, entities, evidence, ObservationScope, None))
  }

  predicate AllEntities(entities: seq<Element>) {
    forall e | e in entities :: IsEntity(e)
  }

  method MaterializeObservation(relationships: seq<Relationship>, entities: seq<Element>, evidence: EvidenceSource)
    returns (r: Result<map<string, Element>, Conflict>)
    ensures r.Success? ==> IsCombination(Observed(relationships, entities, evidence), r.value)
    ensures AllEntities(entities) ==> r.Success?
  {
    r := AddAll(map[], AsSet(entities), {});
    if r.Failure? { return; }
    assert {} + AsSet(entities) == AsSet(entities);
    var edges := Edges(relationships, Query(entities, entities, evidence, ObservationScope, None));
    r := AddAll(r.value, AsSet(edges), AsSet(entities));
  }

  predicate SupportsConnectionType(relationships: seq<Relationship>, evidence: EvidenceSource, connectionType: string) {
    exists r :: r in relationships && Selected(r, evidence, InteractionScope, Some(connectionType))
  }

  function Interaction(clients: seq<Element>, servers: seq<Element>, connectionType: string): Query {
    Query(clients, servers, ServiceGraphEvidence, InteractionScope, Some(connectionType))
  }

  /** Everything a service-graph datapoint mentions, before duplicates are combined. */
  function Mentioned(
    relationships: seq<Relationship>, clients: seq<Element>, servers: seq<Element>, connectionType: string):
    set<Element>
  {
    Observed(relationships, clients, ServiceGraphEvidence)
    + Observed(relationships, servers, ServiceGraphEvidence)
    + Expanded(relationships, Interaction(clients, servers, connectionType))
  }

  datatype Parsed = Parsed(elements: map<string, Element>, unsupportedConnectionType: bool)

  method ServiceGraph(
    relationships: seq<Relationship>, clients: seq<Element>, servers: seq<Element>, connectionType: string)
    returns (r: Result<Parsed, Conflict>)
    ensures r.Success? ==> IsCombination(Mentioned(relationships, clients, servers, connectionType), r.value.elements)
    ensures r.Success? && AllEntities(clients) && AllEntities(servers) ==>
      IsDatapoint(relationships, clients, servers, connectionType, r.value.elements)
    ensures r.Success? ==> (r.value.unsupportedConnectionType <==> forall rel | rel in relationships ::
      !(ServiceGraphEvidence in rel.evidenceSources && rel.scope == InteractionScope
        && rel.connectionType == Some(connectionType)))
    ensures AllEntities(clients) && AllEntities(servers) ==> r.Success?
  {
    var elements := BothSides(relationships, clients, servers);
    if elements.Failure? { return Failure(elements.error); }
    ghost var observed :=
      Observed(relationships, clients, ServiceGraphEvidence) + Observed(relationships, servers, ServiceGraphEvidence);
    if !SupportsConnectionType(relationships, ServiceGraphEvidence, connectionType) {
      assert Mentioned(relationships, clients, servers, connectionType) == observed;
      if AllEntities(clients) && AllEntities(servers) {
        CombinationIsDatapoint(relationships, clients, servers, connectionType, elements.value);
      }
      return Success(Parsed(elements.value, true));
    }
    var edges := Edges(relationships, Interaction(clients, servers, connectionType));
    if AllEntities(clients) && AllEntities(servers) {
      MentionedIdentified(relationships, clients, servers, connectionType);
    }
    var all := AddAll(elements.value, AsSet(edges), observed);
    if all.Failure? { return Failure(all.error); }
    if AllEntities(clients) && AllEntities(servers) {
      CombinationIsDatapoint(relationships, clients, servers, connectionType, all.value);
    }
    return Success(Parsed(all.value, false));
  }

  method BothSides(relationships: seq<Relationship>, clients: seq<Element>, servers: seq<Element>)
    returns (r: Result<map<string, Element>, Conflict>)
    ensures r.Success? ==> IsCombination(
      Observed(relationships, clients, ServiceGraphEvidence) + Observed(relationships, servers, ServiceGraphEvidence),
      r.value)
    ensures AllEntities(clients) && AllEntities(servers) ==> r.Success?
  {
    r := AddObservation(relationships, map[], clients, {});
    if r.Failure? { return; }
    ghost var client := Observed(relationships, clients, ServiceGraphEvidence);
    assert {} + client == client;
    if AllEntities(clients) { ObservedIdentified(relationships, clients, ServiceGraphEvidence); }
    r := AddObservation(relationships, r.value, servers, client);
  }

  /** One side is materialized on its own, then added element by element. */
  method AddObservation(
    relationships: seq<Relationship>, elements: map<string, Element>, entities: seq<Element>, ghost seen: set<Element>)
    returns (r: Result<map<string, Element>, Conflict>)
    requires IsCombination(seen, elements)
    ensures r.Success? ==> IsCombination(seen + Observed(relationships, entities, ServiceGraphEvidence), r.value)
    ensures AllIdentified(seen) && AllEntities(entities) ==> r.Success?
  {
    ghost var part := Observed(relationships, entities, ServiceGraphEvidence);
    r := MaterializeObservation(relationships, entities, ServiceGraphEvidence);
    if r.Failure? { return; }
    var side := r.value;
    if AllIdentified(seen) && AllEntities(entities) {
      ObservedIdentified(relationships, entities, ServiceGraphEvidence);
      ValuesIdentified(part, side);
    }
    r := AddAll(elements, Values(side), seen);
    if r.Success? { CombinationNests(part, side, seen, r.value); }
  }

  // ----- what a datapoint yields -----

  lemma ExpandedEdge(relationships: seq<Relationship>, q: Query, e: Element)
    requires e in Expanded(relationships, q)
    ensures e.Edge? && WellIdentified(e) && e.sourceId != e.targetId && e.attributes == map[]
    ensures exists s :: s in q.sources && s.id == e.sourceId
    ensures exists t :: t in q.targets && t.id == e.targetId
  {
  }

  lemma ObservedIdentified(relationships: seq<Relationship>, entities: seq<Element>, evidence: EvidenceSource)
    requires AllEntities(entities)
    ensures AllIdentified(Observed(relationships, entities, evidence))
  {
    var q := Query(entities, entities, evidence, ObservationScope, None);
    forall e | e in Expanded(relationships, q) ensures WellIdentified(e) { ExpandedEdge(relationships, q, e); }
  }

  lemma MentionedIdentified(
    relationships: seq<Relationship>, clients: seq<Element>, servers: seq<Element>, connectionType: string)
    requires AllEntities(clients) && AllEntities(servers)
    ensures AllIdentified(Mentioned(relationships, clients, servers, connectionType))
  {
    ObservedIdentified(relationships, clients, ServiceGraphEvidence);
    ObservedIdentified(relationships, servers, ServiceGraphEvidence);
    var q := Interaction(clients, servers, connectionType);
    forall e | e in Expanded(relationships, q) ensures WellIdentified(e) { ExpandedEdge(relationships, q, e); }
  }

  lemma CombinedIdentified(seen: set<Element>, e: Element)
    requires Combines(seen, e) && AllIdentified(seen)
    ensures WellIdentified(e)
  {
    var x :| x in seen && x.id == e.id;
    assert x == x.Identity().WithAttributes(x.attributes) && e == e.Identity().WithAttributes(e.attributes);
  }

  /** Every mentioned edge joins two distinct mentioned entities. */
  lemma MentionedEdge(
    relationships: seq<Relationship>, clients: seq<Element>, servers: seq<Element>, connectionType: string, e: Element)
    requires AllEntities(clients) && AllEntities(servers)
    requires e in Mentioned(relationships, clients, servers, connectionType) && e.Edge?
    ensures e.sourceId != e.targetId
    ensures exists s :: s in clients + servers && s.id == e.sourceId
    ensures exists t :: t in clients + servers && t.id == e.targetId
  {
    var queries := [
      Query(clients, clients, ServiceGraphEvidence, ObservationScope, None),
      Query(servers, servers, ServiceGraphEvidence, ObservationScope, None),
      Interaction(clients, servers, connectionType)];
    var q :| q in queries && e in Expanded(relationships, q);
    ExpandedEdge(relationships, q, e);
  }

  lemma ValuesIdentified(seen: set<Element>, m: map<string, Element>)
    requires IsCombination(seen, m) && AllIdentified(seen)
    ensures AllIdentified(Values(m))
  {
    forall e | e in Values(m) ensures WellIdentified(e) { CombinedIdentified(seen, e); }
  }

  lemma CombinedEdgeClosed(
    relationships: seq<Relationship>, clients: seq<Element>, servers: seq<Element>, connectionType: string,
    elements: map<string, Element>, id: string)
    requires AllEntities(clients) && AllEntities(servers)
    requires IsCombination(Mentioned(relationships, clients, servers, connectionType), elements)
    requires id in elements && elements[id].Edge?
    ensures EdgeClosed(elements, elements[id])
  {
    var seen := Mentioned(relationships, clients, servers, connectionType);
    var e :| e in seen && e.id == id;
    assert e.Identity() == elements[id].Identity();
    MentionedEdge(relationships, clients, servers, connectionType, e);
    var s :| s in clients + servers && s.id == e.sourceId;
    var t :| t in clients + servers && t.id == e.targetId;
    EntityStaysNode(seen, elements, s);
    EntityStaysNode(seen, elements, t);
  }

  /**
   A service-graph datapoint yields a closed set of elements: one per id, each edge joining two different
   nodes of the same datapoint.
   */
  lemma DatapointIsClosed(
    relationships: seq<Relationship>, clients: seq<Element>, servers: seq<Element>, connectionType: string,
    elements: map<string, Element>)
    requires AllEntities(clients) && AllEntities(servers)
    requires IsCombination(Mentioned(relationships, clients, servers, connectionType), elements)
    ensures ClosedElements(elements)
    ensures forall id | id in elements && elements[id].Edge? :: elements[id].sourceId != elements[id].targetId
  {
    MentionedIdentified(relationships, clients, servers, connectionType);
    ValuesIdentified(Mentioned(relationships, clients, servers, connectionType), elements);
    forall id | id in elements ensures WellIdentified(elements[id]) {
      assert elements[id] in Values(elements);
    }
    forall id | id in elements && elements[id].Edge? ensures EdgeClosed(elements, elements[id]) {
      CombinedEdgeClosed(relationships, clients, servers, connectionType, elements, id);
    }
  }

  // ----- which edges, and in which direction -----

  /** The result has the relationship's edge from the one entity to the other. */
  ghost predicate HasEdge(elements: map<string, Element>, source: string, semanticType: string, target: string) {
    exists id :: id in elements && IsEdgeFrom(elements[id], source, semanticType, target)
  }

  predicate IsEdgeFrom(e: Element, source: string, semanticType: string, target: string) {
    e.Edge? && e.sourceId == source && e.semanticType == semanticType && e.targetId == target
  }

  /** The relationship is registered for service graphs, with this scope and connection type, between these types. */
  predicate Registers(
    relationships: seq<Relationship>, r: Relationship, scope: Scope, connectionType: Option<string>,
    source: Element, target: Element)
  {
    && r in relationships && ServiceGraphEvidence in r.evidenceSources
    && r.scope == scope && r.connectionType == connectionType
    && source.semanticType == r.source && target.semanticType == r.target && source.id != target.id
  }

  /** The edge of a call: from a client entity to a server entity. */
  ghost predicate IsCallEdge(
    relationships: seq<Relationship>, clients: seq<Element>, servers: seq<Element>, connectionType: string, e: Element)
  {
    exists r, client, server ::
      && client in clients && server in servers
      && Registers(relationships, r, InteractionScope, Some(connectionType), client, server)
      && IsEdgeFrom(e, client.id, r.semanticType, server.id)
  }

  /** An edge within one side's observation. */
  ghost predicate IsSideEdge(relationships: seq<Relationship>, side: seq<Element>, e: Element) {
    exists r, source, target ::
      && source in side && target in side
      && Registers(relationships, r, ObservationScope, None, source, target)
      && IsEdgeFrom(e, source.id, r.semanticType, target.id)
  }

  /** A datapoint's elements: the entities of both sides, calls from client to server, edges within each side. */
  ghost predicate IsDatapoint(
    relationships: seq<Relationship>, clients: seq<Element>, servers: seq<Element>, connectionType: string,
    elements: map<string, Element>)
  {
    && (forall e | e in clients + servers ::
      e.id in elements && elements[e.id].Node? && elements[e.id].semanticType == e.semanticType)
    && (forall id | id in elements && elements[id].Node? :: exists e :: e in clients + servers && e.id == id)
    && (forall r, client, server | client in clients && server in servers
        && Registers(relationships, r, InteractionScope, Some(connectionType), client, server) ::
        HasEdge(elements, client.id, r.semanticType, server.id))
    && (forall r, source, target | source in clients && target in clients
        && Registers(relationships, r, ObservationScope, None, source, target) ::
        HasEdge(elements, source.id, r.semanticType, target.id))
    && (forall r, source, target | source in servers && target in servers
        && Registers(relationships, r, ObservationScope, None, source, target) ::
        HasEdge(elements, source.id, r.semanticType, target.id))
    && forall id | id in elements && elements[id].Edge? ::
      || IsCallEdge(relationships, clients, servers, connectionType, elements[id])
      || IsSideEdge(relationships, clients, elements[id])
      || IsSideEdge(relationships, servers, elements[id])
  }

  lemma CombinedEdge(seen: set<Element>, elements: map<string, Element>, e: Element)
    requires IsCombination(seen, elements) && e in seen && e.Edge?
    ensures HasEdge(elements, e.sourceId, e.semanticType, e.targetId)
  {
    assert elements[e.id].Identity() == e.Identity();
    SameIdentityFields(elements[e.id], e);
  }

  lemma SameIdentityFields(a: Element, b: Element)
    requires a.Identity() == b.Identity()
    ensures a.id == b.id && a.semanticType == b.semanticType && (a.Node? <==> b.Node?)
    ensures a.Edge? ==> a.sourceId == b.sourceId && a.targetId == b.targetId
  {
    assert a.Identity().id == b.Identity().id && a.Identity().semanticType == b.Identity().semanticType;
    assert a.Edge? && b.Edge? ==>
      a.Identity().sourceId == b.Identity().sourceId && a.Identity().targetId == b.Identity().targetId;
  }

  lemma RegisteredIsExpanded(
    relationships: seq<Relationship>, r: Relationship, q: Query, source: Element, target: Element)
    requires q.evidence == ServiceGraphEvidence && source in q.sources && target in q.targets
    requires Registers(relationships, r, q.scope, q.connectionType, source, target)
    ensures EdgeBetween(r, source, target) in Expanded(relationships, q)
  {
    assert EdgeBetween(r, source, target) in ExpandedBy(r, q);
  }

  lemma ExpandedIsRegistered(relationships: seq<Relationship>, q: Query, e: Element)
    requires q.evidence == ServiceGraphEvidence && e in Expanded(relationships, q)
    ensures exists r, source, target ::
      && source in q.sources && target in q.targets
      && Registers(relationships, r, q.scope, q.connectionType, source, target)
      && IsEdgeFrom(e, source.id, r.semanticType, target.id)
  {
    var r :| r in relationships && e in ExpandedBy(r, q);
    var source, target :| source in q.sources && target in q.targets && Relates(r, source, target)
      && e == EdgeBetween(r, source, target);
  }

  lemma MentionedOrigin(
    relationships: seq<Relationship>, clients: seq<Element>, servers: seq<Element>, connectionType: string, e: Element)
    requires AllEntities(clients) && AllEntities(servers)
    requires e in Mentioned(relationships, clients, servers, connectionType)
    ensures e.Node? ==> e in clients + servers
    ensures e.Edge? ==>
      || IsCallEdge(relationships, clients, servers, connectionType, e)
      || IsSideEdge(relationships, clients, e)
      || IsSideEdge(relationships, servers, e)
  {
    var client := Query(clients, clients, ServiceGraphEvidence, ObservationScope, None);
    var server := Query(servers, servers, ServiceGraphEvidence, ObservationScope, None);
    var call := Interaction(clients, servers, connectionType);
    if e in Expanded(relationships, client) { ExpandedIsRegistered(relationships, client, e); }
    if e in Expanded(relationships, server) { ExpandedIsRegistered(relationships, server, e); }
    if e in Expanded(relationships, call) { ExpandedIsRegistered(relationships, call, e); }
  }

  lemma CombinedOrigin(
    relationships: seq<Relationship>, clients: seq<Element>, servers: seq<Element>, connectionType: string,
    elements: map<string, Element>, id: string)
    requires AllEntities(clients) && AllEntities(servers)
    requires IsCombination(Mentioned(relationships, clients, servers, connectionType), elements) && id in elements
    ensures elements[id].Node? ==> exists e :: e in clients + servers && e.id == id
    ensures elements[id].Edge? ==>
      || IsCallEdge(relationships, clients, servers, connectionType, elements[id])
      || IsSideEdge(relationships, clients, elements[id])
      || IsSideEdge(relationships, servers, elements[id])
  {
    var seen := Mentioned(relationships, clients, servers, connectionType);
    var e :| e in seen && e.id == id;
    assert e.Identity() == elements[id].Identity();
    SameIdentityFields(e, elements[id]);
    MentionedOrigin(relationships, clients, servers, connectionType, e);
    SameEdgeOrigin(relationships, clients, servers, connectionType, e, elements[id]);
  }

  lemma SameEdgeOrigin(
    relationships: seq<Relationship>, clients: seq<Element>, servers: seq<Element>, connectionType: string,
    e: Element, f: Element)
    requires e.Edge? && f.Edge? ==>
      e.sourceId == f.sourceId && e.semanticType == f.semanticType && e.targetId == f.targetId
    requires e.Edge? <==> f.Edge?
    ensures IsCallEdge(relationships, clients, servers, connectionType, e) ==>
      IsCallEdge(relationships, clients, servers, connectionType, f)
    ensures IsSideEdge(relationships, clients, e) ==> IsSideEdge(relationships, clients, f)
    ensures IsSideEdge(relationships, servers, e) ==> IsSideEdge(relationships, servers, f)
  {
    forall source, semanticType, target | IsEdgeFrom(e, source, semanticType, target)
      ensures IsEdgeFrom(f, source, semanticType, target)
    {
    }
  }

  lemma RegisteredIsCombined(
    relationships: seq<Relationship>, q: Query, seen: set<Element>, elements: map<string, Element>,
    r: Relationship, source: Element, target: Element)
    requires IsCombination(seen, elements) && Expanded(relationships, q) <= seen
    requires q.evidence == ServiceGraphEvidence && source in q.sources && target in q.targets
    requires Registers(relationships, r, q.scope, q.connectionType, source, target)
    ensures HasEdge(elements, source.id, r.semanticType, target.id)
  {
    RegisteredIsExpanded(relationships, r, q, source, target);
    CombinedEdge(seen, elements, EdgeBetween(r, source, target));
  }

  /** What `ServiceGraph` returns has exactly these entities and edges, each call edge from client to server. */
  lemma CombinationIsDatapoint(
    relationships: seq<Relationship>, clients: seq<Element>, servers: seq<Element>, connectionType: string,
    elements: map<string, Element>)
    requires AllEntities(clients) && AllEntities(servers)
    requires IsCombination(Mentioned(relationships, clients, servers, connectionType), elements)
    ensures IsDatapoint(relationships, clients, servers, connectionType, elements)
  {
    var seen := Mentioned(relationships, clients, servers, connectionType);
    forall e | e in clients + servers
      ensures e.id in elements && elements[e.id].Node? && elements[e.id].semanticType == e.semanticType
    {
      EntityStaysNode(seen, elements, e);
      SameIdentityFields(elements[e.id], e);
    }
    forall r, client, server | client in clients && server in servers
      && Registers(relationships, r, InteractionScope, Some(connectionType), client, server)
      ensures HasEdge(elements, client.id, r.semanticType, server.id)
    {
      var q := Interaction(clients, servers, connectionType);
      RegisteredIsCombined(relationships, q, seen, elements, r, client, server);
    }
    forall side, r, source, target | (side == clients || side == servers) && source in side && target in side
      && Registers(relationships, r, ObservationScope, None, source, target)
      ensures HasEdge(elements, source.id, r.semanticType, target.id)
    {
      var q := Query(side, side, ServiceGraphEvidence, ObservationScope, None);
      RegisteredIsCombined(relationships, q, seen, elements, r, source, target);
    }
    forall id | id in elements
      ensures elements[id].Node? ==> exists e :: e in clients + servers && e.id == id
      ensures elements[id].Edge? ==>
        || IsCallEdge(relationships, clients, servers, connectionType, elements[id])
        || IsSideEdge(relationships, clients, elements[id])
        || IsSideEdge(relationships, servers, elements[id])
    {
      CombinedOrigin(relationships, clients, servers, connectionType, elements, id);
    }
  }

  predicate EdgeClosed(elements: map<string, Element>, e: Element) {
    && e.Edge? && e.sourceId != e.targetId
    && e.sourceId in elements && elements[e.sourceId].Node?
    && e.targetId in elements && elements[e.targetId].Node?
  }

  lemma EntityStaysNode(seen: set<Element>, elements: map<string, Element>, s: Element)
    requires IsCombination(seen, elements) && s in seen && IsEntity(s)
    ensures s.id in elements && elements[s.id].Node?
  {
    assert elements[s.id].Identity() == s.Identity();
  }
}

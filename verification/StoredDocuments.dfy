/** What a successful poll leaves in the store, event field by event field. */
module StoredDocuments {
  import opened Wrappers
  import opened Model
  import opened LifecyclePolicy
  import opened Documents
  import opened Projector

  // ----- dictionaries filled in order: the last entry counts -----

  /** The last definition of this type. */
  predicate Defines(collections: seq<Collection>, k: int, semanticType: string) {
    && 0 <= k < |collections| && collections[k].semanticType == semanticType
    && forall j | k < j < |collections| :: collections[j].semanticType != semanticType
  }

  lemma DefinesFront(collections: seq<Collection>, semanticType: string, k: int)
    requires collections != [] && collections[|collections| - 1].semanticType != semanticType
    ensures Defines(collections, k, semanticType) <==> Defines(collections[..|collections| - 1], k, semanticType)
  {
    var n := |collections| - 1;
    var front := collections[..n];
    if Defines(front, k, semanticType) {
      forall j | k < j < |collections| ensures collections[j].semanticType != semanticType {
        if j < n { assert front[j] == collections[j]; }
      }
    }
  }

  lemma {:induction false} TypeIsDefined(collections: seq<Collection>, semanticType: string)
    ensures forall k | Defines(collections, k, semanticType) ::
      semanticType in ByType(collections) && ByType(collections)[semanticType] == collections[k].name
    ensures semanticType in ByType(collections) ==> exists k :: Defines(collections, k, semanticType)
  {
    if collections != [] {
      var n := |collections| - 1;
      var front, last := collections[..n], collections[n];
      if last.semanticType == semanticType {
        assert Defines(collections, n, semanticType);
      } else {
        TypeIsDefined(front, semanticType);
        forall k ensures Defines(collections, k, semanticType) <==> Defines(front, k, semanticType) {
          DefinesFront(collections, semanticType, k);
        }
      }
    }
  }

  lemma {:induction false} TypeIsPresent(collections: seq<Collection>, semanticType: string)
    ensures semanticType in ByType(collections) <==> exists c :: c in collections && c.semanticType == semanticType
  {
    if collections != [] {
      var n := |collections| - 1;
      var front, last := collections[..n], collections[n];
      assert last in collections && forall c | c in front :: c in collections;
      TypeIsPresent(front, semanticType);
    }
  }

  /** The last alias pair with this name whose canonical attribute is present. */
  predicate Aliases(aliases: seq<(string, string)>, k: int, attributes: Attributes, name: string) {
    && 0 <= k < |aliases| && aliases[k].1 == name && aliases[k].0 in attributes
    && forall j | k < j < |aliases| && aliases[j].1 == name :: aliases[j].0 !in attributes
  }

  lemma {:induction false} AliasIsNamed(aliases: seq<(string, string)>, attributes: Attributes, name: string)
    ensures forall k | Aliases(aliases, k, attributes, name) ::
      name in Aliased(aliases, attributes) && Aliased(aliases, attributes)[name] == attributes[aliases[k].0]
    ensures name in Aliased(aliases, attributes) ==> exists k :: Aliases(aliases, k, attributes, name)
  {
    if aliases != [] {
      var n := |aliases| - 1;
      var front, last := aliases[..n], aliases[n];
      AliasIsNamed(front, attributes, name);
      if last.1 == name && last.0 in attributes {
        assert Aliases(aliases, n, attributes, name);
      } else {
        forall k | Aliases(aliases, k, attributes, name) ensures Aliases(front, k, attributes, name) {}
        forall k | Aliases(front, k, attributes, name) ensures Aliases(aliases, k, attributes, name) {}
      }
    }
  }

  /** The element's last event of a poll. */
  predicate IsLast(events: seq<IndexEvent>, i: int, id: string) {
    && 0 <= i < |events| && Readable(events[i]) && events[i].elementId == id
    && forall j | i < j < |events| && Readable(events[j]) :: events[j].elementId != id
  }

  lemma {:induction false} PendingIsLast(events: seq<IndexEvent>, id: string)
    ensures forall i | IsLast(events, i, id) :: id in Pending(events) && Pending(events)[id] == events[i]
    ensures id in Pending(events) ==> exists i :: IsLast(events, i, id)
  {
    if events != [] {
      var n := |events| - 1;
      var front, last := events[..n], events[n];
      PendingIsLast(front, id);
      if Readable(last) && last.elementId == id {
        assert IsLast(events, n, id);
      } else {
        forall i | IsLast(events, i, id) ensures IsLast(front, i, id) {}
        forall i | IsLast(front, i, id) ensures IsLast(events, i, id) {}
      }
    }
  }

  // ----- the store after a poll -----

  function DefinitionsFor(schema: Schema, kind: ElementKind): seq<Collection> {
    if kind.NodeElement? then schema.vertices else schema.edges
  }

  /** Where a node with this id is stored: in the collection defined last for its type. */
  ghost predicate IsNodeSlot(schema: Schema, id: string, s: Slot) {
    && s.elementId == id && EntityType(id).Some?
    && exists k :: Defines(schema.vertices, k, EntityType(id).value) && schema.vertices[k].name == s.collection
  }

  /** Exactly the alias names of attributes that are present, with their values. */
  ghost predicate HasAliases(schema: Schema, attributes: Attributes, aliased: Attributes) {
    && (forall name | name in aliased :: exists k :: Aliases(schema.aliases, k, attributes, name))
    && forall name, k | Aliases(schema.aliases, k, attributes, name) ::
      name in aliased && aliased[name] == attributes[schema.aliases[k].0]
  }

  /** The document carries what the event says. */
  ghost predicate Represents(schema: Schema, ev: IndexEvent, document: Document)
    requires ev.Upserted? && ev.payload.Some?
  {
    var p := ev.payload.value;
    && document.elementId == ev.elementId && document.envelope == ev.envelope
    && p.semanticType == Some(document.semanticType) && p.attributes == Some(document.attributes)
    && HasAliases(schema, document.attributes, document.aliased)
    && (p.kind.NodeElement? ==> document.endpoints.None?)
    && (p.kind.EdgeElement? ==>
      && document.endpoints.Some? && p.sourceId.Some? && p.targetId.Some?
      && IsNodeSlot(schema, p.sourceId.value, document.endpoints.value.source)
      && IsNodeSlot(schema, p.targetId.value, document.endpoints.value.target))
  }

  lemma AliasedHasAliases(schema: Schema, attributes: Attributes)
    ensures HasAliases(schema, attributes, Aliased(schema.aliases, attributes))
  {
    forall name
      ensures name in Aliased(schema.aliases, attributes) ==>
        exists k :: Aliases(schema.aliases, k, attributes, name)
      ensures forall k | Aliases(schema.aliases, k, attributes, name) ::
        && name in Aliased(schema.aliases, attributes)
        && Aliased(schema.aliases, attributes)[name] == attributes[schema.aliases[k].0]
    {
      AliasIsNamed(schema.aliases, attributes, name);
    }
  }

  lemma EndpointIsNodeSlot(schema: Schema, id: string)
    requires EntityType(id).Some? && EntityType(id).value in ByType(schema.vertices)
    ensures IsNodeSlot(schema, id, Slot(ByType(schema.vertices)[EntityType(id).value], id))
  {
    TypeIsDefined(schema.vertices, EntityType(id).value);
    var k :| Defines(schema.vertices, k, EntityType(id).value);
  }

  lemma DocumentRepresents(schema: Schema, ev: IndexEvent)
    requires ev.Upserted? && Writable(schema, ev)
    ensures ev.payload.Some? && ev.payload.value.semanticType.Some?
    ensures Represents(schema, ev, ToDocument(schema, ev).value.1)
    ensures exists k :: Defines(
      DefinitionsFor(schema, ev.payload.value.kind), k, ev.payload.value.semanticType.value)
    ensures forall k | Defines(
        DefinitionsFor(schema, ev.payload.value.kind), k, ev.payload.value.semanticType.value) ::
      ToDocument(schema, ev).value.0 == DefinitionsFor(schema, ev.payload.value.kind)[k].name
  {
    var p := ev.payload.value;
    AliasedHasAliases(schema, p.attributes.value);
    TypeIsDefined(DefinitionsFor(schema, p.kind), p.semanticType.value);
    if p.kind.EdgeElement? {
      EndpointIsNodeSlot(schema, p.sourceId.value);
      EndpointIsNodeSlot(schema, p.targetId.value);
    }
  }

  /**
   After a successful poll, where an element's last event is an upsert, the collection of its type holds a document
   that represents the event; no other slot of the element has changed.
   */
  lemma UpsertIsStored(schema: Schema, events: seq<IndexEvent>, before: DocumentStore, after: DocumentStore, i: int)
    requires AllWritable(schema, Pending(events)) && FullyWritten(schema, Pending(events), before, after)
    requires 0 <= i < |events| && events[i].Upserted? && IsLast(events, i, events[i].elementId)
    ensures events[i].payload.Some? && events[i].payload.value.semanticType.Some?
    ensures var p, id := events[i].payload.value, events[i].elementId;
      exists k :: Defines(DefinitionsFor(schema, p.kind), k, p.semanticType.value)
        && StoresOnly(schema, events[i], before, after, DefinitionsFor(schema, p.kind)[k].name)
  {
    PendingIsLast(events, events[i].elementId);
    DocumentRepresents(schema, events[i]);
    var p, id := events[i].payload.value, events[i].elementId;
    var k :| Defines(DefinitionsFor(schema, p.kind), k, p.semanticType.value);
    forall collection ensures
      var s := Slot(collection, id);
      if collection == DefinitionsFor(schema, p.kind)[k].name
      then At(after, s) == Some(ToDocument(schema, events[i]).value.1)
      else At(after, s) == At(before, s)
    {
      assert At(after, Slot(collection, id)) == Target(schema, Pending(events), before, Slot(collection, id));
    }
    assert StoresOnly(schema, events[i], before, after, DefinitionsFor(schema, p.kind)[k].name);
  }

  ghost predicate StoresOnly(
    schema: Schema, ev: IndexEvent, before: DocumentStore, after: DocumentStore, collection: string)
    requires ev.Upserted? && ev.payload.Some?
  {
    && Slot(collection, ev.elementId) in after
    && Represents(schema, ev, after[Slot(collection, ev.elementId)])
    && forall other | other != collection ::
      At(after, Slot(other, ev.elementId)) == At(before, Slot(other, ev.elementId))
  }

  predicate IsEdgeCollection(schema: Schema, name: string) {
    exists e :: e in schema.edges && e.name == name
  }

  lemma DeletedEdgeSlot(schema: Schema, ev: IndexEvent, s: Slot, x: Option<Document>)
    requires ev == Deleted(s.elementId) && "edge:" <= s.elementId
    ensures Writable(schema, ev)
    ensures SlotAfter(schema, ev, s.collection, x) == if IsEdgeCollection(schema, s.collection) then None else x
  {
    assert IsEdgeCollection(schema, s.collection) <==> s.collection in CollectionNames(schema.edges);
  }

  /** After a successful poll an edge whose last event is a delete is in no edge collection, as before elsewhere. */
  lemma EdgeDeleteIsGone(
    schema: Schema, events: seq<IndexEvent>, before: DocumentStore, after: DocumentStore, i: int, s: Slot)
    requires AllWritable(schema, Pending(events)) && FullyWritten(schema, Pending(events), before, after)
    requires 0 <= i < |events| && events[i].Deleted? && IsLast(events, i, s.elementId) && "edge:" <= s.elementId
    ensures IsEdgeCollection(schema, s.collection) ==> s !in after
    ensures !IsEdgeCollection(schema, s.collection) ==> At(after, s) == At(before, s)
  {
    PendingIsLast(events, s.elementId);
    DeletedEdgeSlot(schema, events[i], s, At(before, s));
    assert At(after, s) == Target(schema, Pending(events), before, s);
    assert At(after, s) == SlotAfter(schema, events[i], s.collection, At(before, s));
  }

  lemma NodeSlotIsHome(schema: Schema, s: Slot)
    requires EntityType(s.elementId).Some? && EntityType(s.elementId).value in ByType(schema.vertices)
    ensures IsNodeSlot(schema, s.elementId, s) <==>
      s.collection == ByType(schema.vertices)[EntityType(s.elementId).value]
  {
    TypeIsDefined(schema.vertices, EntityType(s.elementId).value);
  }

  lemma DeletedNodeSlot(schema: Schema, ev: IndexEvent, s: Slot, x: Option<Document>)
    requires ev == Deleted(s.elementId) && Writable(schema, ev) && !("edge:" <= s.elementId)
    ensures SlotAfter(schema, ev, s.collection, x) == if IsNodeSlot(schema, s.elementId, s) then None else x
  {
    NodeSlotIsHome(schema, s);
  }

  /** After a successful poll a node whose last event is a delete has left its collection, as before elsewhere. */
  lemma NodeDeleteIsGone(
    schema: Schema, events: seq<IndexEvent>, before: DocumentStore, after: DocumentStore, i: int, s: Slot)
    requires AllWritable(schema, Pending(events)) && FullyWritten(schema, Pending(events), before, after)
    requires 0 <= i < |events| && events[i].Deleted? && IsLast(events, i, s.elementId) && !("edge:" <= s.elementId)
    ensures IsNodeSlot(schema, s.elementId, s) ==> s !in after
    ensures !IsNodeSlot(schema, s.elementId, s) ==> At(after, s) == At(before, s)
  {
    PendingIsLast(events, s.elementId);
    DeletedNodeSlot(schema, events[i], s, At(before, s));
    assert At(after, s) == Target(schema, Pending(events), before, s);
    assert At(after, s) == SlotAfter(schema, events[i], s.collection, At(before, s));
  }

  /** After a successful poll, an element without an event is stored as before. */
  lemma OthersAreKept(schema: Schema, events: seq<IndexEvent>, before: DocumentStore, after: DocumentStore, s: Slot)
    requires AllWritable(schema, Pending(events)) && FullyWritten(schema, Pending(events), before, after)
    requires forall ev | ev in events && Readable(ev) :: ev.elementId != s.elementId
    ensures At(after, s) == At(before, s)
  {
    PendingIsLast(events, s.elementId);
    forall i ensures !IsLast(events, i, s.elementId) {
      assert 0 <= i < |events| ==> events[i] in events;
    }
  }

  // ----- which events can be written -----

  predicate HasNodeType(schema: Schema, id: string) {
    EntityType(id).Some? && exists v :: v in schema.vertices && v.semanticType == EntityType(id).value
  }

  /** What an event must carry to be written. */
  predicate Storable(schema: Schema, ev: IndexEvent) {
    match ev
    case Unreadable => false
    case Deleted(id) => "edge:" <= id || HasNodeType(schema, id)
    case Upserted(_, payload, _) =>
      && payload.Some? && !payload.value.hasMetrics && !payload.value.kind.UnknownElement?
      && payload.value.semanticType.Some? && payload.value.attributes.Some?
      && (exists c :: c in DefinitionsFor(schema, payload.value.kind)
                      && c.semanticType == payload.value.semanticType.value)
      && (payload.value.kind.EdgeElement? ==>
        && payload.value.sourceId.Some? && HasNodeType(schema, payload.value.sourceId.value)
        && payload.value.targetId.Some? && HasNodeType(schema, payload.value.targetId.value))
  }

  lemma NodeTypeIsKnown(schema: Schema, id: string)
    ensures HasNodeType(schema, id) <==> EntityType(id).Some? && EntityType(id).value in ByType(schema.vertices)
  {
    if EntityType(id).Some? { TypeIsPresent(schema.vertices, EntityType(id).value); }
  }

  /** A poll is refused over an event exactly when the event lacks what it must carry. */
  lemma WritableIsStorable(schema: Schema, ev: IndexEvent)
    ensures Writable(schema, ev) <==> Storable(schema, ev)
  {
    match ev
    case Unreadable =>
    case Deleted(id) => NodeTypeIsKnown(schema, id);
    case Upserted(_, payload, _) => if payload.Some? { UpsertIsStorable(schema, ev); }
  }

  lemma EndpointsAreKnown(schema: Schema, p: Payload)
    ensures EndpointsOf(schema, p).Success? <==>
      && p.sourceId.Some? && HasNodeType(schema, p.sourceId.value)
      && p.targetId.Some? && HasNodeType(schema, p.targetId.value)
  {
    if p.sourceId.Some? { NodeTypeIsKnown(schema, p.sourceId.value); }
    if p.targetId.Some? { NodeTypeIsKnown(schema, p.targetId.value); }
  }

  lemma UpsertIsStorable(schema: Schema, ev: IndexEvent)
    requires ev.Upserted? && ev.payload.Some?
    ensures Writable(schema, ev) <==> Storable(schema, ev)
  {
    var p := ev.payload.value;
    EndpointsAreKnown(schema, p);
    if p.semanticType.Some? {
      var definitions := DefinitionsFor(schema, p.kind);
      TypeIsPresent(definitions, p.semanticType.value);
      assert p.semanticType.value in ByType(definitions) <==>
        exists c :: c in definitions && c.semanticType == p.semanticType.value;
    }
  }
}

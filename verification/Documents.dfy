/** indexer.py: events, documents and where a document lives. */
module Documents {
  import opened Wrappers
  import opened Model
  import opened LifecyclePolicy

  datatype ElementKind = NodeElement | EdgeElement | UnknownElement

  /**
   The element object of an upsert, as decoded; absent or wrongly typed fields are None, except that absent
   attributes are empty.
   */
  datatype Payload = Payload(
    kind: ElementKind, semanticType: Option<string>, hasMetrics: bool,
    attributes: Option<Attributes>, sourceId: Option<string>, targetId: Option<string>)

  /** A record's value. `Unreadable` fails decoding, the contract check or the id and operation check. */
  datatype IndexEvent =
    | Unreadable
    | Upserted(elementId: string, payload: Option<Payload>, envelope: string)
    | Deleted(elementId: string)

  predicate Readable(ev: IndexEvent) {
    !ev.Unreadable?
  }

  datatype IndexingError =
    | InvalidEvent | MissingElement | HasMetrics | InvalidIdentity | UnsupportedKind | UnknownType
    | InvalidAttributes | InvalidEndpoints | NoSemanticType | UnknownEndpointTypes | WriterFailed | CommitFailed

  datatype Collection = Collection(semanticType: string, name: string)

  datatype Schema = Schema(vertices: seq<Collection>, edges: seq<Collection>, aliases: seq<(string, string)>)

  /** A dictionary by semantic type; a later entry replaces an earlier one. */
  function ByType(collections: seq<Collection>): (m: map<string, string>)
    ensures forall t | t in m :: exists c :: c in collections && c.semanticType == t && c.name == m[t]
  {
    if collections == [] then map[]
    else
      var last := collections[|collections| - 1];
      var front := ByType(collections[..|collections| - 1]);
      assert last in collections;
      front[last.semanticType := last.name]
  }

  function CollectionNames(collections: seq<Collection>): set<string> {
    set c | c in collections :: c.name
  }

  /** `_key` is the SHA-256 of the element id, taken as injective: the id itself stands for it. */
  datatype Slot = Slot(collection: string, elementId: string)

  datatype Endpoints = Endpoints(source: Slot, target: Slot)

  datatype Document = Document(
    elementId: string, semanticType: string, attributes: Attributes, aliased: Attributes,
    envelope: string, endpoints: Option<Endpoints>)

  function Aliased(aliases: seq<(string, string)>, attributes: Attributes): Attributes {
    if aliases == [] then map[]
    else
      var front, (canonical, name) := Aliased(aliases[..|aliases| - 1], attributes), aliases[|aliases| - 1];
      if canonical in attributes then front[name := attributes[canonical]] else front
  }

  function EndpointsOf(schema: Schema, p: Payload): (r: Result<Endpoints, IndexingError>)
    ensures r.Failure? ==> r.error != WriterFailed && r.error != CommitFailed
  {
    var vertices := ByType(schema.vertices);
    if p.sourceId.None? || p.targetId.None? then Failure(InvalidEndpoints)
    else
      var source, target := EntityType(p.sourceId.value), EntityType(p.targetId.value);
      if source.None? || target.None? then Failure(NoSemanticType)
      else if source.value !in vertices || target.value !in vertices then Failure(UnknownEndpointTypes)
      else Success(Endpoints(
        Slot(vertices[source.value], p.sourceId.value), Slot(vertices[target.value], p.targetId.value)))
  }

  /** `event_to_document`: the collection and the document of an upsert. */
  function ToDocument(schema: Schema, ev: IndexEvent): (r: Result<(string, Document), IndexingError>)
    requires ev.Upserted?
    ensures r.Success? ==> r.value.1.elementId == ev.elementId
    ensures r.Failure? ==> r.error != WriterFailed && r.error != CommitFailed
  {
    if ev.payload.None? then Failure(MissingElement)
    else
      var p := ev.payload.value;
      if p.hasMetrics then Failure(HasMetrics)
      else if p.semanticType.None? then Failure(InvalidIdentity)
      else if p.kind.UnknownElement? then Failure(UnsupportedKind)
      else
        var definitions := ByType(if p.kind.NodeElement? then schema.vertices else schema.edges);
        if p.semanticType.value !in definitions then Failure(UnknownType)
        else if p.attributes.None? then Failure(InvalidAttributes)
        else
          var collection := definitions[p.semanticType.value];
          var document := Document(
            ev.elementId, p.semanticType.value, p.attributes.value,
            Aliased(schema.aliases, p.attributes.value), ev.envelope, None);
          if p.kind.NodeElement? then Success((collection, document))
          else
            match EndpointsOf(schema, p)
            case Failure(error) => Failure(error)
            case Success(endpoints) => Success((collection, document.(endpoints := Some(endpoints))))
  }

  predicate IsEdgeId(id: string) {
    "edge:" <= id
  }

  /** Which collections a delete of this element touches. */
  function DeletedFrom(schema: Schema, id: string): (r: Result<set<string>, IndexingError>)
    ensures r.Failure? ==> r.error != WriterFailed && r.error != CommitFailed
  {
    if IsEdgeId(id) then Success(CollectionNames(schema.edges))
    else
      match EntityType(id)
      case None => Failure(NoSemanticType)
      case Some(t) =>
        if t in ByType(schema.vertices) then Success({ByType(schema.vertices)[t]}) else Failure(UnknownType)
  }

  /** The event can be turned into writes. */
  predicate Writable(schema: Schema, ev: IndexEvent) {
    match ev
    case Unreadable => false
    case Upserted(_, _, _) => ToDocument(schema, ev).Success?
    case Deleted(id) => DeletedFrom(schema, id).Success?
  }

  /** One event's effect on one slot of its element. */
  function SlotAfter(schema: Schema, ev: IndexEvent, collection: string, before: Option<Document>): Option<Document>
    requires Writable(schema, ev)
  {
    match ev
    case Upserted(_, _, _) =>
      var (target, document) := ToDocument(schema, ev).value;
      if collection == target then Some(document) else before
    case Deleted(id) => if collection in DeletedFrom(schema, id).value then None else before
  }
}

/** The records of io.extendedotel.flink.model. */
module Model {
  import opened Wrappers

  /** An attribute value, represented by its JSON text. */
  datatype Value = Json(text: string)

  type Attributes = map<string, Value>

  datatype Element =
    | Node(id: string, semanticType: string, attributes: Attributes)
    | Edge(id: string, semanticType: string, sourceId: string, targetId: string, attributes: Attributes)
  {
    /** Everything `validateIdentity` compares: id, kind, type and endpoints. */
    function Identity(): Element {
      this.(attributes := map[])
    }

    function WithAttributes(attributes: Attributes): (e: Element)
      ensures e.Identity() == Identity() && e.attributes == attributes
    {
      this.(attributes := attributes)
    }
  }

  /** SHA-256 over the JSON of an element, taken as injective: the digest keeps its preimage. */
  datatype Hash = Sha256(preimage: Element)

  function PayloadHash(e: Element): Hash {
    Sha256(e)
  }

  datatype Contribution = Contribution(contributorId: string, observedAt: int, element: Element) {
    /** `ModelValues.positiveTimestamp`. */
    predicate Valid() {
      observedAt > 0
    }
  }

  /** One contributor's observation with its two nullable deadlines (nanoseconds, milliseconds). */
  datatype Snapshot = Snapshot(
    observedAt: int,
    eventDeadline: Option<int>,
    processingDeadline: Option<int>,
    element: Element)

  type Contributors = map<string, Snapshot>

  datatype State = State(elementId: string, contributors: Contributors, lastHash: Hash)

  datatype Aggregate = Aggregate(elementId: string, lastHash: Hash)

  datatype Operation = UpsertOperation | DeleteOperation

  /** The event digest, again injective in what it covers. */
  datatype EventId = EventId(operation: Operation, elementId: string, observedAt: int, hash: Option<Hash>)

  datatype Event =
    | Upsert(eventId: EventId, observedAt: int, emittedAt: int, payloadHash: Hash, element: Element)
    | Delete(eventId: EventId, elementId: string, observedAt: int, emittedAt: int)

  datatype Failure = NonPositiveTtl | NoTypePrefix | IdentityConflict
}

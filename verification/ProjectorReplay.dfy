/** A poll against one-by-one replay of its records. */
module ProjectorReplay {
  import opened Wrappers
  import opened LifecyclePolicy
  import opened Documents
  import opened Projector

  /** The one collection an element belongs to; `typeOf` gives each edge id's type, which the id digests. */
  function Home(schema: Schema, typeOf: map<string, string>, id: string): Option<string> {
    if IsEdgeId(id) then
      if id in typeOf && typeOf[id] in ByType(schema.edges) then Some(ByType(schema.edges)[typeOf[id]]) else None
    else
      match EntityType(id)
      case None => None
      case Some(t) => if t in ByType(schema.vertices) then Some(ByType(schema.vertices)[t]) else None
  }

  /** Node types are id prefixes, edge ids start with "edge:" and fix the edge's type. */
  predicate WellFormedEvent(schema: Schema, typeOf: map<string, string>, ev: IndexEvent) {
    && Writable(schema, ev)
    && (ev.Upserted? ==>
          if ev.payload.value.kind.NodeElement? then
            !IsEdgeId(ev.elementId) && EntityType(ev.elementId) == ev.payload.value.semanticType
          else
            IsEdgeId(ev.elementId) && ev.elementId in typeOf
            && Some(typeOf[ev.elementId]) == ev.payload.value.semanticType)
  }

  predicate AllWellFormed(schema: Schema, typeOf: map<string, string>, events: seq<IndexEvent>) {
    forall ev | ev in events :: WellFormedEvent(schema, typeOf, ev)
  }

  /** A slot off its element's home stays empty; at home an event decides the slot whatever it held. */
  lemma EventAtHome(schema: Schema, typeOf: map<string, string>, ev: IndexEvent, collection: string)
    requires WellFormedEvent(schema, typeOf, ev)
    ensures Home(schema, typeOf, ev.elementId) == Some(collection) ==>
      forall x, y :: SlotAfter(schema, ev, collection, x) == SlotAfter(schema, ev, collection, y)
    ensures Home(schema, typeOf, ev.elementId) != Some(collection) ==> SlotAfter(schema, ev, collection, None) == None
  {
  }

  /** An edge document refers to exactly the slots in which its endpoint nodes' own documents live. */
  lemma EdgePointsAtItsNodes(schema: Schema, typeOf: map<string, string>, edge: IndexEvent, node: IndexEvent)
    requires edge.Upserted? && Writable(schema, edge) && edge.payload.value.kind.EdgeElement?
    requires node.Upserted? && WellFormedEvent(schema, typeOf, node) && node.payload.value.kind.NodeElement?
    ensures ToDocument(schema, edge).value.1.endpoints.Some?
    ensures var endpoints := ToDocument(schema, edge).value.1.endpoints.value;
      var home := Slot(ToDocument(schema, node).value.0, node.elementId);
      && (endpoints.source == home <==> edge.payload.value.sourceId == Some(node.elementId))
      && (endpoints.target == home <==> edge.payload.value.targetId == Some(node.elementId))
  {
    var p := edge.payload.value;
    assert ToDocument(schema, edge).value.1.endpoints == Some(EndpointsOf(schema, p).value);
  }

  // ----- replay -----

  function EventAt(schema: Schema, ev: IndexEvent, s: Slot, before: Option<Document>): Option<Document>
    requires Writable(schema, ev)
  {
    if ev.elementId == s.elementId then SlotAfter(schema, ev, s.collection, before) else before
  }

  /** Applying the events one at a time, in order. */
  function ReplayAt(schema: Schema, events: seq<IndexEvent>, s: Slot, before: Option<Document>): Option<Document>
    requires forall ev | ev in events :: Writable(schema, ev)
  {
    if events == [] then before
    else
      var front, last := events[..|events| - 1], events[|events| - 1];
      assert last in events && forall ev | ev in front :: ev in events;
      EventAt(schema, last, s, ReplayAt(schema, front, s, before))
  }

  /** A poll of a single record is one step of the replay. */
  lemma SingleRecordPoll(schema: Schema, ev: IndexEvent, before: DocumentStore, s: Slot)
    requires Writable(schema, ev)
    ensures AllWritable(schema, Pending([ev]))
    ensures Target(schema, Pending([ev]), before, s) == ReplayAt(schema, [ev], s, At(before, s))
    ensures ReplayAt(schema, [ev], s, At(before, s)) == EventAt(schema, ev, s, At(before, s))
  {
    assert Pending([ev]) == Pending([])[ev.elementId := ev] by { PendingAppend([], ev); assert [] + [ev] == [ev]; }
    assert [ev][..0] == [];
  }

  lemma {:induction false} ReplaySplit(
    schema: Schema, a: seq<IndexEvent>, b: seq<IndexEvent>, s: Slot, x: Option<Document>)
    requires forall ev | ev in a + b :: Writable(schema, ev)
    ensures forall ev | ev in a || ev in b :: ev in a + b
    ensures ReplayAt(schema, a + b, s, x) == ReplayAt(schema, b, s, ReplayAt(schema, a, s, x))
    decreases |b|
  {
    assert forall ev | ev in a || ev in b :: ev in a + b;
    if b == [] {
      assert a + b == a;
    } else {
      var front := b[..|b| - 1];
      assert (a + b)[..|a + b| - 1] == a + front;
      ReplaySplit(schema, a, front, s, x);
    }
  }

  lemma {:induction false} ReplayQuiet(schema: Schema, events: seq<IndexEvent>, s: Slot, x: Option<Document>)
    requires forall ev | ev in events :: Writable(schema, ev) && ev.elementId != s.elementId
    ensures ReplayAt(schema, events, s, x) == x
  {
    if events != [] { ReplayQuiet(schema, events[..|events| - 1], s, x); }
  }

  predicate Mentions(events: seq<IndexEvent>, id: string) {
    exists ev :: ev in events && Readable(ev) && ev.elementId == id
  }

  /** A slot that is empty unless it is its element's home. */
  predicate Settled(schema: Schema, typeOf: map<string, string>, s: Slot, value: Option<Document>) {
    value.Some? ==> Home(schema, typeOf, s.elementId) == Some(s.collection)
  }

  lemma {:induction false} ReplaySettled(
    schema: Schema, typeOf: map<string, string>, events: seq<IndexEvent>, s: Slot, x: Option<Document>)
    requires AllWellFormed(schema, typeOf, events) && Settled(schema, typeOf, s, x)
    ensures Settled(schema, typeOf, s, ReplayAt(schema, events, s, x))
  {
    if events != [] {
      ReplaySettled(schema, typeOf, events[..|events| - 1], s, x);
      EventAtHome(schema, typeOf, events[|events| - 1], s.collection);
    }
  }

  /** Once an element is mentioned, what its slot held before does not matter. */
  lemma {:induction false} ReplayForgets(
    schema: Schema, typeOf: map<string, string>, events: seq<IndexEvent>,
    s: Slot, x: Option<Document>, y: Option<Document>)
    requires AllWellFormed(schema, typeOf, events) && Mentions(events, s.elementId)
    requires Settled(schema, typeOf, s, x) && Settled(schema, typeOf, s, y)
    ensures ReplayAt(schema, events, s, x) == ReplayAt(schema, events, s, y)
  {
    var front, last := events[..|events| - 1], events[|events| - 1];
    EventAtHome(schema, typeOf, last, s.collection);
    if last.elementId == s.elementId {
      ReplaySettled(schema, typeOf, front, s, x);
      ReplaySettled(schema, typeOf, front, s, y);
    } else {
      assert Mentions(front, s.elementId);
      ReplayForgets(schema, typeOf, front, s, x, y);
    }
  }

  // ----- a batch is its replay -----

  lemma {:induction false} PendingWritable(schema: Schema, events: seq<IndexEvent>)
    requires forall ev | ev in events :: Writable(schema, ev)
    ensures AllWritable(schema, Pending(events))
  {
    if events != [] { PendingWritable(schema, events[..|events| - 1]); }
  }

  /** Writing only each element's last event leaves what applying every event in order leaves. */
  lemma {:induction false} BatchIsReplay(
    schema: Schema, typeOf: map<string, string>, events: seq<IndexEvent>, before: DocumentStore, s: Slot)
    requires AllWellFormed(schema, typeOf, events) && Settled(schema, typeOf, s, At(before, s))
    ensures AllWritable(schema, Pending(events))
    ensures Target(schema, Pending(events), before, s) == ReplayAt(schema, events, s, At(before, s))
  {
    PendingWritable(schema, events);
    if events != [] {
      var front, last := events[..|events| - 1], events[|events| - 1];
      BatchIsReplay(schema, typeOf, front, before, s);
      assert WellFormedEvent(schema, typeOf, last);
      if last.elementId == s.elementId {
        EventAtHome(schema, typeOf, last, s.collection);
        ReplaySettled(schema, typeOf, front, s, At(before, s));
      }
    }
  }

  /** One successful poll of well-formed records leaves the store of their one-by-one replay. */
  lemma SuccessfulPollIsReplay(
    schema: Schema, typeOf: map<string, string>, poll: Poll, before: DocumentStore, after: DocumentStore)
    requires AllWellFormed(schema, typeOf, AllEvents(poll))
    requires forall s :: Settled(schema, typeOf, s, At(before, s))
    requires AllWritable(schema, Pending(AllEvents(poll)))
      && FullyWritten(schema, Pending(AllEvents(poll)), before, after)
    ensures forall s ::
      At(after, s) == ReplayAt(schema, AllEvents(poll), s, At(before, s)) && Settled(schema, typeOf, s, At(after, s))
  {
    forall s
      ensures At(after, s) == ReplayAt(schema, AllEvents(poll), s, At(before, s))
      ensures Settled(schema, typeOf, s, At(after, s))
    {
      BatchIsReplay(schema, typeOf, AllEvents(poll), before, s);
      ReplaySettled(schema, typeOf, AllEvents(poll), s, At(before, s));
    }
  }

  // ----- exactly when a batch is its replay -----

  /** The collections in which an event decides its element's slot, whatever the slot held. */
  function Decides(schema: Schema, ev: IndexEvent): set<string>
    requires Writable(schema, ev)
  {
    match ev
    case Upserted(_, _, _) => {ToDocument(schema, ev).value.0}
    case Deleted(id) => DeletedFrom(schema, id).value
  }

  lemma DecidedSlot(schema: Schema, ev: IndexEvent, collection: string, x: Option<Document>, y: Option<Document>)
    requires Writable(schema, ev)
    ensures collection in Decides(schema, ev) ==>
      SlotAfter(schema, ev, collection, x) == SlotAfter(schema, ev, collection, y)
    ensures collection !in Decides(schema, ev) ==> SlotAfter(schema, ev, collection, x) == x
  {
  }

  ghost predicate Touched(schema: Schema, events: seq<IndexEvent>, s: Slot)
    requires forall ev | ev in events :: Writable(schema, ev)
  {
    exists ev :: ev in events && Readable(ev) && ev.elementId == s.elementId && s.collection in Decides(schema, ev)
  }

  /** A touched slot forgets what it held; any other keeps it. */
  lemma {:induction false} ReplayTouched(
    schema: Schema, events: seq<IndexEvent>, s: Slot, x: Option<Document>, y: Option<Document>)
    requires forall ev | ev in events :: Writable(schema, ev)
    ensures Touched(schema, events, s) ==> ReplayAt(schema, events, s, x) == ReplayAt(schema, events, s, y)
    ensures !Touched(schema, events, s) ==> ReplayAt(schema, events, s, x) == x
  {
    if events != [] {
      var front, last := events[..|events| - 1], events[|events| - 1];
      assert last in events && forall ev | ev in front :: ev in events;
      ReplayTouched(schema, front, s, x, y);
      if last.elementId == s.elementId {
        DecidedSlot(schema, last, s.collection, ReplayAt(schema, front, s, x), ReplayAt(schema, front, s, y));
      }
    }
  }

  lemma {:induction false} PendingHas(events: seq<IndexEvent>, ev: IndexEvent)
    requires ev in events && Readable(ev)
    ensures ev.elementId in Pending(events)
  {
    if ev != events[|events| - 1] { PendingHas(events[..|events| - 1], ev); }
  }

  /** Where an element's last event decides, the batch writes what the replay leaves. */
  lemma {:induction false} LastDecides(schema: Schema, events: seq<IndexEvent>, before: DocumentStore, s: Slot)
    requires forall ev | ev in events :: Writable(schema, ev)
    ensures AllWritable(schema, Pending(events))
    ensures s.elementId in Pending(events) && s.collection in Decides(schema, Pending(events)[s.elementId]) ==>
      Target(schema, Pending(events), before, s) == ReplayAt(schema, events, s, At(before, s))
    ensures !(s.elementId in Pending(events) && s.collection in Decides(schema, Pending(events)[s.elementId])) ==>
      Target(schema, Pending(events), before, s) == At(before, s)
  {
    PendingWritable(schema, events);
    if s.elementId in Pending(events) {
      DecidedSlot(schema, Pending(events)[s.elementId], s.collection, At(before, s), At(before, s));
    }
    if events != [] {
      var front, last := events[..|events| - 1], events[|events| - 1];
      LastDecides(schema, front, before, s);
      assert Writable(schema, last);
      if last.elementId == s.elementId {
        DecidedSlot(schema, last, s.collection, At(before, s), ReplayAt(schema, front, s, At(before, s)));
      }
    }
  }

  /** Every slot that some event decides is decided by its element's last event. */
  ghost predicate LastEventsDecide(schema: Schema, events: seq<IndexEvent>)
    requires (forall ev | ev in events :: Writable(schema, ev)) && AllWritable(schema, Pending(events))
  {
    forall ev | ev in events && Readable(ev) ::
      ev.elementId in Pending(events) && Decides(schema, ev) <= Decides(schema, Pending(events)[ev.elementId])
  }

  /** From every store, a batch of writable events leaves their replay exactly when last events decide. */
  lemma BatchIsReplayIffLastEventsDecide(schema: Schema, events: seq<IndexEvent>)
    requires forall ev | ev in events :: Writable(schema, ev)
    ensures AllWritable(schema, Pending(events))
    ensures LastEventsDecide(schema, events) <==>
      forall before: DocumentStore, s: Slot ::
        Target(schema, Pending(events), before, s) == ReplayAt(schema, events, s, At(before, s))
  {
    PendingWritable(schema, events);
    if LastEventsDecide(schema, events) {
      forall before: DocumentStore, s: Slot
        ensures Target(schema, Pending(events), before, s) == ReplayAt(schema, events, s, At(before, s))
      {
        LastDecides(schema, events, before, s);
        ReplayTouched(schema, events, s, At(before, s), None);
      }
    } else {
      var ev :| ev in events && Readable(ev) &&
        !(ev.elementId in Pending(events) && Decides(schema, ev) <= Decides(schema, Pending(events)[ev.elementId]));
      PendingHas(events, ev);
      var collection :| collection in Decides(schema, ev)
        && collection !in Decides(schema, Pending(events)[ev.elementId]);
      DisagreeingStore(schema, events, ev, Slot(collection, ev.elementId));
    }
  }

  /** A slot touched, but not by the last event: some store tells batch and replay apart. */
  lemma DisagreeingStore(schema: Schema, events: seq<IndexEvent>, ev: IndexEvent, s: Slot)
    requires forall e | e in events :: Writable(schema, e)
    requires AllWritable(schema, Pending(events))
    requires ev in events && Readable(ev) && ev.elementId == s.elementId && s.collection in Decides(schema, ev)
    requires s.elementId in Pending(events) && s.collection !in Decides(schema, Pending(events)[s.elementId])
    ensures exists before: DocumentStore ::
      Target(schema, Pending(events), before, s) != ReplayAt(schema, events, s, At(before, s))
  {
    var empty: DocumentStore := map[];
    var stray := empty[s := Document(s.elementId, "", map[], map[], "", None)];
    LastDecides(schema, events, empty, s);
    LastDecides(schema, events, stray, s);
    assert Touched(schema, events, s);
    ReplayTouched(schema, events, s, At(empty, s), At(stray, s));
    assert Target(schema, Pending(events), empty, s) != Target(schema, Pending(events), stray, s);
  }

  const TWO_TYPES := Schema([Collection("a", "A"), Collection("b", "B")], [], [])

  /** An upsert whose type is not its id's prefix, then its delete. */
  const MISPLACED := [
    Upserted("a:x", Some(Payload(NodeElement, Some("b"), false, Some(map[]), None, None)), ""),
    Deleted("a:x")]

  /** One by one the document stays behind in B; the batch never writes it. */
  lemma MisplacedUpsertIsLost()
    ensures forall ev | ev in MISPLACED :: Writable(TWO_TYPES, ev)
    ensures AllWritable(TWO_TYPES, Pending(MISPLACED)) && !LastEventsDecide(TWO_TYPES, MISPLACED)
    ensures Target(TWO_TYPES, Pending(MISPLACED), map[], Slot("B", "a:x")) == None
    ensures ReplayAt(TWO_TYPES, MISPLACED, Slot("B", "a:x"), None).Some?
  {
    var first, second := MISPLACED[0], MISPLACED[1];
    TwoTypes(first, second);
    assert MISPLACED == [first] + [second] && [first] == [] + [first];
    PendingAppend([], first);
    PendingAppend([first], second);
    SingleRecordPoll(TWO_TYPES, first, map[], Slot("B", "a:x"));
    assert MISPLACED[..1] == [first];
  }

  lemma TwoTypes(first: IndexEvent, second: IndexEvent)
    requires first == MISPLACED[0] && second == MISPLACED[1]
    ensures Writable(TWO_TYPES, first) && Decides(TWO_TYPES, first) == {"B"}
    ensures Writable(TWO_TYPES, second) && Decides(TWO_TYPES, second) == {"A"}
  {
    var vertices := TWO_TYPES.vertices;
    assert vertices[..1] == [Collection("a", "A")] && vertices[..1][..0] == [];
    assert ByType(vertices[..1]) == map["a" := "A"];
    assert ByType(vertices) == map["a" := "A", "b" := "B"];
    TypeOfShortId();
  }

  lemma TypeOfShortId()
    ensures EntityType("a:x") == Some("a") && !IsEdgeId("a:x")
  {
    assert "a:x"[1..] == ":x" && "a:x"[..1] == "a";
  }

  // ----- partitions -----

  /** Each partition's records appear once, in whatever order the client iterates partitions. */
  ghost predicate Reads(poll: Poll, slices: map<Partition, seq<Record>>) {
    && (forall i | 0 <= i < |poll| :: poll[i].0 in slices && poll[i].1 == slices[poll[i].0])
    && (forall i, j | 0 <= i < j < |poll| :: poll[i].0 != poll[j].0)
    && forall p | p in slices :: exists i :: 0 <= i < |poll| && poll[i].0 == p
  }

  /** Every element's events are in one partition only. */
  ghost predicate Confined(slices: map<Partition, seq<Record>>, partitionOf: map<string, Partition>) {
    forall p, i | p in slices && 0 <= i < |slices[p]| && Readable(slices[p][i].event) ::
      slices[p][i].event.elementId in partitionOf && partitionOf[slices[p][i].event.elementId] == p
  }

  function Get(pending: map<string, IndexEvent>, id: string): Option<IndexEvent> {
    if id in pending then Some(pending[id]) else None
  }

  lemma {:induction false} PendingQuiet(a: seq<IndexEvent>, b: seq<IndexEvent>, id: string)
    requires !Mentions(b, id)
    ensures Get(Pending(a + b), id) == Get(Pending(a), id)
    decreases |b|
  {
    if b == [] { assert a + b == a; }
    else {
      var front, last := b[..|b| - 1], b[|b| - 1];
      assert (a + b)[..|a + b| - 1] == a + front;
      assert last in b && forall ev | ev in front :: ev in b;
      PendingQuiet(a, front, id);
    }
  }

  lemma {:induction false} PendingSuffix(a: seq<IndexEvent>, b: seq<IndexEvent>, id: string)
    requires !Mentions(a, id)
    ensures Get(Pending(a + b), id) == Get(Pending(b), id)
    decreases |b|
  {
    if b == [] {
      assert a + b == a;
      PendingQuiet([], a, id);
      assert [] + a == a;
    } else {
      assert (a + b)[..|a + b| - 1] == a + b[..|b| - 1];
      PendingSuffix(a, b[..|b| - 1], id);
    }
  }

  lemma {:induction false} NotMentioned(poll: Poll, id: string)
    requires forall i | 0 <= i < |poll| :: !Mentions(Events(poll[i].1), id)
    ensures !Mentions(AllEvents(poll), id)
  {
    if poll != [] {
      NotMentioned(poll[..|poll| - 1], id);
      assert AllEvents(poll) == AllEvents(poll[..|poll| - 1]) + Events(poll[|poll| - 1].1);
    }
  }

  /** An element's pending event comes from its own partition's records alone. */
  lemma {:induction false} PendingOfPartition(poll: Poll, k: nat, id: string)
    requires k < |poll| && forall i | 0 <= i < |poll| && i != k :: !Mentions(Events(poll[i].1), id)
    ensures Get(Pending(AllEvents(poll)), id) == Get(Pending(Events(poll[k].1)), id)
    decreases |poll|
  {
    var front, last := poll[..|poll| - 1], poll[|poll| - 1];
    if k < |poll| - 1 {
      PendingOfPartition(front, k, id);
      PendingQuiet(AllEvents(front), Events(last.1), id);
    } else {
      NotMentioned(front, id);
      PendingSuffix(AllEvents(front), Events(last.1), id);
    }
  }

  lemma ForeignEvents(
    slices: map<Partition, seq<Record>>, partitionOf: map<string, Partition>, p: Partition, id: string)
    requires Confined(slices, partitionOf) && p in slices
    requires id in partitionOf ==> partitionOf[id] != p
    ensures !Mentions(Events(slices[p]), id)
  {
    forall ev | ev in Events(slices[p]) && Readable(ev) ensures ev.elementId != id {
      var i :| 0 <= i < |slices[p]| && slices[p][i].event == ev;
    }
  }

  /** What a poll has pending for an element, read off the element's partition. */
  lemma PendingOfPoll(poll: Poll, slices: map<Partition, seq<Record>>, partitionOf: map<string, Partition>, id: string)
    requires Reads(poll, slices) && Confined(slices, partitionOf)
    ensures Get(Pending(AllEvents(poll)), id) ==
      if id in partitionOf && partitionOf[id] in slices then Get(Pending(Events(slices[partitionOf[id]])), id) else None
  {
    forall i | 0 <= i < |poll| && (id in partitionOf ==> poll[i].0 != partitionOf[id])
      ensures !Mentions(Events(poll[i].1), id)
    {
      ForeignEvents(slices, partitionOf, poll[i].0, id);
    }
    if id in partitionOf && partitionOf[id] in slices {
      var k :| 0 <= k < |poll| && poll[k].0 == partitionOf[id];
      PendingOfPartition(poll, k, id);
    } else {
      NotMentioned(poll, id);
      PendingQuiet([], AllEvents(poll), id);
      assert [] + AllEvents(poll) == AllEvents(poll);
    }
  }

  /** The order in which partitions are iterated does not show in what a poll writes. */
  lemma PartitionOrderIrrelevant(
    schema: Schema, one: Poll, two: Poll, slices: map<Partition, seq<Record>>, partitionOf: map<string, Partition>,
    before: DocumentStore, s: Slot)
    requires Reads(one, slices) && Reads(two, slices) && Confined(slices, partitionOf)
    requires AllWritable(schema, Pending(AllEvents(one))) && AllWritable(schema, Pending(AllEvents(two)))
    ensures Target(schema, Pending(AllEvents(one)), before, s) == Target(schema, Pending(AllEvents(two)), before, s)
  {
    PendingOfPoll(one, slices, partitionOf, s.elementId);
    PendingOfPoll(two, slices, partitionOf, s.elementId);
  }

  /** The offsets of a poll, read off its partitions. */
  lemma {:induction false} OffsetsOfPoll(poll: Poll, slices: map<Partition, seq<Record>>)
    requires forall i | 0 <= i < |poll| :: poll[i].0 in slices && poll[i].1 == slices[poll[i].0]
    requires forall i, j | 0 <= i < j < |poll| :: poll[i].0 != poll[j].0
    ensures forall i | 0 <= i < |poll| :: poll[i].0 in Offsets(poll) <==> poll[i].1 != []
    ensures forall p | p in Offsets(poll) ::
      p in slices && slices[p] != [] && Offsets(poll)[p] == slices[p][|slices[p]| - 1].offset + 1
      && exists i :: 0 <= i < |poll| && poll[i].0 == p
  {
    if poll != [] {
      OffsetsOfPoll(poll[..|poll| - 1], slices);
    }
  }
}

/** indexer.py: `project_poll` against a store whose writes may stop anywhere. */
module Projector {
  import opened Wrappers
  import opened Documents
  import Extremum

  type DocumentStore = map<Slot, Document>

  function At(docs: DocumentStore, s: Slot): Option<Document> {
    if s in docs then Some(docs[s]) else None
  }

  // ----- the meaning of a batch -----

  /** The pending dictionary: each element's last event. */
  function Pending(events: seq<IndexEvent>): (pending: map<string, IndexEvent>)
    ensures forall id | id in pending :: Readable(pending[id]) && pending[id].elementId == id
  {
    if events == [] then map[]
    else
      var front, last := Pending(events[..|events| - 1]), events[|events| - 1];
      if Readable(last) then front[last.elementId := last] else front
  }

  predicate AllWritable(schema: Schema, pending: map<string, IndexEvent>) {
    forall id | id in pending :: Writable(schema, pending[id])
  }

  /** What a slot holds once every pending event has been written. */
  function Target(schema: Schema, pending: map<string, IndexEvent>, before: DocumentStore, s: Slot): Option<Document>
    requires AllWritable(schema, pending)
  {
    if s.elementId in pending then SlotAfter(schema, pending[s.elementId], s.collection, At(before, s))
    else At(before, s)
  }

  /** Some slots may have been written, all others are as before. */
  ghost predicate PartlyWritten(
    schema: Schema, pending: map<string, IndexEvent>, before: DocumentStore, after: DocumentStore)
    requires AllWritable(schema, pending)
  {
    forall s :: At(after, s) == At(before, s) || At(after, s) == Target(schema, pending, before, s)
  }

  ghost predicate FullyWritten(
    schema: Schema, pending: map<string, IndexEvent>, before: DocumentStore, after: DocumentStore)
    requires AllWritable(schema, pending)
  {
    forall s :: At(after, s) == Target(schema, pending, before, s)
  }

  // ----- the writer and the consumer -----

  /** The database writer. A call may fail after writing any part of its batch. */
  class Writer {
    var documents: DocumentStore

    method ReplaceMany(collection: string, batch: map<string, Document>) returns (ok: bool)
      modifies this
      ensures forall s :: At(documents, s) == At(old(documents), s)
                          || (s.collection == collection && s.elementId in batch
                              && At(documents, s) == Some(batch[s.elementId]))
      ensures ok ==> forall id | id in batch :: At(documents, Slot(collection, id)) == Some(batch[id])
    {
      var todo := batch.Keys;
      while todo != {}
        invariant todo <= batch.Keys
        invariant forall s :: At(documents, s) == (
                                if s.collection == collection && s.elementId in batch && s.elementId !in todo
                                then Some(batch[s.elementId]) else At(old(documents), s))
      {
        if * { return false; }
        var id :| id in todo;
        todo := todo - {id};
        documents := documents[Slot(collection, id) := batch[id]];
      }
      ok := *;
    }

    /** Deleting a missing document is not an error. */
    method DeleteMany(collection: string, ids: set<string>) returns (ok: bool)
      modifies this
      ensures forall s :: At(documents, s) == At(old(documents), s)
                          || (s.collection == collection && s.elementId in ids && At(documents, s) == None)
      ensures ok ==> forall id | id in ids :: At(documents, Slot(collection, id)) == None
    {
      var todo := ids;
      while todo != {}
        invariant todo <= ids
        invariant forall s :: At(documents, s) == (
                                if s.collection == collection && s.elementId in ids && s.elementId !in todo
                                then None else At(old(documents), s))
      {
        if * { return false; }
        var id :| id in todo;
        todo := todo - {id};
        documents := documents - {Slot(collection, id)};
      }
      ok := *;
    }
  }

  type Partition = int

  datatype Record = Record(offset: nat, event: IndexEvent)

  /** The offsets of some of the partitions. */
  function Part(offsets: map<Partition, nat>, partitions: set<Partition>): map<Partition, nat> {
    map p | p in offsets && p in partitions :: offsets[p]
  }

  class Consumer {
    var committed: map<Partition, nat>

    /** A commit may fail after moving any of the partitions. */
    method Commit(offsets: map<Partition, nat>) returns (ok: bool)
      modifies this
      ensures exists moved: set<Partition> :: committed == old(committed) + Part(offsets, moved)
      ensures ok ==> committed == old(committed) + offsets
    {
      ghost var before, done := committed, {};
      var todo := offsets.Keys;
      assert committed == before + Part(offsets, done);
      while todo != {}
        invariant done == offsets.Keys - todo && todo <= offsets.Keys
        invariant committed == before + Part(offsets, done)
      {
        if * { return false; }
        Extremum.Inhabited(todo);
        var p :| p in todo;
        todo, done := todo - {p}, done + {p};
        committed := committed[p := offsets[p]];
      }
      assert Part(offsets, done) == offsets;
      ok := *;
    }
  }

  // ----- reading the poll -----

  /** A poll: the partitions in the order the client iterates them, each with its records. */
  type Poll = seq<(Partition, seq<Record>)>

  function Events(records: seq<Record>): seq<IndexEvent> {
    seq(|records|, i requires 0 <= i < |records| => records[i].event)
  }

  function AllEvents(poll: Poll): seq<IndexEvent> {
    if poll == [] then [] else AllEvents(poll[..|poll| - 1]) + Events(poll[|poll| - 1].1)
  }

  /** One past the last record of every partition that has records. */
  function Offsets(poll: Poll): map<Partition, nat> {
    if poll == [] then map[]
    else
      var (partition, records) := poll[|poll| - 1];
      var front := Offsets(poll[..|poll| - 1]);
      if records == [] then front else front[partition := records[|records| - 1].offset + 1]
  }

  predicate RecordsReadable(records: seq<Record>) {
    forall i | 0 <= i < |records| :: Readable(records[i].event)
  }

  predicate PollReadable(poll: Poll) {
    forall i | 0 <= i < |poll| :: RecordsReadable(poll[i].1)
  }

  lemma PendingAppend(events: seq<IndexEvent>, ev: IndexEvent)
    requires Readable(ev)
    ensures Pending(events + [ev]) == Pending(events)[ev.elementId := ev]
  {
    assert (events + [ev])[..|events|] == events;
  }

  /** The inner loop, over one partition's records. */
  method CollectRecords(before: map<string, IndexEvent>, records: seq<Record>, ghost earlier: seq<IndexEvent>)
    returns (r: Result<map<string, IndexEvent>, IndexingError>)
    requires before == Pending(earlier)
    ensures r.Success? <==> RecordsReadable(records)
    ensures r.Success? ==> r.value == Pending(earlier + Events(records))
    ensures r.Failure? ==> r.error == InvalidEvent
  {
    var pending := before;
    ghost var events := earlier;
    for i := 0 to |records|
      invariant events == earlier + Events(records)[..i] && pending == Pending(events)
      invariant forall k | 0 <= k < i :: Readable(records[k].event)
    {
      var ev := records[i].event;
      if ev.Unreadable? { return Failure(InvalidEvent); }
      PendingAppend(events, ev);
      pending := pending[ev.elementId := ev];
      events := events + [ev];
    }
    assert events == earlier + Events(records);
    return Success(pending);
  }

  lemma PollAppend(poll: Poll, i: nat)
    requires i < |poll|
    ensures AllEvents(poll[..i + 1]) == AllEvents(poll[..i]) + Events(poll[i].1)
    ensures Offsets(poll[..i + 1]) == if poll[i].1 == [] then Offsets(poll[..i])
      else Offsets(poll[..i])[poll[i].0 := poll[i].1[|poll[i].1| - 1].offset + 1]
  {
    assert poll[..i + 1][..i] == poll[..i];
  }

  datatype Collected = Collected(pending: map<string, IndexEvent>, offsets: map<Partition, nat>, count: nat)

  method Collect(poll: Poll) returns (r: Result<Collected, IndexingError>)
    ensures r.Success? <==> PollReadable(poll)
    ensures r.Success? ==> r.value == Collected(Pending(AllEvents(poll)), Offsets(poll), |AllEvents(poll)|)
    ensures r.Failure? ==> r.error == InvalidEvent
  {
    var collected := Collected(map[], map[], 0);
    for i := 0 to |poll|
      invariant collected == Collected(Pending(AllEvents(poll[..i])), Offsets(poll[..i]), |AllEvents(poll[..i])|)
      invariant forall k | 0 <= k < i :: RecordsReadable(poll[k].1)
    {
      var (partition, records) := poll[i];
      PollAppend(poll, i);
      var pending := CollectRecords(collected.pending, records, AllEvents(poll[..i]));
      if pending.Failure? { return Failure(pending.error); }
      collected := Collected(
        pending.value,
        if records == [] then collected.offsets else collected.offsets[partition := records[|records| - 1].offset + 1],
        collected.count + |records|);
    }
    assert poll[..|poll|] == poll;
    return Success(collected);
  }

  // ----- planning: everything that can raise happens before the first write -----

  datatype Plan = Plan(upserts: map<Slot, Document>, nodeDeletes: set<Slot>, edgeDeletes: set<string>)

  /** What one pending event contributes to the plan. */
  ghost predicate Planned(schema: Schema, plan: Plan, ev: IndexEvent)
    requires Readable(ev)
  {
    && Writable(schema, ev)
    && match ev
       case Upserted(id, _, _) =>
         && id !in plan.edgeDeletes
         && (forall c :: Slot(c, id) !in plan.nodeDeletes)
         && forall c :: At(plan.upserts, Slot(c, id)) == SlotAfter(schema, ev, c, None)
       case Deleted(id) =>
         && (forall c :: Slot(c, id) !in plan.upserts)
         && (id in plan.edgeDeletes <==> IsEdgeId(id))
         && forall c :: Slot(c, id) in plan.nodeDeletes <==> !IsEdgeId(id) && c in DeletedFrom(schema, id).value
  }

  ghost predicate NotPlanned(plan: Plan, id: string) {
    && id !in plan.edgeDeletes
    && forall c :: Slot(c, id) !in plan.upserts && Slot(c, id) !in plan.nodeDeletes
  }

  method PlanEvent(schema: Schema, plan: Plan, ev: IndexEvent) returns (r: Result<Plan, IndexingError>)
    requires Readable(ev) && NotPlanned(plan, ev.elementId)
    ensures r.Success? <==> Writable(schema, ev)
    ensures r.Failure? ==> r.error != WriterFailed && r.error != CommitFailed
    ensures r.Success? ==> Planned(schema, r.value, ev)
    ensures r.Success? ==> forall s: Slot | s.elementId != ev.elementId ::
      && At(r.value.upserts, s) == At(plan.upserts, s)
      && (s in r.value.nodeDeletes <==> s in plan.nodeDeletes)
      && (s.elementId in r.value.edgeDeletes <==> s.elementId in plan.edgeDeletes)
  {
    match ev {
      case Upserted(id, _, _) =>
        var converted := ToDocument(schema, ev);
        if converted.Failure? { return Failure(converted.error); }
        var (collection, document) := converted.value;
        return Success(plan.(upserts := plan.upserts[Slot(collection, id) := document]));
      case Deleted(id) =>
        if IsEdgeId(id) { return Success(plan.(edgeDeletes := plan.edgeDeletes + {id})); }
        var collections := DeletedFrom(schema, id);
        if collections.Failure? { return Failure(collections.error); }
        var slots := set c | c in collections.value :: Slot(c, id);
        return Success(plan.(nodeDeletes := plan.nodeDeletes + slots));
    }
  }

  method PlanWrites(schema: Schema, pending: map<string, IndexEvent>) returns (r: Result<Plan, IndexingError>)
    requires forall id | id in pending :: Readable(pending[id]) && pending[id].elementId == id
    ensures r.Success? <==> AllWritable(schema, pending)
    ensures r.Failure? ==> r.error != WriterFailed && r.error != CommitFailed
    ensures r.Success? ==> forall id | id in pending :: Planned(schema, r.value, pending[id])
    ensures r.Success? ==> forall id | id !in pending :: NotPlanned(r.value, id)
  {
    var plan := Plan(map[], {}, {});
    var todo := pending.Keys;
    while todo != {}
      invariant todo <= pending.Keys
      invariant forall id | id in pending && id !in todo :: Planned(schema, plan, pending[id])
      invariant forall id | id !in pending || id in todo :: NotPlanned(plan, id)
    {
      var id :| id in todo;
      todo := todo - {id};
      var next := PlanEvent(schema, plan, pending[id]);
      if next.Failure? { return Failure(next.error); }
      PlanOthersKept(schema, pending, plan, next.value, id, todo);
      plan := next.value;
    }
    return Success(plan);
  }

  lemma PlanOthersKept(
    schema: Schema, pending: map<string, IndexEvent>, plan: Plan, next: Plan, id: string, todo: set<string>)
    requires forall other | other in pending :: Readable(pending[other]) && pending[other].elementId == other
    requires forall other | other in pending && other !in todo && other != id :: Planned(schema, plan, pending[other])
    requires forall other | other !in pending || other in todo || other == id :: NotPlanned(plan, other)
    requires forall s: Slot | s.elementId != id ::
      && At(next.upserts, s) == At(plan.upserts, s)
      && (s in next.nodeDeletes <==> s in plan.nodeDeletes)
      && (s.elementId in next.edgeDeletes <==> s.elementId in plan.edgeDeletes)
    requires id !in todo
    ensures forall other | other in pending && other !in todo && other != id :: Planned(schema, next, pending[other])
    ensures forall other | (other !in pending || other in todo) && other != id :: NotPlanned(next, other)
  {
    forall other | other in pending && other !in todo && other != id ensures Planned(schema, next, pending[other]) {
      assert Planned(schema, plan, pending[other]);
      assert Slot("", other).elementId == other;
      assert forall c :: At(next.upserts, Slot(c, other)) == At(plan.upserts, Slot(c, other));
      assert forall c :: Slot(c, other) in next.nodeDeletes <==> Slot(c, other) in plan.nodeDeletes;
    }
    forall other | (other !in pending || other in todo) && other != id ensures NotPlanned(next, other) {
      assert NotPlanned(plan, other);
      assert Slot("", other).elementId == other;
      assert forall c :: At(next.upserts, Slot(c, other)) == At(plan.upserts, Slot(c, other));
      assert forall c :: Slot(c, other) in next.nodeDeletes <==> Slot(c, other) in plan.nodeDeletes;
    }
  }

  // ----- writing -----

  predicate IsDeleted(schema: Schema, plan: Plan, s: Slot) {
    s in plan.nodeDeletes || (s.elementId in plan.edgeDeletes && s.collection in CollectionNames(schema.edges))
  }

  /** What the plan leaves in a slot. */
  function PlanTarget(schema: Schema, plan: Plan, before: DocumentStore, s: Slot): Option<Document> {
    if s in plan.upserts then Some(plan.upserts[s])
    else if IsDeleted(schema, plan, s) then None
    else At(before, s)
  }

  /** A slot is written at most once in a plan. */
  ghost predicate Disjoint(schema: Schema, plan: Plan) {
    forall s | s in plan.upserts :: !IsDeleted(schema, plan, s)
  }

  /** Some planned slots may have been written, nothing else. */
  ghost predicate Underway(schema: Schema, plan: Plan, before: DocumentStore, after: DocumentStore) {
    forall s :: At(after, s) == At(before, s) || At(after, s) == PlanTarget(schema, plan, before, s)
  }

  function Collections(slots: set<Slot>): set<string> {
    set s | s in slots :: s.collection
  }

  function Batch(upserts: DocumentStore, collection: string): map<string, Document> {
    map s | s in upserts && s.collection == collection :: s.elementId := upserts[s]
  }

  method WriteUpserts(schema: Schema, plan: Plan, writer: Writer) returns (ok: bool)
    requires Disjoint(schema, plan)
    modifies writer
    ensures Underway(schema, plan, old(writer.documents), writer.documents)
    ensures ok ==> forall s | s in plan.upserts :: At(writer.documents, s) == Some(plan.upserts[s])
    ensures forall s | s !in plan.upserts :: At(writer.documents, s) == At(old(writer.documents), s)
  {
    var todo := Collections(plan.upserts.Keys);
    while todo != {}
      invariant forall s | s in plan.upserts && s.collection !in todo ::
        At(writer.documents, s) == Some(plan.upserts[s])
      invariant forall s | s in plan.upserts :: At(writer.documents, s) == At(old(writer.documents), s)
                                                || At(writer.documents, s) == Some(plan.upserts[s])
      invariant forall s | s !in plan.upserts :: At(writer.documents, s) == At(old(writer.documents), s)
    {
      var collection :| collection in todo;
      ok := writer.ReplaceMany(collection, Batch(plan.upserts, collection));
      if !ok { return; }
      todo := todo - {collection};
    }
    ok := true;
  }

  function Ids(slots: set<Slot>, collection: string): set<string> {
    set s | s in slots && s.collection == collection :: s.elementId
  }

  method WriteNodeDeletes(slots: set<Slot>, writer: Writer) returns (ok: bool)
    modifies writer
    ensures forall s ::
      At(writer.documents, s) == At(old(writer.documents), s) || (s in slots && At(writer.documents, s) == None)
    ensures ok ==> forall s | s in slots :: At(writer.documents, s) == None
  {
    var todo := Collections(slots);
    while todo != {}
      invariant forall s | s in slots && s.collection !in todo :: At(writer.documents, s) == None
      invariant forall s :: At(writer.documents, s) == At(old(writer.documents), s)
                            || (s in slots && At(writer.documents, s) == None)
    {
      var collection :| collection in todo;
      ok := writer.DeleteMany(collection, Ids(slots, collection));
      if !ok { return; }
      todo := todo - {collection};
    }
    ok := true;
  }

  /** The id alone does not say which edge collection holds an edge, so all of them are asked. */
  method WriteEdgeDeletes(schema: Schema, ids: set<string>, writer: Writer) returns (ok: bool)
    modifies writer
    ensures forall s :: At(writer.documents, s) == At(old(writer.documents), s)
                        || (s.elementId in ids && s.collection in CollectionNames(schema.edges)
                          && At(writer.documents, s) == None)
    ensures ok ==> forall s: Slot | s.elementId in ids && s.collection in CollectionNames(schema.edges) ::
      At(writer.documents, s) == None
  {
    if ids == {} { return true; }
    for i := 0 to |schema.edges|
      invariant forall s: Slot | s.elementId in ids && s.collection in CollectionNames(schema.edges[..i]) ::
          At(writer.documents, s) == None
      invariant forall s :: At(writer.documents, s) == At(old(writer.documents), s)
                            || (s.elementId in ids && s.collection in CollectionNames(schema.edges)
                              && At(writer.documents, s) == None)
    {
      var name := schema.edges[i].name;
      NamesAppend(schema.edges, i);
      ok := writer.DeleteMany(name, ids);
      if !ok { return; }
    }
    assert schema.edges[..|schema.edges|] == schema.edges;
    ok := true;
  }

  lemma NamesAppend(edges: seq<Collection>, i: nat)
    requires i < |edges|
    ensures CollectionNames(edges[..i + 1]) == CollectionNames(edges[..i]) + {edges[i].name}
    ensures edges[i].name in CollectionNames(edges)
  {
    assert edges[..i + 1] == edges[..i] + [edges[i]];
    assert edges[i] in edges && edges[i] in edges[..i + 1];
  }

  method WriteAll(schema: Schema, plan: Plan, writer: Writer) returns (ok: bool)
    requires Disjoint(schema, plan)
    modifies writer
    ensures Underway(schema, plan, old(writer.documents), writer.documents)
    ensures ok ==> forall s :: At(writer.documents, s) == PlanTarget(schema, plan, old(writer.documents), s)
  {
    ok := WriteUpserts(schema, plan, writer);
    if !ok { return; }
    ok := WriteNodeDeletes(plan.nodeDeletes, writer);
    if !ok { return; }
    ok := WriteEdgeDeletes(schema, plan.edgeDeletes, writer);
  }

  /** A complete plan writes exactly the pending events. */
  lemma PlanIsTarget(schema: Schema, pending: map<string, IndexEvent>, plan: Plan, before: DocumentStore, s: Slot)
    requires forall id | id in pending :: Readable(pending[id]) && pending[id].elementId == id
    requires AllWritable(schema, pending)
    requires forall id | id in pending :: Planned(schema, plan, pending[id])
    requires forall id | id !in pending :: NotPlanned(plan, id)
    ensures PlanTarget(schema, plan, before, s) == Target(schema, pending, before, s)
    ensures s in plan.upserts ==> !IsDeleted(schema, plan, s)
  {
    assert s == Slot(s.collection, s.elementId);
    if s.elementId in pending {
      assert Planned(schema, plan, pending[s.elementId]);
      assert At(plan.upserts, s).Some? <==> s in plan.upserts;
    } else {
      assert NotPlanned(plan, s.elementId);
    }
  }

  /** Why a poll failed: it could not be read or planned, or a write stopped. */
  ghost predicate Rejected(schema: Schema, poll: Poll) {
    !PollReadable(poll) || !AllWritable(schema, Pending(AllEvents(poll)))
  }

  /**
   One poll. A poll that cannot be planned changes nothing; a poll whose writes stop leaves each slot old
   or written and commits nothing; otherwise every slot is written and the offsets are committed, or some of
   them when the commit fails.
   */
  method ProjectPoll(poll: Poll, consumer: Consumer, writer: Writer, schema: Schema)
    returns (r: Result<nat, IndexingError>)
    modifies consumer, writer
    ensures Rejected(schema, poll) <==> r.Failure? && r.error != WriterFailed && r.error != CommitFailed
    ensures Rejected(schema, poll) ==>
      writer.documents == old(writer.documents) && consumer.committed == old(consumer.committed)
    ensures !Rejected(schema, poll) ==>
      PartlyWritten(schema, Pending(AllEvents(poll)), old(writer.documents), writer.documents)
    ensures r.Failure? && r.error != CommitFailed ==> consumer.committed == old(consumer.committed)
    ensures r == Failure(CommitFailed) ==>
      && FullyWritten(schema, Pending(AllEvents(poll)), old(writer.documents), writer.documents)
      && exists moved: set<Partition> :: consumer.committed == old(consumer.committed) + Part(Offsets(poll), moved)
    ensures r.Success? ==>
      && r.value == |AllEvents(poll)|
      && FullyWritten(schema, Pending(AllEvents(poll)), old(writer.documents), writer.documents)
      && consumer.committed == old(consumer.committed) + Offsets(poll)
  {
    var collected := Collect(poll);
    if collected.Failure? { return Failure(collected.error); }
    var pending := collected.value.pending;
    var plan := PlanWrites(schema, pending);
    if plan.Failure? { return Failure(plan.error); }
    ghost var before := writer.documents;
    forall s ensures PlanTarget(schema, plan.value, before, s) == Target(schema, pending, before, s)
      && (s in plan.value.upserts ==> !IsDeleted(schema, plan.value, s))
    {
      PlanIsTarget(schema, pending, plan.value, before, s);
    }
    var ok := WriteAll(schema, plan.value, writer);
    if !ok { return Failure(WriterFailed); }
    if collected.value.offsets != map[] {
      ok := consumer.Commit(collected.value.offsets);
      if !ok { return Failure(CommitFailed); }
    }
    return Success(collected.value.count);
  }
}

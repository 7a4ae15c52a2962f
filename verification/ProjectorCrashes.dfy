/** Any run of polls, some of them stopping in the middle of their writes, over partitioned logs. */
module ProjectorCrashes {
  import opened Wrappers
  import opened LifecyclePolicy
  import opened Documents
  import opened Projector
  import opened ProjectorReplay

  type Logs = map<Partition, seq<IndexEvent>>

  datatype Setup = Setup(schema: Schema, typeOf: map<string, string>, partitionOf: map<string, Partition>, logs: Logs) {
    /** Well-formed events, every element confined to one partition. */
    ghost predicate Valid() {
      forall p, ev | p in logs && ev in logs[p] ::
        && WellFormedEvent(schema, typeOf, ev)
        && ev.elementId in partitionOf && partitionOf[ev.elementId] == p
    }
  }

  /** `highest` is the end of the furthest records any poll has read, committed or not. */
  datatype World = World(store: DocumentStore, committed: map<Partition, nat>, highest: map<Partition, nat>)

  function Start(logs: Logs): World {
    World(map[], map p | p in logs :: 0, map p | p in logs :: 0)
  }

  /**
   A poll of some records of some partitions, the store it left behind, whether all its writes were done, and
   the partitions whose offsets moved: all of them, or fewer when the commit failed.
   */
  datatype Attempt = Attempt(
    counts: map<Partition, nat>, poll: Poll, after: DocumentStore, written: bool, moved: set<Partition>)

  function Slice(setup: Setup, w: World, counts: map<Partition, nat>, p: Partition): seq<IndexEvent>
    requires p in setup.logs && p in w.committed && p in counts && w.committed[p] + counts[p] <= |setup.logs[p]|
  {
    setup.logs[p][w.committed[p]..w.committed[p] + counts[p]]
  }

  /** The records fetched from a partition, starting at its committed offset. */
  function Fetched(setup: Setup, w: World, counts: map<Partition, nat>, p: Partition): seq<Record>
    requires p in setup.logs && p in w.committed && p in counts && w.committed[p] + counts[p] <= |setup.logs[p]|
  {
    seq(counts[p], i requires 0 <= i < counts[p] => Record(w.committed[p] + i, setup.logs[p][w.committed[p] + i]))
  }

  predicate Fetchable(setup: Setup, w: World, counts: map<Partition, nat>) {
    forall p | p in counts :: p in setup.logs && p in w.committed && w.committed[p] + counts[p] <= |setup.logs[p]|
  }

  function Slices(setup: Setup, w: World, counts: map<Partition, nat>): map<Partition, seq<Record>>
    requires Fetchable(setup, w, counts)
  {
    map p | p in counts :: Fetched(setup, w, counts, p)
  }

  /** The outcomes `ProjectPoll` allows for a poll of well-formed records. */
  ghost predicate Possible(setup: Setup, w: World, a: Attempt) {
    && Fetchable(setup, w, a.counts)
    && Reads(a.poll, Slices(setup, w, a.counts))
    && AllWritable(setup.schema, Pending(AllEvents(a.poll)))
    && (a.moved != {} ==> a.written)
    && if a.written then FullyWritten(setup.schema, Pending(AllEvents(a.poll)), w.store, a.after)
       else PartlyWritten(setup.schema, Pending(AllEvents(a.poll)), w.store, a.after)
  }

  function Highest(w: World, a: Attempt): map<Partition, nat> {
    map p | p in w.highest :: if p in a.counts && p in w.committed && w.committed[p] + a.counts[p] > w.highest[p]
                              then w.committed[p] + a.counts[p] else w.highest[p]
  }

  function Moved(a: Attempt): map<Partition, nat> {
    Part(Offsets(a.poll), a.moved)
  }

  function Next(w: World, a: Attempt): World {
    World(a.after, w.committed + Moved(a), Highest(w, a))
  }

  // ----- invariant -----

  ghost predicate Positions(setup: Setup, w: World) {
    && w.committed.Keys == w.highest.Keys == setup.logs.Keys
    && forall p | p in setup.logs :: w.committed[p] <= w.highest[p] <= |setup.logs[p]|
  }

  lemma SliceWellFormed(setup: Setup, p: Partition, i: nat, j: nat)
    requires setup.Valid() && p in setup.logs && i <= j <= |setup.logs[p]|
    ensures AllWellFormed(setup.schema, setup.typeOf, setup.logs[p][i..j])
  {
  }

  /** What a slot holds after a prefix of its partition's log. */
  ghost function ValueAfter(setup: Setup, p: Partition, k: nat, s: Slot): Option<Document>
    requires setup.Valid() && p in setup.logs && k <= |setup.logs[p]|
  {
    SliceWellFormed(setup, p, 0, k);
    ReplayAt(setup.schema, setup.logs[p][0..k], s, None)
  }

  ghost predicate ValueOfPrefix(setup: Setup, w: World, p: Partition, k: nat, s: Slot)
    requires setup.Valid() && Positions(setup, w) && p in setup.logs
  {
    w.committed[p] <= k <= w.highest[p] && At(w.store, s) == ValueAfter(setup, p, k, s)
  }

  ghost predicate SlotOk(setup: Setup, w: World, s: Slot)
    requires setup.Valid() && Positions(setup, w)
  {
    if s.elementId in setup.partitionOf && setup.partitionOf[s.elementId] in setup.logs
    then exists k: nat :: ValueOfPrefix(setup, w, setup.partitionOf[s.elementId], k, s)
    else At(w.store, s) == None
  }

  ghost predicate Invariant(setup: Setup, w: World) {
    setup.Valid() && Positions(setup, w) && forall s :: SlotOk(setup, w, s)
  }

  // ----- one attempt -----

  lemma ValueSettled(setup: Setup, p: Partition, k: nat, s: Slot)
    requires setup.Valid() && p in setup.logs && k <= |setup.logs[p]|
    ensures Settled(setup.schema, setup.typeOf, s, ValueAfter(setup, p, k, s))
  {
    SliceWellFormed(setup, p, 0, k);
    ReplaySettled(setup.schema, setup.typeOf, setup.logs[p][0..k], s, None);
  }

  lemma ValueExtends(setup: Setup, p: Partition, k: nat, j: nat, s: Slot)
    requires setup.Valid() && p in setup.logs && k <= j <= |setup.logs[p]|
    ensures AllWellFormed(setup.schema, setup.typeOf, setup.logs[p][k..j])
    ensures ValueAfter(setup, p, j, s) == ReplayAt(setup.schema, setup.logs[p][k..j], s, ValueAfter(setup, p, k, s))
  {
    SliceWellFormed(setup, p, k, j);
    SliceWellFormed(setup, p, 0, j);
    SliceWellFormed(setup, p, 0, k);
    assert setup.logs[p][0..j] == setup.logs[p][0..k] + setup.logs[p][k..j];
    ReplaySplit(setup.schema, setup.logs[p][0..k], setup.logs[p][k..j], s, None);
  }

  /** Writing a slice over any earlier prefix value gives the value after the slice, if it mentions the element. */
  lemma SliceWritesItsEnd(setup: Setup, p: Partition, c: nat, j: nat, k: nat, s: Slot)
    requires setup.Valid() && p in setup.logs && c <= j <= |setup.logs[p]| && k <= |setup.logs[p]|
    requires Mentions(setup.logs[p][c..j], s.elementId)
    ensures AllWellFormed(setup.schema, setup.typeOf, setup.logs[p][c..j])
    ensures ReplayAt(setup.schema, setup.logs[p][c..j], s, ValueAfter(setup, p, k, s)) == ValueAfter(setup, p, j, s)
  {
    ValueExtends(setup, p, c, j, s);
    ValueSettled(setup, p, c, s);
    ValueSettled(setup, p, k, s);
    ReplayForgets(
      setup.schema, setup.typeOf, setup.logs[p][c..j], s, ValueAfter(setup, p, k, s), ValueAfter(setup, p, c, s));
  }

  /** A slice that does not mention the element leaves its value as after any prefix inside the slice. */
  lemma QuietSlice(setup: Setup, p: Partition, c: nat, j: nat, k: nat, s: Slot)
    requires setup.Valid() && p in setup.logs && c <= k <= j <= |setup.logs[p]|
    requires !Mentions(setup.logs[p][c..j], s.elementId)
    ensures ValueAfter(setup, p, k, s) == ValueAfter(setup, p, j, s)
  {
    ValueExtends(setup, p, k, j, s);
    forall ev | ev in setup.logs[p][k..j] ensures ev.elementId != s.elementId {
      var i :| k <= i < j && setup.logs[p][i] == ev;
      assert setup.logs[p][c..j][i - c] == ev;
    }
    ReplayQuiet(setup.schema, setup.logs[p][k..j], s, ValueAfter(setup, p, k, s));
  }

  lemma SlicesConfined(setup: Setup, w: World, counts: map<Partition, nat>)
    requires setup.Valid() && Fetchable(setup, w, counts)
    ensures Confined(Slices(setup, w, counts), setup.partitionOf)
  {
    var slices: map<Partition, seq<Record>> := Slices(setup, w, counts);
    forall p, i | p in slices && 0 <= i < |slices[p]| && Readable(slices[p][i].event)
      ensures slices[p][i].event.elementId in setup.partitionOf && setup.partitionOf[slices[p][i].event.elementId] == p
    {
      assert slices[p][i].event in setup.logs[p];
    }
  }

  lemma FetchedEvents(setup: Setup, w: World, counts: map<Partition, nat>, p: Partition)
    requires Fetchable(setup, w, counts) && p in counts
    ensures Events(Slices(setup, w, counts)[p]) == Slice(setup, w, counts, p)
  {
  }

  /** What is pending for an element is what its own partition's slice has pending. */
  lemma PendingOfSlice(setup: Setup, w: World, a: Attempt, id: string, p: Partition)
    requires setup.Valid() && Positions(setup, w) && Possible(setup, w, a)
    requires id in setup.partitionOf && setup.partitionOf[id] == p && p in setup.logs
    ensures Get(Pending(AllEvents(a.poll)), id) ==
      if p in a.counts then Get(Pending(Slice(setup, w, a.counts, p)), id) else None
  {
    SlicesConfined(setup, w, a.counts);
    PendingOfPoll(a.poll, Slices(setup, w, a.counts), setup.partitionOf, id);
    if p in a.counts { FetchedEvents(setup, w, a.counts, p); }
  }

  /** What a poll aims at for one slot, in terms of its own partition's slice. */
  lemma AttemptTarget(setup: Setup, w: World, a: Attempt, s: Slot, p: Partition)
    requires setup.Valid() && Positions(setup, w) && Possible(setup, w, a)
    requires s.elementId in setup.partitionOf && setup.partitionOf[s.elementId] == p && p in setup.logs
    requires Settled(setup.schema, setup.typeOf, s, At(w.store, s))
    ensures p in a.counts ==> AllWellFormed(setup.schema, setup.typeOf, Slice(setup, w, a.counts, p))
    ensures Target(setup.schema, Pending(AllEvents(a.poll)), w.store, s) ==
      if p in a.counts then ReplayAt(setup.schema, Slice(setup, w, a.counts, p), s, At(w.store, s)) else At(w.store, s)
  {
    PendingOfSlice(setup, w, a, s.elementId, p);
    if p in a.counts {
      SliceWellFormed(setup, p, w.committed[p], w.committed[p] + a.counts[p]);
      BatchIsReplay(setup.schema, setup.typeOf, Slice(setup, w, a.counts, p), w.store, s);
    }
  }

  lemma ForeignTarget(setup: Setup, w: World, a: Attempt, s: Slot)
    requires setup.Valid() && Positions(setup, w) && Possible(setup, w, a)
    requires !(s.elementId in setup.partitionOf && setup.partitionOf[s.elementId] in setup.logs)
    ensures Target(setup.schema, Pending(AllEvents(a.poll)), w.store, s) == At(w.store, s)
  {
    SlicesConfined(setup, w, a.counts);
    PendingOfPoll(a.poll, Slices(setup, w, a.counts), setup.partitionOf, s.elementId);
  }

  lemma OffsetsAfter(setup: Setup, w: World, a: Attempt, p: Partition)
    requires Possible(setup, w, a)
    ensures p in Offsets(a.poll) <==> p in a.counts && a.counts[p] > 0
    ensures p in Offsets(a.poll) ==> Offsets(a.poll)[p] == w.committed[p] + a.counts[p]
  {
    OffsetsOfPoll(a.poll, Slices(setup, w, a.counts));
    if p in a.counts {
      assert p in Slices(setup, w, a.counts);
      var i :| 0 <= i < |a.poll| && a.poll[i].0 == p;
    }
  }

  lemma OffsetsKeys(setup: Setup, w: World, a: Attempt)
    requires Possible(setup, w, a)
    ensures Offsets(a.poll).Keys <= a.counts.Keys && a.counts.Keys <= setup.logs.Keys
  {
    OffsetsOfPoll(a.poll, Slices(setup, w, a.counts));
    forall p | p in Offsets(a.poll) ensures p in a.counts {
      assert p in Slices(setup, w, a.counts);
    }
    forall p | p in a.counts.Keys ensures p in setup.logs.Keys { assert p in a.counts; }
  }

  lemma CommittedAfter(setup: Setup, w: World, a: Attempt)
    requires Positions(setup, w) && Possible(setup, w, a)
    ensures Next(w, a).committed.Keys == setup.logs.Keys
    ensures forall p | p in setup.logs ::
      Next(w, a).committed[p] == if p in a.moved && p in a.counts then w.committed[p] + a.counts[p] else w.committed[p]
  {
    OffsetsKeys(setup, w, a);
    assert Moved(a).Keys <= Offsets(a.poll).Keys;
    assert (w.committed + Moved(a)).Keys == w.committed.Keys + Moved(a).Keys;
    forall p | p in setup.logs ensures Next(w, a).committed[p] ==
      if p in a.moved && p in a.counts then w.committed[p] + a.counts[p] else w.committed[p]
    {
      OffsetsAfter(setup, w, a, p);
    }
  }

  /** Where the committed offset and the high mark of a partition stand after an attempt. */
  lemma PositionsAfter(setup: Setup, w: World, a: Attempt)
    requires Positions(setup, w) && Possible(setup, w, a)
    ensures Positions(setup, Next(w, a))
    ensures forall p | p in setup.logs ::
      Next(w, a).committed[p] == if p in a.moved && p in a.counts then w.committed[p] + a.counts[p] else w.committed[p]
    ensures forall p | p in setup.logs ::
      Next(w, a).highest[p] >= if p in a.counts then Max(w.highest[p], w.committed[p] + a.counts[p]) else w.highest[p]
  {
    CommittedAfter(setup, w, a);
  }

  /** The partition moved from `c` to `end`, and the commit, if any, went there. */
  ghost predicate Advanced(w: World, after: World, p: Partition, end: nat)
    requires p in w.committed && p in w.highest && p in after.committed && p in after.highest
  {
    && w.committed[p] <= end <= after.highest[p] && w.highest[p] <= after.highest[p]
    && (after.committed[p] == end || after.committed[p] == w.committed[p])
  }

  /** A slot whose element is not in the records read keeps the value of some prefix. */
  lemma UntouchedSlot(setup: Setup, w: World, after: World, s: Slot, p: Partition, k: nat, end: nat)
    requires setup.Valid() && Positions(setup, w) && Positions(setup, after) && p in setup.logs
    requires Advanced(w, after, p, end) && end <= |setup.logs[p]|
    requires ValueOfPrefix(setup, w, p, k, s) && At(after.store, s) == At(w.store, s)
    requires !Mentions(setup.logs[p][w.committed[p]..end], s.elementId)
    ensures exists j: nat :: ValueOfPrefix(setup, after, p, j, s)
  {
    if k < end {
      QuietSlice(setup, p, w.committed[p], end, k, s);
      assert ValueOfPrefix(setup, after, p, end, s);
    } else {
      assert ValueOfPrefix(setup, after, p, k, s);
    }
  }

  /** A slot whose element is in the records read: as before if nothing was committed, or the value at their end. */
  lemma MentionedSlot(setup: Setup, w: World, after: World, s: Slot, p: Partition, k: nat, end: nat)
    requires setup.Valid() && Positions(setup, w) && Positions(setup, after) && p in setup.logs
    requires Advanced(w, after, p, end) && end <= |setup.logs[p]|
    requires ValueOfPrefix(setup, w, p, k, s)
    requires At(after.store, s) == ValueAfter(setup, p, end, s)
      || (after.committed[p] == w.committed[p] && At(after.store, s) == At(w.store, s))
    ensures exists j: nat :: ValueOfPrefix(setup, after, p, j, s)
  {
    assert ValueOfPrefix(setup, after, p, if At(after.store, s) == ValueAfter(setup, p, end, s) then end else k, s);
  }

  lemma AttemptedSlot(setup: Setup, w: World, a: Attempt, s: Slot)
    requires Possible(setup, w, a)
    ensures At(a.after, s) == Target(setup.schema, Pending(AllEvents(a.poll)), w.store, s)
      || (!a.written && At(a.after, s) == At(w.store, s))
  {
  }

  function End(w: World, a: Attempt, p: Partition): nat
    requires p in w.committed
  {
    w.committed[p] + if p in a.counts then a.counts[p] else 0
  }

  lemma PartitionAdvances(setup: Setup, w: World, a: Attempt, p: Partition)
    requires Positions(setup, w) && Possible(setup, w, a) && p in setup.logs
    ensures Positions(setup, Next(w, a)) && Advanced(w, Next(w, a), p, End(w, a, p)) && End(w, a, p) <= |setup.logs[p]|
    ensures !a.written ==> Next(w, a).committed[p] == w.committed[p]
  {
    PositionsAfter(setup, w, a);
  }

  lemma SliceReplay(setup: Setup, w: World, a: Attempt, s: Slot, p: Partition, k: nat)
    requires setup.Valid() && Positions(setup, w) && Possible(setup, w, a) && p in setup.logs && p in a.counts
    requires ValueOfPrefix(setup, w, p, k, s) && Mentions(Slice(setup, w, a.counts, p), s.elementId)
    ensures AllWellFormed(setup.schema, setup.typeOf, Slice(setup, w, a.counts, p))
    ensures ReplayAt(setup.schema, Slice(setup, w, a.counts, p), s, At(w.store, s))
      == ValueAfter(setup, p, End(w, a, p), s)
  {
    SliceWritesItsEnd(setup, p, w.committed[p], End(w, a, p), k, s);
  }

  /** The records read decide the slots of the elements they mention. */
  lemma MentionedTarget(setup: Setup, w: World, a: Attempt, s: Slot, p: Partition, k: nat)
    requires setup.Valid() && Positions(setup, w) && Possible(setup, w, a)
    requires s.elementId in setup.partitionOf && setup.partitionOf[s.elementId] == p && p in setup.logs && p in a.counts
    requires ValueOfPrefix(setup, w, p, k, s) && Mentions(Slice(setup, w, a.counts, p), s.elementId)
    ensures Target(setup.schema, Pending(AllEvents(a.poll)), w.store, s) == ValueAfter(setup, p, End(w, a, p), s)
  {
    SliceReplay(setup, w, a, s, p, k);
    ValueSettled(setup, p, k, s);
    AttemptTarget(setup, w, a, s, p);
  }

  /** What an attempt does to a slot whose element is not in the records read: nothing. */
  lemma QuietOutcome(setup: Setup, w: World, a: Attempt, s: Slot, p: Partition, k: nat)
    requires setup.Valid() && Positions(setup, w) && Possible(setup, w, a)
    requires s.elementId in setup.partitionOf && setup.partitionOf[s.elementId] == p && p in setup.logs
    requires ValueOfPrefix(setup, w, p, k, s)
    requires p in a.counts ==> !Mentions(Slice(setup, w, a.counts, p), s.elementId)
    ensures At(a.after, s) == At(w.store, s)
  {
    ValueSettled(setup, p, k, s);
    AttemptTarget(setup, w, a, s, p);
    AttemptedSlot(setup, w, a, s);
    if p in a.counts { ReplayQuiet(setup.schema, Slice(setup, w, a.counts, p), s, At(w.store, s)); }
  }

  lemma MentionedAfterAttempt(setup: Setup, w: World, a: Attempt, s: Slot, p: Partition, k: nat)
    requires setup.Valid() && Positions(setup, w) && Possible(setup, w, a)
    requires s.elementId in setup.partitionOf && setup.partitionOf[s.elementId] == p && p in setup.logs && p in a.counts
    requires ValueOfPrefix(setup, w, p, k, s) && Mentions(Slice(setup, w, a.counts, p), s.elementId)
    ensures Positions(setup, Next(w, a)) && exists j: nat :: ValueOfPrefix(setup, Next(w, a), p, j, s)
  {
    MentionedTarget(setup, w, a, s, p, k);
    AttemptedSlot(setup, w, a, s);
    PartitionAdvances(setup, w, a, p);
    MentionedSlot(setup, w, Next(w, a), s, p, k, End(w, a, p));
  }

  lemma QuietAfterAttempt(setup: Setup, w: World, a: Attempt, s: Slot, p: Partition, k: nat)
    requires setup.Valid() && Positions(setup, w) && Possible(setup, w, a)
    requires s.elementId in setup.partitionOf && setup.partitionOf[s.elementId] == p && p in setup.logs
    requires ValueOfPrefix(setup, w, p, k, s)
    requires p in a.counts ==> !Mentions(Slice(setup, w, a.counts, p), s.elementId)
    ensures Positions(setup, Next(w, a)) && exists j: nat :: ValueOfPrefix(setup, Next(w, a), p, j, s)
  {
    QuietOutcome(setup, w, a, s, p, k);
    PartitionAdvances(setup, w, a, p);
    assert p !in a.counts ==> setup.logs[p][w.committed[p]..End(w, a, p)] == [];
    UntouchedSlot(setup, w, Next(w, a), s, p, k, End(w, a, p));
  }

  lemma AttemptKeepsInvariant(setup: Setup, w: World, a: Attempt)
    requires Invariant(setup, w) && Possible(setup, w, a)
    ensures Invariant(setup, Next(w, a))
  {
    PositionsAfter(setup, w, a);
    forall s ensures SlotOk(setup, Next(w, a), s) {
      assert SlotOk(setup, w, s);
      if s.elementId in setup.partitionOf && setup.partitionOf[s.elementId] in setup.logs {
        var p := setup.partitionOf[s.elementId];
        var k: nat :| ValueOfPrefix(setup, w, p, k, s);
        if p in a.counts && Mentions(Slice(setup, w, a.counts, p), s.elementId) {
          MentionedAfterAttempt(setup, w, a, s, p, k);
        } else {
          QuietAfterAttempt(setup, w, a, s, p, k);
        }
      } else {
        ForeignTarget(setup, w, a, s);
      }
    }
  }

  // ----- no well-formed poll is rejected -----

  lemma {:induction false} EventsOfPoll(poll: Poll, ev: IndexEvent)
    requires ev in AllEvents(poll)
    ensures exists i :: 0 <= i < |poll| && ev in Events(poll[i].1)
  {
    var front := poll[..|poll| - 1];
    if ev in AllEvents(front) {
      EventsOfPoll(front, ev);
      var i :| 0 <= i < |front| && ev in Events(front[i].1);
      assert ev in Events(poll[i].1);
    }
  }

  lemma FetchedWellFormed(setup: Setup, w: World, counts: map<Partition, nat>, p: Partition, ev: IndexEvent)
    requires setup.Valid() && Fetchable(setup, w, counts) && p in counts
    requires ev in Events(Fetched(setup, w, counts, p))
    ensures WellFormedEvent(setup.schema, setup.typeOf, ev)
  {
    assert ev in setup.logs[p];
  }

  /** `ProjectPoll` neither rejects nor crashes on what the logs hold: only its writes can fail. */
  lemma FetchedPollIsAccepted(setup: Setup, w: World, counts: map<Partition, nat>, poll: Poll)
    requires setup.Valid() && Fetchable(setup, w, counts) && Reads(poll, Slices(setup, w, counts))
    ensures !Rejected(setup.schema, poll)
  {
    forall ev | ev in AllEvents(poll) ensures Writable(setup.schema, ev) {
      EventsOfPoll(poll, ev);
      var i :| 0 <= i < |poll| && ev in Events(poll[i].1);
      FetchedWellFormed(setup, w, counts, poll[i].0, ev);
    }
    PendingWritable(setup.schema, AllEvents(poll));
    forall i, k | 0 <= i < |poll| && 0 <= k < |poll[i].1| ensures Readable(poll[i].1[k].event) {
      assert Events(poll[i].1)[k] == poll[i].1[k].event;
      FetchedWellFormed(setup, w, counts, poll[i].0, poll[i].1[k].event);
    }
  }

  // ----- runs -----

  function Run(setup: Setup, attempts: seq<Attempt>): World {
    if attempts == [] then Start(setup.logs)
    else Next(Run(setup, attempts[..|attempts| - 1]), attempts[|attempts| - 1])
  }

  ghost predicate Allowed(setup: Setup, attempts: seq<Attempt>) {
    forall i | 0 <= i < |attempts| :: Possible(setup, Run(setup, attempts[..i]), attempts[i])
  }

  lemma StartInvariant(setup: Setup)
    requires setup.Valid()
    ensures Invariant(setup, Start(setup.logs))
  {
    var w := Start(setup.logs);
    forall s ensures SlotOk(setup, w, s) {
      if s.elementId in setup.partitionOf && setup.partitionOf[s.elementId] in setup.logs {
        assert ValueOfPrefix(setup, w, setup.partitionOf[s.elementId], 0, s);
      }
    }
  }

  lemma {:induction false} RunKeepsInvariant(setup: Setup, attempts: seq<Attempt>)
    requires setup.Valid() && Allowed(setup, attempts)
    ensures Invariant(setup, Run(setup, attempts))
  {
    if attempts == [] {
      StartInvariant(setup);
    } else {
      var front := attempts[..|attempts| - 1];
      forall i | 0 <= i < |front| ensures Possible(setup, Run(setup, front[..i]), front[i]) {
        assert front[..i] == attempts[..i];
      }
      RunKeepsInvariant(setup, front);
      AttemptKeepsInvariant(setup, Run(setup, front), attempts[|attempts| - 1]);
    }
  }

  /** Off its element's home a slot is empty, in the store and after every prefix. */
  lemma OffHome(setup: Setup, w: World, p: Partition, k: nat, s: Slot)
    requires Invariant(setup, w) && p in setup.logs && w.committed[p] <= k <= w.highest[p]
    requires s.elementId in setup.partitionOf && setup.partitionOf[s.elementId] == p
    requires Home(setup.schema, setup.typeOf, s.elementId) != Some(s.collection)
    ensures ValueOfPrefix(setup, w, p, k, s)
  {
    assert SlotOk(setup, w, s);
    var other: nat :| ValueOfPrefix(setup, w, p, other, s);
    ValueSettled(setup, p, other, s);
    ValueSettled(setup, p, k, s);
  }

  /** All of an element's slots hold their values after one prefix of its log. */
  ghost predicate ElementOfPrefix(setup: Setup, w: World, p: Partition, k: nat, id: string)
    requires setup.Valid() && Positions(setup, w) && p in setup.logs
  {
    w.committed[p] <= k <= w.highest[p] && forall collection :: ValueOfPrefix(setup, w, p, k, Slot(collection, id))
  }

  /** The prefix of the home slot is that of every slot. */
  lemma HomeDecides(setup: Setup, w: World, p: Partition, k: nat, id: string)
    requires Invariant(setup, w) && p in setup.logs && w.committed[p] <= k <= w.highest[p]
    requires id in setup.partitionOf && setup.partitionOf[id] == p
    requires var home := Home(setup.schema, setup.typeOf, id);
      home.Some? ==> ValueOfPrefix(setup, w, p, k, Slot(home.value, id))
    ensures ElementOfPrefix(setup, w, p, k, id)
  {
    forall collection ensures ValueOfPrefix(setup, w, p, k, Slot(collection, id)) {
      if Home(setup.schema, setup.typeOf, id) != Some(collection) { OffHome(setup, w, p, k, Slot(collection, id)); }
    }
  }

  lemma OwnSlot(setup: Setup, w: World, s: Slot, p: Partition) returns (k: nat)
    requires Invariant(setup, w) && p in setup.logs
    requires s.elementId in setup.partitionOf && setup.partitionOf[s.elementId] == p
    ensures ValueOfPrefix(setup, w, p, k, s)
  {
    assert SlotOk(setup, w, s);
    k :| ValueOfPrefix(setup, w, p, k, s);
  }

  lemma OnePrefixPerElement(setup: Setup, w: World, p: Partition, id: string) returns (k: nat)
    requires Invariant(setup, w) && p in setup.logs
    requires id in setup.partitionOf && setup.partitionOf[id] == p
    ensures ElementOfPrefix(setup, w, p, k, id)
  {
    var home := Home(setup.schema, setup.typeOf, id);
    k := OwnSlot(setup, w, Slot(if home.Some? then home.value else "", id), p);
    HomeDecides(setup, w, p, k, id);
  }

  lemma PrefixAfterRun(setup: Setup, attempts: seq<Attempt>, id: string, p: Partition) returns (k: nat)
    requires setup.Valid() && Allowed(setup, attempts)
    requires id in setup.partitionOf && setup.partitionOf[id] == p && p in setup.logs
    ensures Positions(setup, Run(setup, attempts)) && ElementOfPrefix(setup, Run(setup, attempts), p, k, id)
  {
    RunKeepsInvariant(setup, attempts);
    k := OnePrefixPerElement(setup, Run(setup, attempts), p, id);
  }

  lemma KnownPrefix(setup: Setup, w: World, p: Partition, k: nat, id: string)
    requires setup.Valid() && Positions(setup, w) && p in setup.logs && ElementOfPrefix(setup, w, p, k, id)
    ensures exists k: nat :: ElementOfPrefix(setup, w, p, k, id)
    ensures w.committed[p] == w.highest[p] ==> ElementOfPrefix(setup, w, p, w.committed[p], id)
  {
    if w.committed[p] == w.highest[p] { assert k == w.committed[p]; }
  }

  /**
   Crash safety: after any run, each element is stored as after one prefix of its partition's log between the
   committed offset and the furthest record read; once those meet, it is stored as after everything committed.
   */
  lemma CrashSafe(setup: Setup, attempts: seq<Attempt>, id: string, p: Partition)
    requires setup.Valid() && Allowed(setup, attempts)
    requires id in setup.partitionOf && setup.partitionOf[id] == p && p in setup.logs
    ensures Positions(setup, Run(setup, attempts))
    ensures exists k: nat :: ElementOfPrefix(setup, Run(setup, attempts), p, k, id)
    ensures var w := Run(setup, attempts);
      w.committed[p] == w.highest[p] ==> ElementOfPrefix(setup, w, p, w.committed[p], id)
  {
    var k := PrefixAfterRun(setup, attempts, id, p);
    KnownPrefix(setup, Run(setup, attempts), p, k, id);
  }

  /** Nothing is stored for an element that no log mentions. */
  lemma NothingInvented(setup: Setup, attempts: seq<Attempt>, s: Slot)
    requires setup.Valid() && Allowed(setup, attempts)
    requires forall p | p in setup.logs :: !Mentions(setup.logs[p], s.elementId)
    ensures At(Run(setup, attempts).store, s) == None
  {
    RunKeepsInvariant(setup, attempts);
    UnmentionedSlot(setup, Run(setup, attempts), s);
  }

  lemma UnmentionedSlot(setup: Setup, w: World, s: Slot)
    requires Invariant(setup, w)
    requires forall p | p in setup.logs :: !Mentions(setup.logs[p], s.elementId)
    ensures At(w.store, s) == None
  {
    assert SlotOk(setup, w, s);
    if s.elementId in setup.partitionOf && setup.partitionOf[s.elementId] in setup.logs {
      var p := setup.partitionOf[s.elementId];
      var k: nat :| ValueOfPrefix(setup, w, p, k, s);
      SliceWellFormed(setup, p, 0, k);
      assert forall ev | ev in setup.logs[p][0..k] :: ev in setup.logs[p];
      ReplayQuiet(setup.schema, setup.logs[p][0..k], s, None);
    }
  }
}

# Verified model of the live service graph

The repository turns OpenTelemetry observations into a live graph of nodes and edges, keeps that graph
alive with per-contributor lifetimes, and stores it. This project models the stateful core of that
pipeline in Dafny and proves what it keeps over whole runs.

`dafny verify dfyconfig.toml` checks everything.

## What is modelled

1. **Lifecycle operator** (`GraphLifecycle`, `AttributeWinners`, `Timers`, `OperatorSteps`,
   `ElementLifecycle`, `LifecycleRuns`, `LifecycleBounds`, `LifecycleLifetimes`, `LifecycleReplay`). One
   graph element has a map of contributors, each with its newest observation and two deadlines.
   `GraphLifecycle` is the reference: recompute the merge on every report and expiry. The class
   `LifecycleFunction` is the fast operator with its five state cells and two timers; refreshes update an
   owner index incrementally and never rescan. It is proved to be the reference in every run, to
   reconstruct its state from its events, never to fire later than the coalesced deadline, never to forget
   a report before its lifetime on either clock, and to drain in a bounded number of callbacks.
2. **Contribution coalescer** (`CoalescerSteps`, `Coalescer`, `CoalescerRuns`). The class has the five
   cells and one timer of the source; the runs carry the delivery and spacing bounds.
3. **Both together** (`Pipeline`, `PipelineRuns`). The coalescers of all contributors of an element feed
   its lifecycle operator on one processing clock: coalescing never causes early expiry exactly when the
   interval is shorter than the lifetime.
4. **The whole graph** (`GraphClosure`). Fed with complete datapoints, no edge outlives its endpoints.
5. **Identity and extraction** (`Identity`, `IdentityDecoding`, `Extraction`). Ids can be read back; one
   datapoint expands into a closed, order-independent set of elements.
6. **Projector** (`Documents`, `Projector`, `StoredDocuments`, `ProjectorReplay`, `ProjectorCrashes`).
   Batched polls against a store whose writes may stop anywhere equal one-by-one replay and survive
   crashes.
7. **Topology initializer** (`Topology`, `TopologyRuns`, `Initializer`, `TopologyResult`). Additive,
   resumable, and idempotent under an exact condition.

`Text`, `Extremum`, `Wrappers`, `Model` and `LifecyclePolicy` hold the shared vocabulary. Methods are the
source's loops and state changes; each is tied by its postcondition to a function on values, and the main
results are about those functions over runs. Loops over maps and sets pick elements in an arbitrary
order, so what they compute is independent of iteration order.

## Assumptions

- The processing clock and the watermark do not run backwards where a result speaks of several steps.
  Only registered timers fire. In `Pipeline` the processing-time timers fire in timestamp order, and
  event-time timers may fire at any point.
- The composition of coalescer and lifecycle is about the processing clock. Under fast replay of a
  backlog event time can outrun the coalescing interval, and nothing is claimed for it.
- `PipelineRuns` and `GraphClosure` need a contributor's observation times not to go backwards; this is
  part of `NotBackwards` and `Enabled` there. `LifecycleRuns` accepts reports in any order.
- Output rate and order of the coalescer are claimed between cleanups (`session` counts them). The runs
  describe a positive interval; at interval zero the operator passes every report through.
- `lateness` in `CoalescerRuns` bounds how overdue a pending refresh may be when its callback, or the next
  report, comes; with timers on time it is zero. Delivery and spacing are stated for the moments at which
  outputs are sent, so the bound enters both.
- Rounding up to whole seconds holds for nonnegative deadlines. Every report at a nonnegative clock
  produces them, and `LifecycleRuns.RunKeepsInvariant` keeps them.
- That a drained element is deleted needs a deadline on each contributor, which every report sets;
  `LifecycleBounds.RunKeepsExpirable` carries it over runs.
- The projector needs well-formed events: a node's type is its id prefix, an edge id starts with `edge:`
  and fixes the edge's type, and an element stays in one partition.
- SHA-256 is taken as injective: a hash keeps its preimage, a document key is its element id, and an edge
  id holds an injective text of source, type and target in place of the digest.

## Findings

Each of these is a property that holds only under a condition. The condition is proved exact, one
concrete input shows the failure, and none of the failing inputs arises in the deployed pipeline.

- `coalescedTimerMillis` gives the least whole second at or after its argument exactly when that is
  nonnegative or already whole, and a second more otherwise (`Timers.CoalescedIsCeiling`; -1 gives 1000
  in `Timers.JustBeforeZero`). Only a direct call with a negative time shows it: the deadlines an operator
  computes are nonnegative.
- A batch equals its replay from every store exactly when, for each element, its last event writes or
  deletes wherever an earlier one did (`ProjectorReplay.BatchIsReplayIffLastEventsDecide`;
  `ProjectorReplay.MisplacedUpsertIsLost` is a poll that fails). The failing poll needs a hand-made event
  whose type is not its id's prefix. The pipeline's own events are well formed, since ids fix types
  (`Identity.QuotedTextType`, `Identity.EdgeIdInjective`), and from a store in which
  every document lies in its element's own collection their batch always equals the replay
  (`ProjectorReplay.BatchIsReplay`); that also covers an edge deleted and upserted again in one poll,
  which from an arbitrary store the exact condition would exclude.
- A second initializer run is idle, and a cut-off run resumes, exactly when no identifying property has a
  slash in its name (for resuming: none before the cut), because indexes are looked up by the part after
  the last slash (`Initializer.SecondRunIsIdleIffPlainNames`, `Initializer.CutOffRunResumes`; the input is in
  `Initializer.SlashedPropertyIsWrittenAgain`). The schema generator turns property names into letters,
  digits and underscores (tools/semconv_codegen/generator.py:429-433), so only a hand-made schema shows it.
- Coalescing respects the lifetime of an element exactly when the interval is shorter than it
  (`PipelineRuns.RespectsLifetimeIffShortInterval`; two reports suffice in
  `PipelineRuns.LongIntervalExpiresEarly`). The engine's configuration refuses longer intervals; only
  operators constructed directly can have one.

## Model

| member | source | states |
|---|---|---|
| `LifecycleReplay.Replay` | services/otel-servicegraph-diff/runtime/java/src/main/java/io/extendedotel/flink/lifecycle/ElementLifecycleFunction.java:71-268 | Driving the operator object and its timer service over any allowed sequence of reports and callbacks from any valid state emits the reference events and ends in the reference state, keeps the cells, index and timers consistent, and keeps the run invariant |
| `LifecycleReplay.RunIsReferenceRun` | services/otel-servicegraph-diff/runtime/java/src/main/java/io/extendedotel/flink/lifecycle/ElementLifecycleFunction.java:71-226 | Helper of `Replay`: over every input sequence the value-level run, whose steps are defined by the reference report and expiry, has the state and events of folding `apply` and `expire`; that the object with its index and timers computes it is `Replay` |
| `LifecycleReplay.Deliver` | services/otel-servicegraph-diff/runtime/java/src/main/java/io/extendedotel/flink/lifecycle/ElementLifecycleFunction.java:71-214 | One report or callback moves the object and emits exactly one step of the value semantics |
| `LifecycleRuns.RunKeepsInvariant` | services/otel-servicegraph-diff/runtime/java/src/main/java/io/extendedotel/flink/lifecycle/ElementLifecycleFunction.java:147-186 | In every reachable state the stored state is coherent with its hash, and on each clock the wake-up is on a whole second, exists only while some contributor wants one, and is no later than the rounded deadline of every contributor, although refreshes never rescan |
| `LifecycleRuns.EventsReconstructState` | services/otel-servicegraph-diff/runtime/java/src/main/java/io/extendedotel/flink/lifecycle/GraphLifecycle.java:80-138 | Folding the emitted events over what was visible at the start gives exactly the merge of the live contributors, or nothing; no event repeats what is already visible (so a delete only follows something) and every event's id, hash and positive time fit its payload |
| `LifecycleRuns.StepAnnounces` | services/otel-servicegraph-diff/runtime/java/src/main/java/io/extendedotel/flink/lifecycle/GraphLifecycle.java:85-138 | A step emits an event if and only if it changes what is visible, and the event carries the new visible value |
| `LifecycleRuns.ReportAnnounces` | services/otel-servicegraph-diff/runtime/java/src/main/java/io/extendedotel/flink/lifecycle/GraphLifecycle.java:47-78 | The same for one accepted, stale or rejected report on the reference state |
| `LifecycleRuns.ExpiryAnnounces` | services/otel-servicegraph-diff/runtime/java/src/main/java/io/extendedotel/flink/lifecycle/GraphLifecycle.java:85-116 | The same for one expiry, including that a delete's time is positive |
| `LifecycleRuns.AcceptedReport` | services/otel-servicegraph-diff/runtime/java/src/main/java/io/extendedotel/flink/lifecycle/ElementLifecycleFunction.java:91-172 | An accepted report replaces exactly its contributor's snapshot, keeps a well-formed state under the report's id, and sets each wake-up to the exact minimum when an owned attribute is lost, otherwise to the earlier of old and new |
| `LifecycleRuns.ReportLifetime` | services/otel-servicegraph-diff/runtime/java/src/main/java/io/extendedotel/flink/lifecycle/LifecyclePolicy.java:44-55 | An accepted report is remembered with its own time and element; it lives its lifetime in seconds on both clocks: 1 000 000 000 ns each from its observation or the watermark, if that is later, and 1 000 ms each from now; no other contributor changes |
| `LifecycleRuns.ReportVerdict` | services/otel-servicegraph-diff/runtime/java/src/main/java/io/extendedotel/flink/lifecycle/ElementLifecycleFunction.java:91-138 | A report is ignored exactly when its contributor has a strictly newer one; otherwise refused without a lifetime or when some contributor's kind, id, type or endpoints differ; otherwise accepted |
| `LifecycleRuns.ReportEventTime` | services/otel-servicegraph-diff/runtime/java/src/main/java/io/extendedotel/flink/lifecycle/GraphLifecycle.java:72-77 | The event of a report carries the report's time and the wall clock |
| `LifecycleRuns.ExpiryEventTime` | services/otel-servicegraph-diff/runtime/java/src/main/java/io/extendedotel/flink/lifecycle/GraphLifecycle.java:87-115 | The event of a callback carries the latest event deadline (or, without one, observation time) among exactly what expired, and the wall clock |
| `LifecycleRuns.ReportKeepsInvariant` | services/otel-servicegraph-diff/runtime/java/src/main/java/io/extendedotel/flink/lifecycle/ElementLifecycleFunction.java:71-172 | Every report (accepted, stale or rejected) keeps the run invariant |
| `LifecycleRuns.FireOutcome` | services/otel-servicegraph-diff/runtime/java/src/main/java/io/extendedotel/flink/lifecycle/ElementLifecycleFunction.java:189-226 | A callback leaves exactly the contributors that are not due and re-arms both clocks with the exact minimum |
| `LifecycleRuns.FireKeepsInvariant` | services/otel-servicegraph-diff/runtime/java/src/main/java/io/extendedotel/flink/lifecycle/ElementLifecycleFunction.java:189-226 | Every callback keeps the run invariant |
| `LifecycleBounds.CallbackRemovesExactlyDue` | services/otel-servicegraph-diff/runtime/java/src/main/java/io/extendedotel/flink/lifecycle/ElementLifecycleFunction.java:189-213 | A callback removes a contributor if and only if its deadline on the firing clock has come: never early, never forgotten |
| `LifecycleLifetimes.NoReportExpiresEarly` | services/otel-servicegraph-diff/runtime/java/src/main/java/io/extendedotel/flink/lifecycle/ElementLifecycleFunction.java:112-213 | Over every run with clocks that do not run backwards: no callback on either clock removes a contributor before each report accepted from it since it was last absent has lived its lifetime, in event time from its observation or the watermark then, in processing time from its arrival |
| `LifecycleLifetimes.KeptIsCovered` | services/otel-servicegraph-diff/runtime/java/src/main/java/io/extendedotel/flink/lifecycle/ElementLifecycleFunction.java:91-213 | The deadlines behind it: after every run they are at least as late as each such report asks for |
| `LifecycleLifetimes.StepCovers` | services/otel-servicegraph-diff/runtime/java/src/main/java/io/extendedotel/flink/lifecycle/ElementLifecycleFunction.java:91-213 | Every report and callback keeps them so, or removes the contributor |
| `LifecycleLifetimes.SameLifetime` | services/otel-servicegraph-diff/runtime/java/src/main/java/io/extendedotel/flink/lifecycle/GraphLifecycle.java:66-68 | All reports accepted for what is there have one lifetime |
| `LifecycleBounds.NoStragglers` | services/otel-servicegraph-diff/runtime/java/src/main/java/io/extendedotel/flink/lifecycle/ElementLifecycleFunction.java:319-332 | Once every timer due by `now` has fired, no deadline on that clock is a full second or more behind `now` |
| `LifecycleBounds.SurvivorTimerIsLater` | services/otel-servicegraph-diff/runtime/java/src/main/java/io/extendedotel/flink/lifecycle/ElementLifecycleFunction.java:270-287 | A contributor that survives a callback asks for a timer strictly later than that callback |
| `LifecycleBounds.RearmsLater` | services/otel-servicegraph-diff/runtime/java/src/main/java/io/extendedotel/flink/lifecycle/ElementLifecycleFunction.java:189-226 | A callback re-arms its own clock strictly later than it fired |
| `LifecycleBounds.ExactWakeUpRemoves` | services/otel-servicegraph-diff/runtime/java/src/main/java/io/extendedotel/flink/lifecycle/ElementLifecycleFunction.java:270-287 | A wake-up computed by a rescan removes at least one contributor when it fires |
| `LifecycleBounds.CallbackProgress` | services/otel-servicegraph-diff/runtime/java/src/main/java/io/extendedotel/flink/lifecycle/ElementLifecycleFunction.java:189-226 | After any callback both wake-ups are exact, and from exact wake-ups every callback shrinks the contributors |
| `LifecycleBounds.DrainProgress` | services/otel-servicegraph-diff/runtime/java/src/main/java/io/extendedotel/flink/lifecycle/ElementLifecycleFunction.java:189-287 | Without input, contributors left plus callbacks made never exceed the starting contributors by more than one |
| `LifecycleBounds.DrainBound` | services/otel-servicegraph-diff/runtime/java/src/main/java/io/extendedotel/flink/lifecycle/ElementLifecycleFunction.java:189-287 | The bound alone, also for states restored with contributors that have no deadline: no more than n + 1 callbacks without input |
| `LifecycleBounds.DrainedIsDeleted` | services/otel-servicegraph-diff/runtime/java/src/main/java/io/extendedotel/flink/lifecycle/ElementLifecycleFunction.java:216-226 | Where each contributor has some deadline, no timer is left if and only if the element is gone |
| `LifecycleBounds.StepKeepsExpirable` | services/otel-servicegraph-diff/runtime/java/src/main/java/io/extendedotel/flink/lifecycle/LifecyclePolicy.java:44-55 | Every report and every callback keeps some deadline on each contributor |
| `LifecycleBounds.RunKeepsExpirable` | services/otel-servicegraph-diff/runtime/java/src/main/java/io/extendedotel/flink/lifecycle/LifecyclePolicy.java:44-55 | From an empty key, in every reachable state each contributor has some deadline |
| `LifecycleBounds.DrainDeletes` | services/otel-servicegraph-diff/runtime/java/src/main/java/io/extendedotel/flink/lifecycle/ElementLifecycleFunction.java:189-287 | Without input, an element of n contributors has run out of callbacks if and only if it is deleted with its timers, and that takes at most n + 1 of them |
| `LifecycleBounds.DrainCompletes` | services/otel-servicegraph-diff/runtime/java/src/main/java/io/extendedotel/flink/lifecycle/ElementLifecycleFunction.java:189-287 | However far draining has come, it can be carried on until the element is deleted with its timers |
| `ElementLifecycle.LifecycleFunction.ProcessElement` | services/otel-servicegraph-diff/runtime/java/src/main/java/io/extendedotel/flink/lifecycle/ElementLifecycleFunction.java:71-88 | One report, through whichever path, changes the cells, timers and output exactly as the reference report does (its verdict, lifetime and event are `LifecycleRuns.ReportVerdict`, `ReportLifetime` and `ReportEventTime`); a rejected report changes nothing |
| `ElementLifecycle.LifecycleFunction.Observe` | services/otel-servicegraph-diff/runtime/java/src/main/java/io/extendedotel/flink/lifecycle/ElementLifecycleFunction.java:91-172 | The refresh path either performs the reference report, or declines without any change exactly in the case of a lost owned attribute |
| `ElementLifecycle.LifecycleFunction.Refresh` | services/otel-servicegraph-diff/runtime/java/src/main/java/io/extendedotel/flink/lifecycle/ElementLifecycleFunction.java:112-171 | With a current index, the refresh gives the reference report's state, wake-ups and event, and a valid index |
| `ElementLifecycle.LifecycleFunction.RefreshedIndex` | services/otel-servicegraph-diff/runtime/java/src/main/java/io/extendedotel/flink/lifecycle/ElementLifecycleFunction.java:118-138 | The incrementally updated index is the index rebuilt from the updated contributors; an identity conflict is reported exactly when the reference rejects |
| `ElementLifecycle.LifecycleFunction.CurrentIndex` | services/otel-servicegraph-diff/runtime/java/src/main/java/io/extendedotel/flink/lifecycle/ElementLifecycleFunction.java:98-108 | The index used is always the rebuilt one, also when a restored state has none |
| `ElementLifecycle.LifecycleFunction.StoreRefresh` | services/otel-servicegraph-diff/runtime/java/src/main/java/io/extendedotel/flink/lifecycle/ElementLifecycleFunction.java:139-171 | The conditional writes and the reused hash leave the cells consistent and announce the event of the reference |
| `ElementLifecycle.LifecycleFunction.ApplyToState` | services/otel-servicegraph-diff/runtime/java/src/main/java/io/extendedotel/flink/lifecycle/ElementLifecycleFunction.java:77-87 | The rescan path performs the reference report |
| `ElementLifecycle.LifecycleFunction.OnTimer` | services/otel-servicegraph-diff/runtime/java/src/main/java/io/extendedotel/flink/lifecycle/ElementLifecycleFunction.java:189-214 | A callback expires on its own clock and re-arms both clocks exactly as the value semantics says, and leaves one registered timer per set cell |
| `ElementLifecycle.LifecycleFunction.Update` | services/otel-servicegraph-diff/runtime/java/src/main/java/io/extendedotel/flink/lifecycle/ElementLifecycleFunction.java:216-226 | After a changed state the cells hold it and both wake-ups are the exact minima |
| `ElementLifecycle.LifecycleFunction.LoadState` | services/otel-servicegraph-diff/runtime/java/src/main/java/io/extendedotel/flink/lifecycle/ElementLifecycleFunction.java:228-244 | Both consistency exceptions arise exactly when one of contributors and aggregate is missing; from consistent cells the stored state is returned |
| `ElementLifecycle.LifecycleFunction.PersistState` | services/otel-servicegraph-diff/runtime/java/src/main/java/io/extendedotel/flink/lifecycle/ElementLifecycleFunction.java:246-268 | Writing only the differences leaves exactly the new contributors, aggregate and rebuilt index; a deleted state clears all three |
| `ElementLifecycle.LifecycleFunction.RemoveMissing` | services/otel-servicegraph-diff/runtime/java/src/main/java/io/extendedotel/flink/lifecycle/ElementLifecycleFunction.java:254-259 | Keeps unchanged exactly the entries whose id is still wanted |
| `ElementLifecycle.LifecycleFunction.PutChanged` | services/otel-servicegraph-diff/runtime/java/src/main/java/io/extendedotel/flink/lifecycle/ElementLifecycleFunction.java:260-264 | Writing only entries that differ completes the map to the target |
| `ElementLifecycle.LifecycleFunction.ScheduleTimers` | services/otel-servicegraph-diff/runtime/java/src/main/java/io/extendedotel/flink/lifecycle/ElementLifecycleFunction.java:270-287 | Both wake-ups become the earliest timer any contributor asks for, with the timer service agreeing |
| `ElementLifecycle.LifecycleFunction.ReplaceTimer` | services/otel-servicegraph-diff/runtime/java/src/main/java/io/extendedotel/flink/lifecycle/ElementLifecycleFunction.java:289-313 | The registered timer follows the cell; the other clock is untouched |
| `ElementLifecycle.LifecycleFunction.AdvanceTimer` | services/otel-servicegraph-diff/runtime/java/src/main/java/io/extendedotel/flink/lifecycle/ElementLifecycleFunction.java:179-186 | Moves a wake-up only to an earlier time; the other clock is untouched |
| `ElementLifecycle.LifecycleFunction.AdvanceTimers` | services/otel-servicegraph-diff/runtime/java/src/main/java/io/extendedotel/flink/lifecycle/ElementLifecycleFunction.java:147-160 | Both wake-ups after a refresh by one snapshot |
| `ElementLifecycle.LifecycleFunction.ForgetTimer` | services/otel-servicegraph-diff/runtime/java/src/main/java/io/extendedotel/flink/lifecycle/ElementLifecycleFunction.java:191-192 | Clearing the fired cell restores agreement with the timer service |
| `OperatorSteps.RefreshIsReport` | services/otel-servicegraph-diff/runtime/java/src/main/java/io/extendedotel/flink/lifecycle/ElementLifecycleFunction.java:112-171 | When no owned attribute is lost, the refresh outcome is the reference report with each wake-up moved only earlier, and conflicts are rejected alike |
| `OperatorSteps.RescanIsReport` | services/otel-servicegraph-diff/runtime/java/src/main/java/io/extendedotel/flink/lifecycle/ElementLifecycleFunction.java:77-87 | When an owned attribute is lost, `apply` plus a rescan is the reference report and yields a well-formed state |
| `Timers.CoalescedIsCeiling` | services/otel-servicegraph-diff/runtime/java/src/main/java/io/extendedotel/flink/lifecycle/ElementLifecycleFunction.java:330-332 | The coalesced timer is never early; it is the least whole second at or after its deadline if and only if the deadline is nonnegative or already on a whole second, and one second after that otherwise |
| `Timers.JustBeforeZero` | services/otel-servicegraph-diff/runtime/java/src/main/java/io/extendedotel/flink/lifecycle/ElementLifecycleFunction.java:330-332 | A deadline of minus one millisecond is rounded to second one although second zero would do |
| `Timers.EventTimerIsCeiling` | services/otel-servicegraph-diff/runtime/java/src/main/java/io/extendedotel/flink/lifecycle/ElementLifecycleFunction.java:319-332 | Rounding a nonnegative deadline up from nanoseconds to milliseconds and then to seconds is one rounding up to the whole second |
| `Timers.TimerIsCeiling` | services/otel-servicegraph-diff/runtime/java/src/main/java/io/extendedotel/flink/lifecycle/ElementLifecycleFunction.java:273-283 | On both clocks a contributor's timer is the least whole second at or after its nonnegative deadline |
| `Timers.EarliestUnique` | services/otel-servicegraph-diff/runtime/java/src/main/java/io/extendedotel/flink/lifecycle/ElementLifecycleFunction.java:271-284 | A timer wanted by some contributor and no later than any other is the next wake-up |
| `Timers.NextTimer` | services/otel-servicegraph-diff/runtime/java/src/main/java/io/extendedotel/flink/lifecycle/ElementLifecycleFunction.java:271-284 | The loop over contributors finds the earliest wanted timer, or none |
| `GraphLifecycle.OwnerExists` | services/otel-servicegraph-diff/runtime/java/src/main/java/io/extendedotel/flink/lifecycle/GraphLifecycle.java:143-155 | Every attribute that some contributor has, has an owner: the newest holder, ties to the smallest id |
| `GraphLifecycle.OwnerUnique` | services/otel-servicegraph-diff/runtime/java/src/main/java/io/extendedotel/flink/lifecycle/GraphLifecycle.java:165-168 | An attribute has at most one owner |
| `GraphLifecycle.OwnerIsNewestThenFirst` | services/otel-servicegraph-diff/runtime/java/src/main/java/io/extendedotel/flink/lifecycle/GraphLifecycle.java:165-168 | The owner of an attribute is exactly the holder newer than every other, or as new and before it in dictionary order |
| `GraphLifecycle.MergedValues` | services/otel-servicegraph-diff/runtime/java/src/main/java/io/extendedotel/flink/lifecycle/GraphLifecycle.java:140-163 | The merge has exactly the attributes some contributor has, each with the value of the newest holder, ties going to the first id in dictionary order |
| `Text.LessIsPrecedes` | services/otel-servicegraph-diff/runtime/java/src/main/java/io/extendedotel/flink/lifecycle/GraphLifecycle.java:165-168 | Text order by positions: after a common prefix the smaller text ends or has the smaller character |
| `GraphLifecycle.OwnerAfterReport` | services/otel-servicegraph-diff/runtime/java/src/main/java/io/extendedotel/flink/lifecycle/AttributeWinners.java:67-75 | How ownership of an attribute moves when a contributor reports: it takes the attribute when unowned, already its own, or newer; otherwise the owner stays |
| `GraphLifecycle.NextOwnersAreOwners` | services/otel-servicegraph-diff/runtime/java/src/main/java/io/extendedotel/flink/lifecycle/AttributeWinners.java:65-75 | The incremental owner map equals the full recomputation, for any contributors and timestamp ties |
| `GraphLifecycle.SelectOwners` | services/otel-servicegraph-diff/runtime/java/src/main/java/io/extendedotel/flink/lifecycle/GraphLifecycle.java:143-155 | The winner loop gives the unique owners for every visiting order |
| `GraphLifecycle.ClaimAttributes` | services/otel-servicegraph-diff/runtime/java/src/main/java/io/extendedotel/flink/lifecycle/GraphLifecycle.java:144-154 | One more contributor claims exactly the attributes on which it wins |
| `GraphLifecycle.CollectValues` | services/otel-servicegraph-diff/runtime/java/src/main/java/io/extendedotel/flink/lifecycle/GraphLifecycle.java:156-158 | Each attribute takes its owner's value |
| `GraphLifecycle.Merge` | services/otel-servicegraph-diff/runtime/java/src/main/java/io/extendedotel/flink/lifecycle/GraphLifecycle.java:140-163 | Whatever contributor comes first and whatever the order: every attribute has its owner's value, and with coherent contributors the whole element is the one merge |
| `GraphLifecycle.MergedIdentity` | services/otel-servicegraph-diff/runtime/java/src/main/java/io/extendedotel/flink/lifecycle/GraphLifecycle.java:140-163 | The merge has the identity of every contributor, with the owners' attributes |
| `GraphLifecycle.ConflictsWith` | services/otel-servicegraph-diff/runtime/java/src/main/java/io/extendedotel/flink/lifecycle/GraphLifecycle.java:170-180 | The identity check against the first contributor rejects if and only if some contributor's identity differs |
| `GraphLifecycle.CoherentAfterReport` | services/otel-servicegraph-diff/runtime/java/src/main/java/io/extendedotel/flink/lifecycle/GraphLifecycle.java:66-71 | An accepted report keeps all contributors describing one element, under the same id |
| `GraphLifecycle.Apply` | services/otel-servicegraph-diff/runtime/java/src/main/java/io/extendedotel/flink/lifecycle/GraphLifecycle.java:47-78 | `apply` with its error cases computes the reference report, over any iteration order; what a report then stores is `LifecycleRuns.ReportLifetime` |
| `GraphLifecycle.AppliedWellFormed` | services/otel-servicegraph-diff/runtime/java/src/main/java/io/extendedotel/flink/lifecycle/GraphLifecycle.java:47-138 | An applied report leaves a coherent state whose stored hash is that of its merge |
| `GraphLifecycle.SplitExpired` | services/otel-servicegraph-diff/runtime/java/src/main/java/io/extendedotel/flink/lifecycle/GraphLifecycle.java:87-108 | Separates exactly the contributors due on the clock, and finds the latest end among them |
| `GraphLifecycle.LatestEndUnique` | services/otel-servicegraph-diff/runtime/java/src/main/java/io/extendedotel/flink/lifecycle/GraphLifecycle.java:88-104 | The event time of an expiry is the latest end of what expired |
| `GraphLifecycle.Expire` | services/otel-servicegraph-diff/runtime/java/src/main/java/io/extendedotel/flink/lifecycle/GraphLifecycle.java:85-116 | `expire` computes the reference expiry: unchanged, deleted, or re-merged |
| `GraphLifecycle.ExpiredWellFormed` | services/otel-servicegraph-diff/runtime/java/src/main/java/io/extendedotel/flink/lifecycle/GraphLifecycle.java:85-138 | What an expiry leaves is coherent, keeps its id, and stores the hash of its merge |
| `AttributeWinners.Rebuild` | services/otel-servicegraph-diff/runtime/java/src/main/java/io/extendedotel/flink/lifecycle/AttributeWinners.java:27-43 | The rebuilt index holds the merge, the unique owners and the number of contributors |
| `AttributeWinners.LosesAttributeMeans` | services/otel-servicegraph-diff/runtime/java/src/main/java/io/extendedotel/flink/lifecycle/AttributeWinners.java:45-51 | The test is true if and only if the contributor owns an attribute that its replacement lacks |
| `AttributeWinners.Observe` | services/otel-servicegraph-diff/runtime/java/src/main/java/io/extendedotel/flink/lifecycle/AttributeWinners.java:53-82 | Rejects exactly a different identity; otherwise gives the incremental index, reading only current owners, none of which can be missing |
| `AttributeWinners.ClaimIncoming` | services/otel-servicegraph-diff/runtime/java/src/main/java/io/extendedotel/flink/lifecycle/AttributeWinners.java:65-75 | The loop claims exactly the incoming attributes that are unowned, own, or won |
| `AttributeWinners.NextAttributesAreMerged` | services/otel-servicegraph-diff/runtime/java/src/main/java/io/extendedotel/flink/lifecycle/AttributeWinners.java:66-75 | The incrementally kept attribute values are those of the full merge |
| `AttributeWinners.ObserveIsRebuild` | services/otel-servicegraph-diff/runtime/java/src/main/java/io/extendedotel/flink/lifecycle/AttributeWinners.java:53-82 | If the index is the rebuilt one, the report is not older and loses no owned attribute, then the incremental index equals rebuilding from the updated contributors |
| `AttributeWinners.CoherentReport` | services/otel-servicegraph-diff/runtime/java/src/main/java/io/extendedotel/flink/lifecycle/AttributeWinners.java:56-64 | A report with the same identity keeps the contributors coherent, and the merge differs only in its attributes |
| `LifecyclePolicy.EntityType` | services/otel-servicegraph-diff/runtime/java/src/main/java/io/extendedotel/flink/lifecycle/LifecyclePolicy.java:57-63 | A type, when there is one, is the nonempty colon-free text before the first colon |
| `LifecyclePolicy.EntityTypeAbsent` | services/otel-servicegraph-diff/runtime/java/src/main/java/io/extendedotel/flink/lifecycle/LifecyclePolicy.java:57-63 | There is no type exactly when there is no colon or nothing before the first one |
| `LifecyclePolicy.Policy.NodeLifetime` | services/otel-servicegraph-diff/runtime/java/src/main/java/io/extendedotel/flink/lifecycle/LifecyclePolicy.java:27-30 | A node lives as long as the table says for its type, or the default without an entry |
| `LifecyclePolicy.Policy.EdgeLifetime` | services/otel-servicegraph-diff/runtime/java/src/main/java/io/extendedotel/flink/lifecycle/LifecyclePolicy.java:31-35 | An edge lives as long as its own entry, but no longer than either endpoint node; without an entry as long as the shorter-lived of them |
| `LifecyclePolicy.Policy.NoLifetime` | services/otel-servicegraph-diff/runtime/java/src/main/java/io/extendedotel/flink/lifecycle/LifecyclePolicy.java:27-36 | The only element without a lifetime is an edge with an endpoint id that has no type |
| `LifecyclePolicy.Policy.OtherTypesKeepTheirLifetime` | services/otel-servicegraph-diff/runtime/java/src/main/java/io/extendedotel/flink/lifecycle/LifecyclePolicy.java:27-36 | Changing or removing one type's entry changes no element that has neither that type nor an endpoint of it |
| `LifecyclePolicy.Policy.TtlOfIdentity` | services/otel-servicegraph-diff/runtime/java/src/main/java/io/extendedotel/flink/lifecycle/LifecyclePolicy.java:27-36 | A lifetime depends on the identity alone, so all contributors of an element share it; which it is, `NodeLifetime` and `EdgeLifetime` say |
| `Coalescer.ContributionCoalescer.ProcessElement` | services/otel-servicegraph-diff/runtime/java/src/main/java/io/extendedotel/flink/coalesce/ContributionCoalescer.java:88-134 | Passes everything through at interval zero; otherwise forwards, suppresses or ignores a report, sets all five cells and keeps the one registered timer in step with its cell |
| `Coalescer.ContributionCoalescer.OnTimer` | services/otel-servicegraph-diff/runtime/java/src/main/java/io/extendedotel/flink/coalesce/ContributionCoalescer.java:137-163 | Ignores a stale timer; otherwise delivers the pending report and waits for cleanup, or clears every cell, or re-arms, with the one registered timer in step |
| `Coalescer.ContributionCoalescer.Forward` | services/otel-servicegraph-diff/runtime/java/src/main/java/io/extendedotel/flink/coalesce/ContributionCoalescer.java:105-130 | A forwarded report is remembered as sent, nothing is pending, and the timer waits for the lifetime to pass |
| `Coalescer.ContributionCoalescer.ReplaceTimer` | services/otel-servicegraph-diff/runtime/java/src/main/java/io/extendedotel/flink/coalesce/ContributionCoalescer.java:171-181 | The only registered processing-time timer is the one in the cell; event-time timers are untouched |
| `CoalescerRuns.RunKeepsInvariant` | services/otel-servicegraph-diff/runtime/java/src/main/java/io/extendedotel/flink/coalesce/ContributionCoalescer.java:95-163 | In every reachable state: a pending report's timer is one interval after the last output's nominal time, otherwise the timer is last seen plus lifetime; the last output carries the cached element; outputs are sent at most the lateness after their nominal time; every accepted report is covered or waiting; outputs are spaced |
| `CoalescerRuns.StepKeepsInvariant` | services/otel-servicegraph-diff/runtime/java/src/main/java/io/extendedotel/flink/coalesce/ContributionCoalescer.java:95-163 | Every receipt and every callback keeps that invariant |
| `CoalescerRuns.EveryReportIsDelivered` | services/otel-servicegraph-diff/runtime/java/src/main/java/io/extendedotel/flink/coalesce/ContributionCoalescer.java:102-155 | Every accepted report is followed, within one interval plus the lateness of callbacks in real processing time, by the sending of a report at least as new |
| `CoalescerRuns.EveryReportIsTakenIn` | services/otel-servicegraph-diff/runtime/java/src/main/java/io/extendedotel/flink/coalesce/ContributionCoalescer.java:95-103 | In every run each received report is taken in, unless a strictly newer one has been: equal observation times are never ignored |
| `CoalescerRuns.LastOutputIsCurrent` | services/otel-servicegraph-diff/runtime/java/src/main/java/io/extendedotel/flink/coalesce/ContributionCoalescer.java:102-155 | No change is lost: the last output carries the cached element, and is the cached report itself when nothing is pending |
| `CoalescerRuns.OutputsAreSpaced` | services/otel-servicegraph-diff/runtime/java/src/main/java/io/extendedotel/flink/coalesce/ContributionCoalescer.java:113-155 | Between cleanups output observation times and sending times never decrease, and unchanged consecutive outputs are sent at least one interval less the lateness of callbacks apart |
| `CoalescerRuns.LatenessShows` | services/otel-servicegraph-diff/runtime/java/src/main/java/io/extendedotel/flink/coalesce/ContributionCoalescer.java:122-155 | Both bounds are tight: for every interval, lateness and element a concrete run takes exactly interval plus lateness to deliver and then sends an unchanged report interval minus lateness later |
| `CoalescerRuns.RearmsLater` | services/otel-servicegraph-diff/runtime/java/src/main/java/io/extendedotel/flink/coalesce/ContributionCoalescer.java:137-163 | A callback re-arms strictly later than it fired, and forgets the key if and only if nothing was pending |
| `CoalescerRuns.TtlExceedsInterval` | services/otel-servicegraph-diff/runtime/java/src/main/java/io/extendedotel/flink/config/EngineConfig.java:50-55 | The configuration check per type implies the interval is shorter than every element's lifetime, edges included |
| `PipelineRuns.RespectsLifetimeIffShortInterval` | services/otel-servicegraph-diff/runtime/java/src/main/java/io/extendedotel/flink/coalesce/ContributionCoalescer.java:88-169 | With the coalescers feeding the lifecycle operator on one processing clock, no allowed run removes a contributor before one of its accepted reports is a lifetime old, if and only if the interval is shorter than the lifetime |
| `PipelineRuns.NeverExpiresEarly` | services/otel-servicegraph-diff/runtime/java/src/main/java/io/extendedotel/flink/coalesce/ContributionCoalescer.java:88-169 | The sufficient half, for a contributor whose observation times do not go backwards, over any run mixing other contributors and both clocks |
| `PipelineRuns.LongIntervalExpiresEarly` | services/otel-servicegraph-diff/runtime/java/src/main/java/io/extendedotel/flink/config/EngineConfig.java:50-55 | The necessary half: with an interval at or above the lifetime, two reports a millisecond apart are enough to expire early |
| `PipelineRuns.RunKeepsInvariant` | services/otel-servicegraph-diff/runtime/java/src/main/java/io/extendedotel/flink/lifecycle/ElementLifecycleFunction.java:147-213 | In every reachable pipeline state the operator's deadline covers every accepted report of the contributor unless a refresh is pending, and always covers the last one forwarded |
| `PipelineRuns.ExpiryRemoves` | services/otel-servicegraph-diff/runtime/java/src/main/java/io/extendedotel/flink/lifecycle/ElementLifecycleFunction.java:189-213 | The contributors lost in a processing-time callback are exactly those due |
| `Pipeline.StepKeepsInvariant` | services/otel-servicegraph-diff/runtime/java/src/main/java/io/extendedotel/flink/coalesce/ContributionCoalescer.java:88-163 | Every pipeline step keeps each coalescer's timer in its role and the operator's run invariant |
| `Pipeline.StepCovers` | services/otel-servicegraph-diff/runtime/java/src/main/java/io/extendedotel/flink/coalesce/ContributionCoalescer.java:88-163 | Every pipeline step keeps deadlines covering accepted reports |
| `Pipeline.CoalesceOutcome` | services/otel-servicegraph-diff/runtime/java/src/main/java/io/extendedotel/flink/coalesce/ContributionCoalescer.java:88-134 | What a coalescer does with a report of this element: never an error, only this report can come out, and its timer keeps its role |
| `Pipeline.RefreshOutcome` | services/otel-servicegraph-diff/runtime/java/src/main/java/io/extendedotel/flink/coalesce/ContributionCoalescer.java:137-163 | A due coalescer timer sends the cached report when one is pending and forgets the key otherwise |
| `Pipeline.DeliverOutcome` | services/otel-servicegraph-diff/runtime/java/src/main/java/io/extendedotel/flink/lifecycle/ElementLifecycleFunction.java:71-172 | A delivered report is accepted unless stale, and keeps the operator's invariant |
| `GraphClosure.NoEdgeOutlivesItsEndpoints` | services/otel-servicegraph-diff/runtime/java/src/main/java/io/extendedotel/flink/lifecycle/LifecyclePolicy.java:27-55 | In every graph reachable by datapoints and common expiries, a contributor live on an edge is live on both endpoint nodes, with deadlines at least as late on both clocks |
| `GraphClosure.RunKeepsInvariant` | services/otel-servicegraph-diff/runtime/java/src/main/java/io/extendedotel/flink/lifecycle/LifecyclePolicy.java:27-55 | The graph invariant behind it holds in every reachable graph |
| `GraphClosure.DatapointKeepsInvariant` | services/otel-servicegraph-diff/runtime/java/src/main/java/io/extendedotel/flink/ingest/MetricParser.java:169-208 | A whole datapoint with one contributor and time keeps it |
| `GraphClosure.ExpiryKeepsInvariant` | services/otel-servicegraph-diff/runtime/java/src/main/java/io/extendedotel/flink/lifecycle/GraphLifecycle.java:85-116 | Expiring every element at a common time keeps it |
| `GraphClosure.DatapointAccepted` | services/otel-servicegraph-diff/runtime/java/src/main/java/io/extendedotel/flink/lifecycle/GraphLifecycle.java:170-180 | No in-order datapoint is stale or conflicts with the graph, since ids fix identities |
| `GraphClosure.EdgeTtlIsShortest` | services/otel-servicegraph-diff/runtime/java/src/main/java/io/extendedotel/flink/lifecycle/LifecyclePolicy.java:27-36 | An edge's lifetime never exceeds that of either endpoint node |
| `GraphClosure.SameIdSameIdentity` | services/otel-servicegraph-diff/runtime/java/src/main/java/io/extendedotel/flink/semantic/SemanticRegistry.java:296-336 | An element id fixes kind, type and endpoints |
| `Identity.QuotedId` | services/otel-servicegraph-diff/runtime/java/src/main/java/io/extendedotel/flink/semantic/SemanticRegistry.java:296-321 | Succeeds exactly on a nonempty type and a nonempty list of nonempty, non-fractional parts, and gives the type followed by each encoded text; otherwise the first bad part's error |
| `IdentityDecoding.IdRoundTrip` | services/otel-servicegraph-diff/runtime/java/src/main/java/io/extendedotel/flink/semantic/SemanticRegistry.java:296-321 | Splitting an id at its colons and decoding each piece gives back the type and the list of texts |
| `IdentityDecoding.PercentRoundTrip` | services/otel-servicegraph-diff/runtime/java/src/main/java/io/extendedotel/flink/semantic/SemanticRegistry.java:308-318 | Percent decoding (section 2.1 of RFC 3986) undoes the encoding of every byte sequence |
| `IdentityDecoding.ByteIsEncoded` | services/otel-servicegraph-diff/runtime/java/src/main/java/io/extendedotel/flink/semantic/SemanticRegistry.java:308-318 | Unreserved bytes (section 2.3 of RFC 3986) stand for themselves, any other is a percent sign and two hexadecimal digits, the higher first |
| `IdentityDecoding.Utf8RoundTrip` | services/otel-servicegraph-diff/runtime/java/src/main/java/io/extendedotel/flink/semantic/SemanticRegistry.java:308 | Decoding UTF-8 (section 3 of RFC 3629) gives back every text |
| `IdentityDecoding.PartTexts` | services/otel-servicegraph-diff/runtime/java/src/main/java/io/extendedotel/flink/semantic/SemanticRegistry.java:300-306 | Which text stands for each identity value, and which values are refused with which error |
| `IdentityDecoding.DecimalRoundTrip` | services/otel-servicegraph-diff/runtime/java/src/main/java/io/extendedotel/flink/semantic/SemanticRegistry.java:303 | The decimal text of a number reads back as it, without leading zeros |
| `Identity.AppendEncoded` | services/otel-servicegraph-diff/runtime/java/src/main/java/io/extendedotel/flink/semantic/SemanticRegistry.java:307-318 | The byte loop appends a colon and the percent encoding of the UTF-8 bytes |
| `Identity.QuotedTextInjective` | services/otel-servicegraph-diff/runtime/java/src/main/java/io/extendedotel/flink/semantic/SemanticRegistry.java:296-321 | The encoding is injective on the type and the list of texts, for colon-free types |
| `Identity.QuotedTextType` | services/otel-servicegraph-diff/runtime/java/src/main/java/io/extendedotel/flink/semantic/SemanticRegistry.java:296-321 | The text before the first colon of an id is exactly the type |
| `Identity.EncodeBytesInjective` | services/otel-servicegraph-diff/runtime/java/src/main/java/io/extendedotel/flink/semantic/SemanticRegistry.java:308-318 | Percent encoding (sections 2.1 and 2.3 of RFC 3986) is injective on bytes |
| `Identity.Utf8Injective` | services/otel-servicegraph-diff/runtime/java/src/main/java/io/extendedotel/flink/semantic/SemanticRegistry.java:308 | UTF-8 (section 3 of RFC 3629) is injective on text |
| `Identity.DecimalInjective` | services/otel-servicegraph-diff/runtime/java/src/main/java/io/extendedotel/flink/semantic/SemanticRegistry.java:303 | Decimal text is injective |
| `Identity.KeyInjective` | services/otel-servicegraph-diff/runtime/java/src/main/java/io/extendedotel/flink/coalesce/ContributionCoalescer.java:56-59 | No two (element, contributor) pairs share a coalescer key, whatever the ids contain |
| `Identity.EdgeIdInjective` | services/otel-servicegraph-diff/runtime/java/src/main/java/io/extendedotel/flink/semantic/SemanticRegistry.java:323-336 | An edge id fixes source, type and target, the digest being taken as injective |
| `Identity.EdgeIdType` | services/otel-servicegraph-diff/runtime/java/src/main/java/io/extendedotel/flink/semantic/SemanticRegistry.java:323-336 | The prefix of every edge id is `edge` |
| `Extraction.DatapointIsClosed` | services/otel-servicegraph-diff/runtime/java/src/main/java/io/extendedotel/flink/ingest/MetricParser.java:169-208 | A service-graph datapoint yields one element per id, no self-loops, and both endpoints of every edge as nodes of the same datapoint |
| `Extraction.ServiceGraph` | services/otel-servicegraph-diff/runtime/java/src/main/java/io/extendedotel/flink/ingest/MetricParser.java:182-207 | Succeeds on every pair of entity lists; the result has exactly the entities of both sides, a call edge from client to server for each registered interaction between them, and the observation edges within each side; flags a connection type exactly when no service-graph interaction is registered for it |
| `Extraction.CombinationIsDatapoint` | services/otel-servicegraph-diff/runtime/java/src/main/java/io/extendedotel/flink/ingest/MetricParser.java:182-207 | Both directions of that: every registered pair has its edge, from client to server, and every edge and node comes from such a pair or entity |
| `Extraction.BothSides` | services/otel-servicegraph-diff/runtime/java/src/main/java/io/extendedotel/flink/ingest/MetricParser.java:184-189 | Both sides materialized separately and added one by one combine as if added together |
| `Extraction.AddObservation` | services/otel-servicegraph-diff/runtime/java/src/main/java/io/extendedotel/flink/ingest/MetricParser.java:186-188 | Adding one materialized side combines everything that side mentions |
| `Extraction.MaterializeObservation` | services/otel-servicegraph-diff/runtime/java/src/main/java/io/extendedotel/flink/ingest/MetricParser.java:230-238 | Entities plus observation-scope edges, combined by id, for any order |
| `Extraction.AddAll` | services/otel-servicegraph-diff/runtime/java/src/main/java/io/extendedotel/flink/ingest/MetricParser.java:184-199 | Adding a set of elements in any order gives their combination; identified elements never conflict |
| `Extraction.Add` | services/otel-servicegraph-diff/runtime/java/src/main/java/io/extendedotel/flink/ingest/MetricParser.java:247-269 | Conflicts exactly when the identity under the same id differs, which identified elements never do; otherwise the combination grows by the element |
| `Extraction.MergeAttributes` | services/otel-servicegraph-diff/runtime/java/src/main/java/io/extendedotel/flink/ingest/MetricParser.java:258-266 | Every attribute of either side, with the least JSON text on collision |
| `Extraction.CombinationUnique` | services/otel-servicegraph-diff/runtime/java/src/main/java/io/extendedotel/flink/ingest/MetricParser.java:247-269 | The combination depends only on the set of elements: processing order never shows |
| `Extraction.CombinationNests` | services/otel-servicegraph-diff/runtime/java/src/main/java/io/extendedotel/flink/ingest/MetricParser.java:184-189 | Combining a part first and the rest later combines everything |
| `Extraction.Edges` | services/otel-servicegraph-diff/runtime/java/src/main/java/io/extendedotel/flink/semantic/SemanticRegistry.java:121-148 | The edges are exactly those of the selected relationships between distinct matching entities |
| `Extraction.EdgesOf` | services/otel-servicegraph-diff/runtime/java/src/main/java/io/extendedotel/flink/semantic/SemanticRegistry.java:128-146 | The edges of one relationship, none when it is not selected |
| `Extraction.EdgesFrom` | services/otel-servicegraph-diff/runtime/java/src/main/java/io/extendedotel/flink/semantic/SemanticRegistry.java:134-144 | The edges from one source, never to itself |
| `Extraction.ExpandedEdge` | services/otel-servicegraph-diff/runtime/java/src/main/java/io/extendedotel/flink/semantic/SemanticRegistry.java:121-148 | Every expanded edge joins two different given entities and carries its digest id and no attributes |
| `Extraction.MentionedEdge` | services/otel-servicegraph-diff/runtime/java/src/main/java/io/extendedotel/flink/ingest/MetricParser.java:182-199 | Every mentioned edge joins two distinct entities of the datapoint |
| `Extraction.QuotedEntity` | services/otel-servicegraph-diff/runtime/java/src/main/java/io/extendedotel/flink/semantic/SemanticRegistry.java:225-226 | An entity built by `quotedId` from a colon-free type other than `edge` is identified by its id |
| `Projector.ProjectPoll` | services/servicegraph-indexer/src/servicegraph_indexer/indexer.py:225-275 | A poll that cannot be read or planned fails and changes neither store nor offsets; one whose writes stop leaves each slot old or new and commits nothing; one whose commit fails has written every slot and moved some offsets; a successful one writes every pending slot (what it then holds is `StoredDocuments.UpsertIsStored`), commits one past each nonempty partition and counts the records |
| `StoredDocuments.UpsertIsStored` | services/servicegraph-indexer/src/servicegraph_indexer/indexer.py:137-194 | After a successful poll, where an element's last event is an upsert, the collection last defined for its type holds a document with that event's id, type, attributes and envelope, exactly the aliases of present attributes with their values, and for an edge its endpoints' own slots; the element's other slots are as before |
| `StoredDocuments.EdgeDeleteIsGone` | services/servicegraph-indexer/src/servicegraph_indexer/indexer.py:257-272 | After a successful poll, an edge whose last event is a delete is in no edge collection, and as before elsewhere |
| `StoredDocuments.NodeDeleteIsGone` | services/servicegraph-indexer/src/servicegraph_indexer/indexer.py:259-269 | After a successful poll, a node whose last event is a delete is not in the collection last defined for its id's type, and as before elsewhere |
| `StoredDocuments.OthersAreKept` | services/servicegraph-indexer/src/servicegraph_indexer/indexer.py:225-275 | After a successful poll, an element without an event is stored as before |
| `StoredDocuments.WritableIsStorable` | services/servicegraph-indexer/src/servicegraph_indexer/indexer.py:137-194 | An event can be written exactly when it has every field it must carry, in known types: the conditions under which no exception is raised |
| `StoredDocuments.PendingIsLast` | services/servicegraph-indexer/src/servicegraph_indexer/indexer.py:231-242 | The pending event of an element is the last one in the poll |
| `StoredDocuments.AliasIsNamed` | services/servicegraph-indexer/src/servicegraph_indexer/indexer.py:173-175 | An alias property has the value of the last alias pair whose attribute is present, and is there exactly when one is |
| `StoredDocuments.TypeIsDefined` | services/servicegraph-indexer/src/servicegraph_indexer/schema.py:85-91 | A type stands for the collection last defined with it |
| `Projector.Collect` | services/servicegraph-indexer/src/servicegraph_indexer/indexer.py:231-247 | Reads the poll into each element's last event, offsets and count, or fails exactly on an unreadable record |
| `Projector.CollectRecords` | services/servicegraph-indexer/src/servicegraph_indexer/indexer.py:235-242 | One partition's records update the pending events in order |
| `Projector.PlanWrites` | services/servicegraph-indexer/src/servicegraph_indexer/indexer.py:249-264 | All errors are raised before the first write, exactly when some pending event cannot be written; the plan covers each pending event and nothing else |
| `Projector.PlanEvent` | services/servicegraph-indexer/src/servicegraph_indexer/indexer.py:252-264 | One event adds its upsert or its deletes and leaves other elements' plans alone |
| `Projector.PlanIsTarget` | services/servicegraph-indexer/src/servicegraph_indexer/indexer.py:249-272 | A complete plan leaves in each slot what its element's last event says, and never both writes and deletes a slot |
| `Projector.WriteAll` | services/servicegraph-indexer/src/servicegraph_indexer/indexer.py:266-272 | Completes the plan, or stops with each slot old or planned |
| `Projector.WriteUpserts` | services/servicegraph-indexer/src/servicegraph_indexer/indexer.py:266-267 | Writes every planned upsert, or stops with some of them, touching nothing else |
| `Projector.WriteNodeDeletes` | services/servicegraph-indexer/src/servicegraph_indexer/indexer.py:268-269 | Removes every planned node slot, or some of them, touching nothing else |
| `Projector.WriteEdgeDeletes` | services/servicegraph-indexer/src/servicegraph_indexer/indexer.py:270-272 | Removes the edges from every edge collection, or from some, touching nothing else |
| `Projector.Writer.ReplaceMany` | services/servicegraph-indexer/src/servicegraph_indexer/indexer.py:103-109 | May stop after any part of its batch; on success all of it is stored |
| `Projector.Writer.DeleteMany` | services/servicegraph-indexer/src/servicegraph_indexer/indexer.py:111-123 | May stop after any part; on success none of the keys is stored, missing ones being no error |
| `Projector.Consumer.Commit` | services/servicegraph-indexer/src/servicegraph_indexer/indexer.py:273-274 | May fail after moving the offsets of any of the partitions; on success moves exactly the given ones |
| `ProjectorReplay.BatchIsReplay` | services/servicegraph-indexer/src/servicegraph_indexer/indexer.py:231-272 | Writing only each element's last event leaves what applying all events one at a time leaves |
| `ProjectorReplay.SuccessfulPollIsReplay` | services/servicegraph-indexer/src/servicegraph_indexer/indexer.py:231-275 | One successful poll of well-formed records leaves the store of their one-by-one replay, still well placed |
| `ProjectorReplay.BatchIsReplayIffLastEventsDecide` | services/servicegraph-indexer/src/servicegraph_indexer/indexer.py:231-272 | For any writable events, a batch equals their one-by-one replay from every store if and only if every collection that some event of an element writes or deletes in is also written or deleted in by that element's last event |
| `ProjectorReplay.LastDecides` | services/servicegraph-indexer/src/servicegraph_indexer/indexer.py:249-272 | Where an element's last event writes or deletes, the batch leaves what the replay leaves; elsewhere it leaves the slot alone |
| `ProjectorReplay.ReplayTouched` | services/servicegraph-indexer/src/servicegraph_indexer/indexer.py:137-194 | A slot that some event writes or deletes forgets what it held under replay, any other slot keeps it |
| `ProjectorReplay.MisplacedUpsertIsLost` | services/servicegraph-indexer/src/servicegraph_indexer/indexer.py:137-264 | A concrete poll in which batch and replay differ: an upsert whose type is not its id's prefix, followed by its delete |
| `ProjectorReplay.SingleRecordPoll` | services/servicegraph-indexer/src/servicegraph_indexer/indexer.py:225-275 | A one-record poll is one step of the replay |
| `ProjectorReplay.EventAtHome` | services/servicegraph-indexer/src/servicegraph_indexer/indexer.py:252-272 | A well-formed event decides its element's home slot outright and never fills another |
| `ProjectorReplay.PartitionOrderIrrelevant` | services/servicegraph-indexer/src/servicegraph_indexer/indexer.py:234-241 | The order in which partitions are iterated does not show in what a poll writes |
| `ProjectorReplay.PendingOfPoll` | services/servicegraph-indexer/src/servicegraph_indexer/indexer.py:231-242 | An element's pending event comes from its own partition alone |
| `ProjectorReplay.OffsetsOfPoll` | services/servicegraph-indexer/src/servicegraph_indexer/indexer.py:243-247 | Offsets exist exactly for partitions with records, one past the last |
| `ProjectorCrashes.CrashSafe` | services/servicegraph-indexer/src/servicegraph_indexer/indexer.py:225-275 | After any run of polls that may stop in any write or in the commit and resume with other batch boundaries, all slots of an element hold their values after one and the same log prefix between the committed offset and the furthest record read; where those meet, the element is stored as after everything committed |
| `ProjectorCrashes.RunKeepsInvariant` | services/servicegraph-indexer/src/servicegraph_indexer/indexer.py:225-275 | The invariant behind it holds in every reachable store |
| `ProjectorCrashes.AttemptKeepsInvariant` | services/servicegraph-indexer/src/servicegraph_indexer/indexer.py:225-275 | One poll, complete, stopped in its writes or stopped in its commit, keeps it |
| `ProjectorCrashes.PositionsAfter` | services/servicegraph-indexer/src/servicegraph_indexer/indexer.py:243-274 | Offsets move to the end of what was read exactly for the partitions the commit reached |
| `ProjectorCrashes.AttemptTarget` | services/servicegraph-indexer/src/servicegraph_indexer/indexer.py:231-272 | What a poll aims at for a slot is the replay of its own partition's slice |
| `ProjectorCrashes.FetchedPollIsAccepted` | services/servicegraph-indexer/src/servicegraph_indexer/indexer.py:252-264 | A poll of well-formed log records is never rejected: only its writes can fail |
| `ProjectorCrashes.NothingInvented` | services/servicegraph-indexer/src/servicegraph_indexer/indexer.py:225-275 | Nothing is ever stored for an element that no log mentions |
| `ProjectorReplay.EdgePointsAtItsNodes` | services/servicegraph-indexer/src/servicegraph_indexer/indexer.py:176-194 | An edge document's `_from` and `_to` name a node's own document if and only if that node is the edge's source or target |
| `Initializer.EnsureTopology` | services/servicegraph-indexer/src/servicegraph_indexer/initialize.py:150-190 | Either the run is cut off after some of the ordered requirements, or it changes the database and answers exactly as they say: an error, `created` when the graph was missing, `updated` when something was written, otherwise `unchanged` |
| `Initializer.SecondRunIsIdleIffPlainNames` | services/servicegraph-indexer/src/servicegraph_indexer/initialize.py:150-190 | After a run that returns, the next one writes nothing, and answers `unchanged`, if and only if no identifying property has a slash in its name |
| `Initializer.SlashedPropertyIsWrittenAgain` | services/servicegraph-indexer/src/servicegraph_indexer/initialize.py:233-271 | A concrete schema with a slashed property on an empty database: the first run returns and the second writes its index again |
| `Initializer.CutOffRunResumes` | services/servicegraph-indexer/src/servicegraph_indexer/initialize.py:150-190 | A run cut off after any write and repeated ends in the same topology, or the same error, as an uninterrupted one, if and only if no index name required before the cut has a slash; property names without slashes are enough |
| `Initializer.RunsOnlyAdd` | services/servicegraph-indexer/src/servicegraph_indexer/initialize.py:150-190 | However a run ends, no collection, index, key, graph or definition that was present is removed or altered |
| `Initializer.SubjectsExist` | services/servicegraph-indexer/src/servicegraph_indexer/initialize.py:150-190 | A collection or graph always exists before something is added to it |
| `Initializer.FinishedHasGraph` | services/servicegraph-indexer/src/servicegraph_indexer/initialize.py:167-171 | After a run that returns the graph exists |
| `TopologyResult.FinishedIsInitialized` | services/servicegraph-indexer/src/servicegraph_indexer/initialize.py:150-190 | After a run that returns: the variables collection with the graph's key; every vertex collection a document collection with its unique element index and a sparse, not unique index on each identifying property without a slash; every edge collection an edge collection with its unique element index; the graph with exactly the schema's edge definitions, joining the same collections |
| `TopologyResult.CreatedAsListed` | services/servicegraph-indexer/src/servicegraph_indexer/initialize.py:159-169 | A missing graph is created with the definitions as listed, its orphans exactly the vertex collections that no edge joins |
| `Initializer.EnsureCollection` | services/servicegraph-indexer/src/servicegraph_indexer/initialize.py:221-230 | Creates a missing collection, rejects one of the wrong kind, otherwise writes nothing |
| `Initializer.EnsureIndex` | services/servicegraph-indexer/src/servicegraph_indexer/initialize.py:247-271 | Creates a missing index, rejects an incompatible first match by base name, otherwise writes nothing |
| `Initializer.EnsureIndexes` | services/servicegraph-indexer/src/servicegraph_indexer/initialize.py:233-244 | The element index and one index per identifying property, in order, stopping at the first that fails |
| `Initializer.EnsureVariables` | services/servicegraph-indexer/src/servicegraph_indexer/initialize.py:193-199 | The variables collection and this graph's key in it |
| `Initializer.EnsureVertex` | services/servicegraph-indexer/src/servicegraph_indexer/initialize.py:152-154 | A vertex collection with its indexes |
| `Initializer.EnsureEdge` | services/servicegraph-indexer/src/servicegraph_indexer/initialize.py:155-157 | An edge collection with its index |
| `Initializer.EnsureVertices` | services/servicegraph-indexer/src/servicegraph_indexer/initialize.py:152-154 | All vertex collections in order, stopping where one fails |
| `Initializer.EnsureEdges` | services/servicegraph-indexer/src/servicegraph_indexer/initialize.py:155-157 | All edge collections in order, stopping where one fails |
| `Initializer.EnsureCollections` | services/servicegraph-indexer/src/servicegraph_indexer/initialize.py:151-157 | Everything before the graph, with whether anything was written |
| `Initializer.EnsureDefinition` | services/servicegraph-indexer/src/servicegraph_indexer/initialize.py:177-189 | Adds a missing definition, rejects one that differs in normal form, otherwise writes nothing |
| `Initializer.EnsureDefinitions` | services/servicegraph-indexer/src/servicegraph_indexer/initialize.py:177-189 | All definitions in order, stopping where one fails |
| `Initializer.EnsureGraph` | services/servicegraph-indexer/src/servicegraph_indexer/initialize.py:167-189 | Creates a missing graph complete with its definitions; otherwise rejects unexpected definitions and adds missing ones |
| `Initializer.TasksSlashFree` | services/servicegraph-indexer/src/servicegraph_indexer/initialize.py:236-243 | Required index names are slash-free if and only if identifying properties are |
| `TopologyRuns.RepeatIsIdleIffSlashFree` | services/servicegraph-indexer/src/servicegraph_indexer/initialize.py:255-271 | For any well-formed requirements, repeating a finished run is idle if and only if no required index name has a slash |
| `TopologyRuns.ResumeReachesTheSame` | services/servicegraph-indexer/src/servicegraph_indexer/initialize.py:150-190 | For any well-formed requirements, resuming from any prefix reaches the same outcome if and only if no index name required in that prefix has a slash |
| `TopologyRuns.RewriteIsAlike` | services/servicegraph-indexer/src/servicegraph_indexer/initialize.py:247-271 | Repeating met requirements writes exactly the indexes with a slash again, where no lookup notices |
| `TopologyRuns.RunAlike` | services/servicegraph-indexer/src/servicegraph_indexer/initialize.py:150-190 | Databases that differ only in repeated indexes no lookup reaches answer every run alike and stay as far apart as they were |
| `TopologyRuns.RunMeetsAll` | services/servicegraph-indexer/src/servicegraph_indexer/initialize.py:150-190 | A run that returns has met every requirement, when each can be found again |
| `TopologyRuns.RunMeetsFindable` | services/servicegraph-indexer/src/servicegraph_indexer/initialize.py:150-190 | A run that returns has met every requirement that can be found again, whatever the others are |
| `TopologyRuns.EnsureKeepsMet` | services/servicegraph-indexer/src/servicegraph_indexer/initialize.py:221-271 | A requirement once met stays met |
| `TopologyRuns.RunIsAdditive` | services/servicegraph-indexer/src/servicegraph_indexer/initialize.py:150-190 | Any run only adds to the database |
| `Topology.WriteMeets` | services/servicegraph-indexer/src/servicegraph_indexer/initialize.py:255-271 | One write meets a requirement if and only if it is not for an index whose name has a slash |
| `Topology.SlashedNeverFound` | services/servicegraph-indexer/src/servicegraph_indexer/initialize.py:255-258 | An index name with a slash is never found, whatever the database lists |
| `Topology.NormalizeTwice` | services/servicegraph-indexer/src/servicegraph_indexer/initialize.py:289-294 | Normalizing a definition is idempotent |
| `TopologyResult.SameNormalForm` | services/servicegraph-indexer/src/servicegraph_indexer/initialize.py:289-294 | Definitions with one normal form have the same name and join the same collections, in whatever order |
| `TopologyResult.BaseNameFollowsSlash` | services/servicegraph-indexer/src/servicegraph_indexer/initialize.py:256 | The base name of an index is what follows the last slash |

## Left out

- Overflow: integers are unbounded, so the exceptions of `addExact`, `multiplyExact` and `longValueExact` do not arise.
- String order is by Unicode scalar value; Java's differs from it only for supplementary characters. Unpaired surrogates do not exist in the model, so their rejection does not either.
- Attribute values are their JSON text: numeric types with the same text are not told apart, and serialization errors do not occur.
- Trimming and validation in the constructors of the model records, and CBOR state serialization.
- Field selection, validation and enum matching in `extract`, `supportsEntity`, attribute prefixes, connection-type normalization, and the contributor digests: `Extraction` starts from the entities they yield.
- The datapoint loop of `parse`, `discovery`'s one contributor per element, and the sorted order in which a datapoint's elements are listed.
- Coalescer.ContributionCoalescer.ProcessElement: promises nothing about the cells when an edge endpoint has no type, because the job then restarts from its checkpoint.
- Checkpointing, watermark generation, duplicate delivery by the sink and the wiring of the streaming job.
- Identity.EdgeIdInjective: about an injective text standing in for the SHA-256 digest, because collision freedom is an assumption here.
- Which of its exceptions an unwritable event raises is in the body of `Documents.ToDocument` only; callers see one error type.
- Decoding and contract validation of event records are one case, `Unreadable`; metadata fields of a document are one opaque envelope.
- Rebalancing between several consumers: polls of one consumer are modelled, with any batch boundaries.
- Projector.Writer.ReplaceMany and the other writer and server calls stand for client libraries; network retries and timeouts are left to the callers' failure cases.
- The error for an edge definition without a name, index deduplication by the server, and waiting for the database.
- Metrics counters, logging, configuration parsing apart from the interval rule, deployment commands, demo traffic and generated schema code.

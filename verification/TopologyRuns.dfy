/** Sequences of requirements: repeating a run, and resuming an interrupted one. */
module TopologyRuns {
  import opened Topology

  /** Each requirement in turn, until one is blocked. */
  function RunTasks(tasks: seq<Task>, db: Db): Outcome {
    if tasks == [] then Done(db, false)
    else
      match RunTasks(tasks[..|tasks| - 1], db)
      case Stopped(d, error) => Stopped(d, error)
      case Done(d, changed) =>
        var last := tasks[|tasks| - 1];
        if !Applicable(last, d) then Stopped(d, SubjectMissing)
        else
          match Ensure(last, d)
          case Stopped(e, error) => Stopped(e, error)
          case Done(e, wrote) => Done(e, changed || wrote)
  }

  function Then(first: Outcome, second: Outcome): Outcome {
    if first.Done? && second.Done? then Done(second.db, first.changed || second.changed) else second
  }

  lemma {:induction false} RunSplit(a: seq<Task>, b: seq<Task>, db: Db)
    ensures RunTasks(a + b, db) ==
      if RunTasks(a, db).Stopped? then RunTasks(a, db) else Then(RunTasks(a, db), RunTasks(b, RunTasks(a, db).db))
    decreases |b|
  {
    if b == [] {
      assert a + b == a;
    } else {
      var front := b[..|b| - 1];
      assert (a + b)[..|a + b| - 1] == a + front;
      RunSplit(a, front, db);
    }
  }

  predicate Holds(task: Task, db: Db) {
    Applicable(task, db) && Check(task, db) == Met
  }

  predicate AllHold(tasks: seq<Task>, db: Db) {
    forall task | task in tasks :: Holds(task, db)
  }

  /** No definition is asked for that the graph requirement would call unexpected. */
  predicate Friendly(a: Task, b: Task) {
    a.NeedGraph? && b.NeedDefinition? && a.graph == b.graph ==> b.definition.name in ByName(a.definitions)
  }

  predicate AllFriendly(tasks: seq<Task>) {
    forall a, b | a in tasks && b in tasks :: Friendly(a, b)
  }

  predicate AllFindable(tasks: seq<Task>) {
    forall task | task in tasks :: Findable(task)
  }

  /** A requirement once met stays met. */
  lemma EnsureKeepsMet(a: Task, b: Task, db: Db)
    requires Holds(a, db) && Applicable(b, db) && Friendly(a, b)
    ensures Holds(a, Ensure(b, db).db)
  {
    if a.NeedIndex? && b.NeedIndex? && a.name == b.name {
      FindIndexAppend(db.collections[a.name].indexes, [b.index], a.index.name);
    }
    if b.NeedDefinition? && (a.NeedDefinition? || a.NeedGraph?) && a.graph == b.graph {
      ByNameAppend(db.graphs[a.graph].definitions, b.definition);
    }
  }

  lemma EnsureMeets(task: Task, db: Db)
    requires Applicable(task, db) && Findable(task) && Ensure(task, db).Done?
    ensures Holds(task, Ensure(task, db).db)
  {
    if Check(task, db) == Missing { WriteMeets(task, db); }
  }

  /** A run that returns has met every requirement that can be found again. */
  lemma {:induction false} RunMeetsFindable(tasks: seq<Task>, db: Db)
    requires AllFriendly(tasks) && RunTasks(tasks, db).Done?
    ensures forall task | task in tasks && Findable(task) :: Holds(task, RunTasks(tasks, db).db)
  {
    if tasks != [] {
      var front, last := tasks[..|tasks| - 1], tasks[|tasks| - 1];
      assert last in tasks && forall task | task in front :: task in tasks;
      RunMeetsFindable(front, db);
      var d := RunTasks(front, db).db;
      if Findable(last) { EnsureMeets(last, d); }
      forall task | task in tasks && Findable(task) ensures Holds(task, RunTasks(tasks, db).db) {
        if task in front { EnsureKeepsMet(task, last, d); } else { assert task == last; }
      }
    }
  }

  lemma RunMeetsAll(tasks: seq<Task>, db: Db)
    requires AllFindable(tasks) && AllFriendly(tasks) && RunTasks(tasks, db).Done?
    ensures AllHold(tasks, RunTasks(tasks, db).db)
  {
    RunMeetsFindable(tasks, db);
  }

  lemma {:induction false} MetRunsIdle(tasks: seq<Task>, db: Db)
    requires AllHold(tasks, db)
    ensures RunTasks(tasks, db) == Done(db, false)
  {
    if tasks != [] {
      assert tasks[|tasks| - 1] in tasks && forall task | task in tasks[..|tasks| - 1] :: task in tasks;
      MetRunsIdle(tasks[..|tasks| - 1], db);
    }
  }

  lemma {:induction false} IdleRunIsMet(tasks: seq<Task>, db: Db)
    requires RunTasks(tasks, db).Done? && !RunTasks(tasks, db).changed
    ensures RunTasks(tasks, db).db == db && AllHold(tasks, db)
  {
    if tasks != [] { IdleRunIsMet(tasks[..|tasks| - 1], db); }
  }

  predicate SlashFree(tasks: seq<Task>) {
    forall task | task in tasks && task.NeedIndex? :: '/' !in task.index.name
  }

  /** Well-formed apart from the spelling of index names. */
  predicate WellFormed(tasks: seq<Task>) {
    && AllFriendly(tasks)
    && forall task | task in tasks ::
      && (task.NeedIndex? ==> task.index.fields.Some?)
      && (task.NeedDefinition? ==> Normalize(task.definition) == task.definition)
  }

  /** After a run that returns, the next writes nothing exactly when no required index name has a slash. */
  lemma RepeatIsIdleIffSlashFree(tasks: seq<Task>, db: Db)
    requires WellFormed(tasks) && RunTasks(tasks, db).Done?
    ensures var after := RunTasks(tasks, db).db;
      RunTasks(tasks, after) == Done(after, false) <==> SlashFree(tasks)
  {
    var after := RunTasks(tasks, db).db;
    if SlashFree(tasks) {
      assert AllFindable(tasks);
      RunMeetsAll(tasks, db);
      MetRunsIdle(tasks, after);
    }
    if RunTasks(tasks, after) == Done(after, false) {
      IdleRunIsMet(tasks, after);
      forall task | task in tasks && task.NeedIndex? ensures '/' !in task.index.name {
        if '/' in task.index.name { SlashedNeverFound(after.collections[task.name].indexes, task.index.name); }
      }
    }
  }

  predicate SameOutcome(a: Outcome, b: Outcome) {
    a.db == b.db && (a.Stopped? <==> b.Stopped?) && (a.Stopped? ==> a.error == b.error)
  }

  lemma WellFormedPart(tasks: seq<Task>, part: seq<Task>)
    requires WellFormed(tasks) && forall task | task in part :: task in tasks
    ensures WellFormed(part)
  {
  }

  // ----- writing what is there already -----

  /** The same database, except for repeated indexes that no lookup reaches. */
  ghost predicate Alike(a: Db, b: Db) {
    && a.graphs == b.graphs && a.collections.Keys == b.collections.Keys
    && forall n | n in a.collections ::
      && a.collections[n].kind == b.collections[n].kind && a.collections[n].keys == b.collections[n].keys
      && |a.collections[n].indexes| <= |b.collections[n].indexes|
      && SameLookups(a.collections[n].indexes, b.collections[n].indexes)
  }

  ghost predicate SameLookups(a: seq<Index>, b: seq<Index>) {
    forall name :: FindIndex(a, name) == FindIndex(b, name)
  }

  lemma LookupsAppend(a: seq<Index>, b: seq<Index>, index: Index)
    requires SameLookups(a, b)
    ensures SameLookups(a + [index], b + [index])
  {
    forall name ensures FindIndex(a + [index], name) == FindIndex(b + [index], name) {
      FindIndexAppend(a, [index], name);
      FindIndexAppend(b, [index], name);
    }
  }

  /** Alike databases answer a requirement alike and stay as far apart as they were. */
  lemma EnsureAlike(task: Task, a: Db, b: Db, n: string)
    requires Alike(a, b) && Applicable(task, a) && n in a.collections
    ensures Applicable(task, b) && Check(task, a) == Check(task, b)
    ensures Alike(Ensure(task, a).db, Ensure(task, b).db)
    ensures n in Ensure(task, a).db.collections && n in Ensure(task, b).db.collections
    ensures |b.collections[n].indexes| - |a.collections[n].indexes|
      == |Ensure(task, b).db.collections[n].indexes| - |Ensure(task, a).db.collections[n].indexes|
  {
    if task.NeedIndex? {
      LookupsAppend(a.collections[task.name].indexes, b.collections[task.name].indexes, task.index);
    }
  }

  lemma {:induction false} RunAlike(tasks: seq<Task>, a: Db, b: Db, n: string)
    requires Alike(a, b) && n in a.collections
    ensures var x, y := RunTasks(tasks, a), RunTasks(tasks, b);
      && Alike(x.db, y.db) && n in x.db.collections
      && (x.Stopped? <==> y.Stopped?) && (x.Stopped? ==> x.error == y.error)
      && |b.collections[n].indexes| - |a.collections[n].indexes|
        == |y.db.collections[n].indexes| - |x.db.collections[n].indexes|
  {
    if tasks != [] {
      var front, last := tasks[..|tasks| - 1], tasks[|tasks| - 1];
      RunAlike(front, a, b, n);
      var x, y := RunTasks(front, a), RunTasks(front, b);
      if x.Done? && Applicable(last, x.db) { EnsureAlike(last, x.db, y.db, n); }
    }
  }

  /** An index whose name has a slash: it was written once and can only be found under its base name. */
  predicate Unfindable(task: Task, db: Db) {
    && task.NeedIndex? && '/' in task.index.name && task.name in db.collections
    && FindIndex(db.collections[task.name].indexes, BaseName(task.index.name)).Some?
  }

  /** Met, or asking for an index that is there but cannot be found. */
  predicate Present(task: Task, db: Db) {
    Holds(task, db) || Unfindable(task, db)
  }

  lemma PresentAlike(task: Task, a: Db, b: Db)
    requires Alike(a, b) && Present(task, a)
    ensures Present(task, b)
  {
  }

  /** Repeating a present requirement changes nothing that a lookup could notice. */
  lemma EnsurePresent(task: Task, db: Db)
    requires Present(task, db)
    ensures Ensure(task, db).Done? && Alike(db, Ensure(task, db).db)
    ensures Unfindable(task, db) ==>
      |Ensure(task, db).db.collections[task.name].indexes| == |db.collections[task.name].indexes| + 1
  {
    if Unfindable(task, db) {
      var indexes := db.collections[task.name].indexes;
      SlashedNeverFound(indexes, task.index.name);
      forall name ensures FindIndex(indexes, name) == FindIndex(indexes + [task.index], name) {
        FindIndexAppend(indexes, [task.index], name);
        assert [task.index][1..] == [];
      }
      assert SameLookups(indexes, indexes + [task.index]);
    }
  }

  lemma AlikeTransitive(a: Db, b: Db, c: Db)
    requires Alike(a, b) && Alike(b, c)
    ensures Alike(a, c)
  {
  }

  /** Repeating present requirements writes exactly the unfindable ones again. */
  lemma {:induction false} RewriteIsAlike(tasks: seq<Task>, db: Db)
    requires forall task | task in tasks :: Present(task, db)
    ensures RunTasks(tasks, db).Done? && Alike(db, RunTasks(tasks, db).db)
    ensures forall task | task in tasks && Unfindable(task, db) ::
      |RunTasks(tasks, db).db.collections[task.name].indexes| > |db.collections[task.name].indexes|
  {
    if tasks != [] {
      var front, last := tasks[..|tasks| - 1], tasks[|tasks| - 1];
      assert last in tasks && forall task | task in front :: task in tasks;
      RewriteIsAlike(front, db);
      var d := RunTasks(front, db).db;
      PresentAlike(last, db, d);
      EnsurePresent(last, d);
      AlikeTransitive(db, d, Ensure(last, d).db);
    }
  }

  /** A run that returns leaves each requirement met or its index unfindable. */
  lemma {:induction false} RunMakesPresent(tasks: seq<Task>, db: Db)
    requires WellFormed(tasks) && RunTasks(tasks, db).Done?
    ensures forall task | task in tasks :: Present(task, RunTasks(tasks, db).db)
    ensures forall task | task in tasks && task.NeedIndex? && '/' in task.index.name ::
      Unfindable(task, RunTasks(tasks, db).db)
  {
    RunMeetsFindable(tasks, db);
    forall task | task in tasks && task.NeedIndex? && '/' in task.index.name
      ensures Unfindable(task, RunTasks(tasks, db).db)
    {
      RunWritesSlashed(tasks, db, task);
    }
  }

  lemma {:induction false} RunWritesSlashed(tasks: seq<Task>, db: Db, task: Task)
    requires RunTasks(tasks, db).Done? && task in tasks && task.NeedIndex? && '/' in task.index.name
    ensures Unfindable(task, RunTasks(tasks, db).db)
  {
    var front, last := tasks[..|tasks| - 1], tasks[|tasks| - 1];
    var d := RunTasks(front, db).db;
    if task == last {
      var indexes := d.collections[task.name].indexes;
      SlashedNeverFound(indexes, task.index.name);
      FindIndexAppend(indexes, [task.index], BaseName(task.index.name));
    } else {
      RunWritesSlashed(front, db, task);
      EnsureKeepsUnfindable(task, last, d);
    }
  }

  lemma EnsureKeepsUnfindable(task: Task, other: Task, db: Db)
    requires Unfindable(task, db) && Applicable(other, db)
    ensures Unfindable(task, Ensure(other, db).db)
  {
    if other.NeedIndex? && other.name == task.name {
      FindIndexAppend(db.collections[task.name].indexes, [other.index], BaseName(task.index.name));
    }
  }

  /**
   A run cut off after any number of requirements and then repeated ends like an uninterrupted one exactly when
   no index name required before the cut has a slash; such an index is written once more.
   */
  lemma ResumeReachesTheSame(tasks: seq<Task>, k: nat, db: Db)
    requires WellFormed(tasks) && k <= |tasks| && RunTasks(tasks[..k], db).Done?
    ensures SameOutcome(RunTasks(tasks, RunTasks(tasks[..k], db).db), RunTasks(tasks, db)) <==> SlashFree(tasks[..k])
  {
    var a, b := tasks[..k], tasks[k..];
    assert tasks == a + b;
    assert forall task | task in a :: task in tasks;
    WellFormedPart(tasks, a);
    var partial := RunTasks(a, db).db;
    RunSplit(a, b, db);
    RunSplit(a, b, partial);
    if SlashFree(a) {
      RunMeetsAll(a, db);
      MetRunsIdle(a, partial);
    } else {
      var task :| task in a && task.NeedIndex? && '/' in task.index.name;
      RunMakesPresent(a, db);
      RewriteIsAlike(a, partial);
      assert Unfindable(task, partial);
      RunAlike(b, partial, RunTasks(a, partial).db, task.name);
    }
  }

  lemma {:induction false} RunIsAdditive(tasks: seq<Task>, db: Db)
    ensures Additive(db, RunTasks(tasks, db).db)
  {
    if tasks != [] {
      RunIsAdditive(tasks[..|tasks| - 1], db);
      var before := RunTasks(tasks[..|tasks| - 1], db);
      if before.Done? && Applicable(tasks[|tasks| - 1], before.db) {
        EnsureIsAdditive(tasks[|tasks| - 1], before.db);
        AdditiveTransitive(db, before.db, Ensure(tasks[|tasks| - 1], before.db).db);
      }
    }
  }

  lemma AdditiveTransitive(a: Db, b: Db, c: Db)
    requires Additive(a, b) && Additive(b, c)
    ensures Additive(a, c)
  {
    forall n | n in a.collections ensures n in c.collections && Extends(a.collections[n], c.collections[n]) {
      assert Extends(a.collections[n], b.collections[n]) && Extends(b.collections[n], c.collections[n]);
    }
  }

  // ----- a subject is required before anything is added to it -----

  predicate Provides(earlier: Task, later: Task) {
    match later
    case NeedKey(name, _) => earlier.NeedCollection? && earlier.name == name
    case NeedIndex(name, _) => earlier.NeedCollection? && earlier.name == name
    case NeedDefinition(graph, _) => earlier.NeedGraph? && earlier.graph == graph
    case _ => true
  }

  predicate NeedsNothing(task: Task) {
    task.NeedCollection? || task.NeedGraph?
  }

  predicate GroundedAt(tasks: seq<Task>, i: nat)
    requires i < |tasks|
  {
    NeedsNothing(tasks[i]) || exists j :: 0 <= j < i && Provides(tasks[j], tasks[i])
  }

  predicate Grounded(tasks: seq<Task>) {
    forall i | 0 <= i < |tasks| :: GroundedAt(tasks, i)
  }

  lemma GroundedConcat(a: seq<Task>, b: seq<Task>)
    requires Grounded(a) && Grounded(b)
    ensures Grounded(a + b)
  {
    forall i | 0 <= i < |a + b| ensures GroundedAt(a + b, i) {
      if i < |a| {
        assert GroundedAt(a, i);
        if !NeedsNothing(a[i]) {
          var j :| 0 <= j < i && Provides(a[j], a[i]);
          assert Provides((a + b)[j], (a + b)[i]);
        }
      } else {
        assert GroundedAt(b, i - |a|);
        if !NeedsNothing(b[i - |a|]) {
          var j :| 0 <= j < i - |a| && Provides(b[j], b[i - |a|]);
          assert Provides((a + b)[|a| + j], (a + b)[i]);
        }
      }
    }
  }

  /** What a run that returned has made available. */
  lemma {:induction false} RunProvides(tasks: seq<Task>, db: Db, j: nat)
    requires j < |tasks| && RunTasks(tasks, db).Done?
    ensures tasks[j].NeedCollection? ==> tasks[j].name in RunTasks(tasks, db).db.collections
    ensures tasks[j].NeedGraph? ==> tasks[j].graph in RunTasks(tasks, db).db.graphs
    decreases |tasks|
  {
    var front, last := tasks[..|tasks| - 1], tasks[|tasks| - 1];
    var d := RunTasks(front, db).db;
    EnsureIsAdditive(last, d);
    if j < |front| { RunProvides(front, db, j); }
  }

  lemma {:induction false} GroundedRun(tasks: seq<Task>, db: Db)
    requires Grounded(tasks)
    ensures RunTasks(tasks, db).Stopped? ==> RunTasks(tasks, db).error != SubjectMissing
  {
    if tasks != [] {
      var front, last := tasks[..|tasks| - 1], tasks[|tasks| - 1];
      assert GroundedAt(tasks, |front|);
      forall i | 0 <= i < |front| ensures GroundedAt(front, i) {
        assert GroundedAt(tasks, i);
        if !NeedsNothing(front[i]) {
          var j :| 0 <= j < i && Provides(tasks[j], tasks[i]);
          assert Provides(front[j], front[i]);
        }
      }
      GroundedRun(front, db);
      if RunTasks(front, db).Done? && !NeedsNothing(last) {
        var j :| 0 <= j < |front| && Provides(tasks[j], last);
        RunProvides(front, db, j);
      }
    }
  }
}

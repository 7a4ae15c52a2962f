/** initialize.py: `ensure_topology` against a server whose writes may be cut off. */
module Initializer {
  import opened Wrappers
  import opened Topology
  import opened TopologyRuns

  // ----- the generated schema and what it requires -----

  datatype Vertex = Vertex(collection: string, identifying: seq<string>)

  datatype Schema = Schema(vertices: seq<Vertex>, edges: seq<Definition>)

  const VARIABLES := "TINKERPOP-GRAPH-VARIABLES"
  const ELEMENT_INDEX := Index("sg_element_id", Some(["element_id"]), true, false)

  function IdentityIndex(property: string): Index {
    Index("sg_identity_" + property, Some([property]), false, true)
  }

  function VariablesTasks(graph: string): seq<Task> {
    [NeedCollection(VARIABLES, DocumentCollection), NeedKey(VARIABLES, graph)]
  }

  function IdentityTasks(collection: string, properties: seq<string>): seq<Task> {
    seq(|properties|, i requires 0 <= i < |properties| => NeedIndex(collection, IdentityIndex(properties[i])))
  }

  function VertexTasks(v: Vertex): seq<Task> {
    [NeedCollection(v.collection, DocumentCollection), NeedIndex(v.collection, ELEMENT_INDEX)]
    + IdentityTasks(v.collection, v.identifying)
  }

  function AllVertexTasks(vertices: seq<Vertex>): seq<Task> {
    if vertices == [] then []
    else AllVertexTasks(vertices[..|vertices| - 1]) + VertexTasks(vertices[|vertices| - 1])
  }

  function EdgeTasks(e: Definition): seq<Task> {
    [NeedCollection(e.name, EdgeCollection), NeedIndex(e.name, ELEMENT_INDEX)]
  }

  function AllEdgeTasks(edges: seq<Definition>): seq<Task> {
    if edges == [] then [] else AllEdgeTasks(edges[..|edges| - 1]) + EdgeTasks(edges[|edges| - 1])
  }

  function CollectionTasks(schema: Schema, graph: string): seq<Task> {
    VariablesTasks(graph) + AllVertexTasks(schema.vertices) + AllEdgeTasks(schema.edges)
  }

  /** Vertex collections that no edge definition mentions. */
  function Orphans(schema: Schema): set<string> {
    set v | v in schema.vertices && !exists e ::
      e in schema.edges && (v.collection in e.sources || v.collection in e.targets)
      :: v.collection
  }

  function DefinitionTask(schema: Schema, graph: string, i: nat): Task
    requires i < |schema.edges|
  {
    NamesKnown(schema.edges);
    NeedDefinition(graph, ByName(schema.edges)[schema.edges[i].name])
  }

  function DefinitionTasks(schema: Schema, graph: string): seq<Task> {
    seq(|schema.edges|, i requires 0 <= i < |schema.edges| => DefinitionTask(schema, graph, i))
  }

  function GraphTasks(schema: Schema, graph: string): seq<Task> {
    [NeedGraph(graph, schema.edges, Orphans(schema))] + DefinitionTasks(schema, graph)
  }

  function Tasks(schema: Schema, graph: string): seq<Task> {
    CollectionTasks(schema, graph) + GraphTasks(schema, graph)
  }

  lemma {:induction false} NamesKnown(definitions: seq<Definition>)
    ensures forall i | 0 <= i < |definitions| :: definitions[i].name in ByName(definitions)
    ensures forall n | n in ByName(definitions) :: Normalize(ByName(definitions)[n]) == ByName(definitions)[n]
  {
    if definitions != [] {
      var front, last := definitions[..|definitions| - 1], definitions[|definitions| - 1];
      NamesKnown(front);
      NormalizeTwice(last);
      forall i | 0 <= i < |definitions| ensures definitions[i].name in ByName(definitions) {
        if i < |front| { assert front[i] == definitions[i]; }
      }
    }
  }

  // ----- the requirements are well formed -----

  predicate PlainNames(schema: Schema) {
    forall v, p | v in schema.vertices && p in v.identifying :: '/' !in p
  }

  lemma {:induction false} VertexTaskKinds(vertices: seq<Vertex>)
    ensures forall task | task in AllVertexTasks(vertices) ::
      task.NeedCollection? || (task.NeedIndex? && task.index.fields.Some?)
    ensures forall task | task in AllVertexTasks(vertices) && task.NeedIndex? ::
      task.index == ELEMENT_INDEX || exists v, p ::
        v in vertices && p in v.identifying && task.index == IdentityIndex(p)
    ensures forall v, p | v in vertices && p in v.identifying ::
      NeedIndex(v.collection, IdentityIndex(p)) in AllVertexTasks(vertices)
  {
    if vertices != [] {
      var front, last := vertices[..|vertices| - 1], vertices[|vertices| - 1];
      VertexTaskKinds(front);
      assert last in vertices && forall v | v in front :: v in vertices;
      forall v, p | v in vertices && p in v.identifying
        ensures NeedIndex(v.collection, IdentityIndex(p)) in AllVertexTasks(vertices)
      {
        if v == last {
          var i :| 0 <= i < |last.identifying| && last.identifying[i] == p;
          assert IdentityTasks(last.collection, last.identifying)[i] == NeedIndex(v.collection, IdentityIndex(p));
          assert NeedIndex(v.collection, IdentityIndex(p)) in VertexTasks(last);
        } else {
          assert v in front;
        }
      }
    }
  }

  lemma {:induction false} EdgeTaskKinds(edges: seq<Definition>)
    ensures forall task | task in AllEdgeTasks(edges) ::
      task.NeedCollection? || (task.NeedIndex? && task.index == ELEMENT_INDEX)
  {
    if edges != [] { EdgeTaskKinds(edges[..|edges| - 1]); }
  }

  lemma GraphTasksWellFormed(schema: Schema, graph: string, task: Task)
    requires task in GraphTasks(schema, graph)
    ensures !task.NeedIndex?
    ensures task.NeedGraph? ==> task.definitions == schema.edges
    ensures task.NeedDefinition? ==>
      Normalize(task.definition) == task.definition && task.definition.name in ByName(schema.edges)
  {
    NamesKnown(schema.edges);
    if task in DefinitionTasks(schema, graph) {
      var i :| 0 <= i < |schema.edges| && DefinitionTasks(schema, graph)[i] == task;
    }
  }

  lemma TaskKinds(schema: Schema, graph: string, task: Task)
    requires task in Tasks(schema, graph)
    ensures task.NeedIndex? ==> task.index.fields.Some?
    ensures task.NeedGraph? ==> task.definitions == schema.edges
    ensures task.NeedDefinition? ==>
      Normalize(task.definition) == task.definition && task.definition.name in ByName(schema.edges)
  {
    if task in GraphTasks(schema, graph) {
      GraphTasksWellFormed(schema, graph, task);
    } else {
      VertexTaskKinds(schema.vertices);
      EdgeTaskKinds(schema.edges);
    }
  }

  lemma TasksWellFormed(schema: Schema, graph: string)
    ensures TopologyRuns.WellFormed(Tasks(schema, graph))
  {
    forall task | task in Tasks(schema, graph)
      ensures task.NeedIndex? ==> task.index.fields.Some?
      ensures task.NeedGraph? ==> task.definitions == schema.edges
      ensures task.NeedDefinition? ==>
        Normalize(task.definition) == task.definition && task.definition.name in ByName(schema.edges)
    {
      TaskKinds(schema, graph, task);
    }
  }

  /** The required index names are free of slashes exactly when the identifying properties are. */
  lemma TasksSlashFree(schema: Schema, graph: string)
    ensures SlashFree(Tasks(schema, graph)) <==> PlainNames(schema)
  {
    VertexTaskKinds(schema.vertices);
    EdgeTaskKinds(schema.edges);
    if SlashFree(Tasks(schema, graph)) {
      forall v, p | v in schema.vertices && p in v.identifying ensures '/' !in p {
        var task := NeedIndex(v.collection, IdentityIndex(p));
        assert task in Tasks(schema, graph);
        assert forall c | c in p :: c in "sg_identity_" + p;
      }
    }
  }

  // ----- the server -----

  /** The database server. A write may be cut off before or after it takes effect. */
  class Server {
    var db: Db

    method Perform(task: Task) returns (ok: bool)
      requires Applicable(task, db)
      modifies this
      ensures db == old(db) || db == Write(task, old(db))
      ensures ok ==> db == Write(task, old(db))
    {
      if * { return false; }
      db := Write(task, db);
      ok := *;
    }
  }

  /** How a step ends: met (and whether it wrote), found something incompatible, or was cut off. */
  datatype Reply = Settled(changed: bool) | Incompatible(error: TopologyError) | Interrupted

  /** The step did what the requirements say, in order; a cut-off step did a prefix of them. */
  ghost predicate Follows(tasks: seq<Task>, before: Db, after: Db, reply: Reply) {
    match reply
    case Settled(changed) => RunTasks(tasks, before) == Done(after, changed)
    case Incompatible(error) => RunTasks(tasks, before) == Stopped(after, error)
    case Interrupted => exists k: nat :: Prefix(tasks, before, after, k)
  }

  predicate Prefix(tasks: seq<Task>, before: Db, after: Db, k: nat) {
    k <= |tasks| && RunTasks(tasks[..k], before).Done? && RunTasks(tasks[..k], before).db == after
  }

  function Either(first: bool, second: Reply): Reply {
    if second.Settled? then Settled(first || second.changed) else second
  }

  /** Steps in sequence. */
  lemma FollowsThen(a: seq<Task>, b: seq<Task>, d0: Db, d1: Db, d2: Db, changed: bool, reply: Reply)
    requires Follows(a, d0, d1, Settled(changed)) && Follows(b, d1, d2, reply)
    ensures Follows(a + b, d0, d2, Either(changed, reply))
  {
    RunSplit(a, b, d0);
    if reply.Interrupted? {
      var k: nat :| Prefix(b, d1, d2, k);
      RunSplit(a, b[..k], d0);
      assert (a + b)[..|a| + k] == a + b[..k];
      assert Prefix(a + b, d0, d2, |a| + k);
    }
  }

  /** A step that does not settle ends the sequence, whatever was still to come. */
  lemma FollowsEnd(a: seq<Task>, all: seq<Task>, d0: Db, d1: Db, reply: Reply)
    requires Follows(a, d0, d1, reply) && !reply.Settled? && a <= all
    ensures Follows(all, d0, d1, reply)
  {
    assert all == a + all[|a|..];
    RunSplit(a, all[|a|..], d0);
    if reply.Interrupted? {
      var k: nat :| Prefix(a, d0, d1, k);
      assert all[..k] == a[..k];
      assert Prefix(all, d0, d1, k);
    }
  }

  /** After settling on a collection it is there, and stays there. */
  lemma CollectionStays(tasks: seq<Task>, d0: Db, d1: Db, changed: bool, name: string)
    requires Follows(tasks, d0, d1, Settled(changed)) && name in d0.collections
    ensures name in d1.collections
  {
    RunIsAdditive(tasks, d0);
  }

  lemma CollectionCreated(name: string, kind: CollectionKind, d0: Db, d1: Db, changed: bool)
    requires Follows([NeedCollection(name, kind)], d0, d1, Settled(changed))
    ensures name in d1.collections
  {
    SingleTask(NeedCollection(name, kind), d0);
  }

  lemma SingleTask(task: Task, db: Db)
    requires Applicable(task, db)
    ensures RunTasks([task], db) == Ensure(task, db)
    ensures RunTasks([], db) == Done(db, false)
    ensures [task][..0] == [] && [task][..1] == [task]
  {
    assert [task][..0] == [];
  }

  /** The write of a missing requirement. */
  method Add(server: Server, task: Task) returns (reply: Reply)
    requires Applicable(task, server.db) && Check(task, server.db) == Missing
    modifies server
    ensures Follows([task], old(server.db), server.db, reply) && !reply.Incompatible?
  {
    ghost var before := server.db;
    SingleTask(task, before);
    var ok := server.Perform(task);
    if !ok {
      assert Prefix([task], before, server.db, if server.db == before then 0 else 1);
      return Interrupted;
    }
    return Settled(true);
  }

  method EnsureCollection(server: Server, name: string, kind: CollectionKind) returns (reply: Reply)
    modifies server
    ensures Follows([NeedCollection(name, kind)], old(server.db), server.db, reply)
  {
    SingleTask(NeedCollection(name, kind), server.db);
    if name !in server.db.collections {
      reply := Add(server, NeedCollection(name, kind));
      return;
    }
    if server.db.collections[name].kind != kind { return Incompatible(WrongKind(name)); }
    return Settled(false);
  }

  method EnsureIndex(server: Server, collection: string, wanted: Index) returns (reply: Reply)
    requires collection in server.db.collections
    modifies server
    ensures Follows([NeedIndex(collection, wanted)], old(server.db), server.db, reply)
  {
    var task := NeedIndex(collection, wanted);
    SingleTask(task, server.db);
    var indexes := server.db.collections[collection].indexes;
    for i := 0 to |indexes|
      invariant server.db == old(server.db)
      invariant FindIndex(indexes, wanted.name) == FindIndex(indexes[i..], wanted.name)
    {
      var index := indexes[i];
      if BaseName(index.name) != wanted.name { continue; }
      if index.fields.None? { return Incompatible(InvalidFields(wanted.name)); }
      if !SameIndex(index, wanted) { return Incompatible(IncompatibleIndex(wanted.name)); }
      return Settled(false);
    }
    reply := Add(server, task);
  }

  method EnsureVariables(server: Server, graph: string) returns (reply: Reply)
    modifies server
    ensures Follows(VariablesTasks(graph), old(server.db), server.db, reply)
  {
    ghost var d0 := server.db;
    var collection, key := NeedCollection(VARIABLES, DocumentCollection), NeedKey(VARIABLES, graph);
    assert VariablesTasks(graph) == [collection] + [key];
    reply := EnsureCollection(server, VARIABLES, DocumentCollection);
    if !reply.Settled? {
      FollowsEnd([collection], VariablesTasks(graph), d0, server.db, reply);
      return;
    }
    ghost var d1 := server.db;
    CollectionCreated(VARIABLES, DocumentCollection, d0, d1, reply.changed);
    SingleTask(key, d1);
    var changed := reply.changed;
    if graph !in server.db.collections[VARIABLES].keys {
      reply := Add(server, key);
      FollowsThen([collection], [key], d0, d1, server.db, changed, reply);
      return;
    }
    FollowsThen([collection], [key], d0, d1, server.db, changed, Settled(false));
  }

  /** `_ensure_indexes`: the element index, then one per identifying property of a vertex collection. */
  method EnsureIndexes(server: Server, collection: string, properties: seq<string>) returns (reply: Reply)
    requires collection in server.db.collections
    modifies server
    ensures Follows(
      [NeedIndex(collection, ELEMENT_INDEX)] + IdentityTasks(collection, properties), old(server.db), server.db, reply)
  {
    ghost var d0 := server.db;
    ghost var all := [NeedIndex(collection, ELEMENT_INDEX)] + IdentityTasks(collection, properties);
    reply := EnsureIndex(server, collection, ELEMENT_INDEX);
    ghost var first := [NeedIndex(collection, ELEMENT_INDEX)];
    if !reply.Settled? {
      FollowsEnd(first, all, d0, server.db, reply);
      return;
    }
    var changed := reply.changed;
    assert all[..1] == first;
    for i := 0 to |properties|
      invariant Follows(all[..i + 1], d0, server.db, Settled(changed))
    {
      ghost var d1 := server.db;
      CollectionStays(all[..i + 1], d0, d1, changed, collection);
      reply := EnsureIndex(server, collection, IdentityIndex(properties[i]));
      FollowsThen(all[..i + 1], [all[i + 1]], d0, d1, server.db, changed, reply);
      reply := Either(changed, reply);
      assert all[..i + 2] == all[..i + 1] + [all[i + 1]];
      if !reply.Settled? {
        FollowsEnd(all[..i + 2], all, d0, server.db, reply);
        return;
      }
      changed := reply.changed;
    }
    assert all[..|properties| + 1] == all;
    return Settled(changed);
  }

  method EnsureVertex(server: Server, v: Vertex) returns (reply: Reply)
    modifies server
    ensures Follows(VertexTasks(v), old(server.db), server.db, reply)
  {
    ghost var d0 := server.db;
    ghost var first := [NeedCollection(v.collection, DocumentCollection)];
    ghost var rest := [NeedIndex(v.collection, ELEMENT_INDEX)] + IdentityTasks(v.collection, v.identifying);
    assert VertexTasks(v) == first + rest;
    reply := EnsureCollection(server, v.collection, DocumentCollection);
    if !reply.Settled? {
      FollowsEnd(first, VertexTasks(v), d0, server.db, reply);
      return;
    }
    ghost var d1 := server.db;
    var changed := reply.changed;
    CollectionCreated(v.collection, DocumentCollection, d0, d1, changed);
    reply := EnsureIndexes(server, v.collection, v.identifying);
    FollowsThen(first, rest, d0, d1, server.db, changed, reply);
    reply := Either(changed, reply);
  }

  method EnsureEdge(server: Server, e: Definition) returns (reply: Reply)
    modifies server
    ensures Follows(EdgeTasks(e), old(server.db), server.db, reply)
  {
    ghost var d0 := server.db;
    ghost var first, rest := [NeedCollection(e.name, EdgeCollection)], [NeedIndex(e.name, ELEMENT_INDEX)];
    assert EdgeTasks(e) == first + rest;
    reply := EnsureCollection(server, e.name, EdgeCollection);
    if !reply.Settled? {
      FollowsEnd(first, EdgeTasks(e), d0, server.db, reply);
      return;
    }
    ghost var d1 := server.db;
    var changed := reply.changed;
    CollectionCreated(e.name, EdgeCollection, d0, d1, changed);
    reply := EnsureIndexes(server, e.name, []);
    assert rest == [NeedIndex(e.name, ELEMENT_INDEX)] + IdentityTasks(e.name, []);
    FollowsThen(first, rest, d0, d1, server.db, changed, reply);
    reply := Either(changed, reply);
  }

  lemma {:induction false} VertexTasksPrefix(vertices: seq<Vertex>, k: nat)
    requires k <= |vertices|
    ensures AllVertexTasks(vertices[..k]) <= AllVertexTasks(vertices)
    decreases |vertices|
  {
    if k == |vertices| { assert vertices[..k] == vertices; }
    else {
      var front := vertices[..|vertices| - 1];
      assert front[..k] == vertices[..k];
      VertexTasksPrefix(front, k);
    }
  }

  lemma {:induction false} EdgeTasksPrefix(edges: seq<Definition>, k: nat)
    requires k <= |edges|
    ensures AllEdgeTasks(edges[..k]) <= AllEdgeTasks(edges)
    decreases |edges|
  {
    if k == |edges| { assert edges[..k] == edges; }
    else {
      var front := edges[..|edges| - 1];
      assert front[..k] == edges[..k];
      EdgeTasksPrefix(front, k);
    }
  }

  method EnsureVertices(server: Server, vertices: seq<Vertex>) returns (reply: Reply)
    modifies server
    ensures Follows(AllVertexTasks(vertices), old(server.db), server.db, reply)
  {
    ghost var d0 := server.db;
    var changed := false;
    for i := 0 to |vertices|
      invariant Follows(AllVertexTasks(vertices[..i]), d0, server.db, Settled(changed))
    {
      ghost var d1 := server.db;
      assert vertices[..i + 1][..i] == vertices[..i];
      reply := EnsureVertex(server, vertices[i]);
      FollowsThen(AllVertexTasks(vertices[..i]), VertexTasks(vertices[i]), d0, d1, server.db, changed, reply);
      reply := Either(changed, reply);
      if !reply.Settled? {
        VertexTasksPrefix(vertices, i + 1);
        FollowsEnd(AllVertexTasks(vertices[..i + 1]), AllVertexTasks(vertices), d0, server.db, reply);
        return;
      }
      changed := reply.changed;
    }
    assert vertices[..|vertices|] == vertices;
    return Settled(changed);
  }

  method EnsureEdges(server: Server, edges: seq<Definition>) returns (reply: Reply)
    modifies server
    ensures Follows(AllEdgeTasks(edges), old(server.db), server.db, reply)
  {
    ghost var d0 := server.db;
    var changed := false;
    for i := 0 to |edges|
      invariant Follows(AllEdgeTasks(edges[..i]), d0, server.db, Settled(changed))
    {
      ghost var d1 := server.db;
      assert edges[..i + 1][..i] == edges[..i];
      reply := EnsureEdge(server, edges[i]);
      FollowsThen(AllEdgeTasks(edges[..i]), EdgeTasks(edges[i]), d0, d1, server.db, changed, reply);
      reply := Either(changed, reply);
      if !reply.Settled? {
        EdgeTasksPrefix(edges, i + 1);
        FollowsEnd(AllEdgeTasks(edges[..i + 1]), AllEdgeTasks(edges), d0, server.db, reply);
        return;
      }
      changed := reply.changed;
    }
    assert edges[..|edges|] == edges;
    return Settled(changed);
  }

  // ----- the graph -----

  method EnsureDefinition(server: Server, graph: string, definition: Definition) returns (reply: Reply)
    requires graph in server.db.graphs
    modifies server
    ensures Follows([NeedDefinition(graph, definition)], old(server.db), server.db, reply)
  {
    var task := NeedDefinition(graph, definition);
    SingleTask(task, server.db);
    var existing := ByName(server.db.graphs[graph].definitions);
    if definition.name in existing {
      if existing[definition.name] != definition { return Incompatible(MismatchedDefinition(definition.name)); }
      return Settled(false);
    }
    reply := Add(server, task);
  }

  lemma GraphStays(tasks: seq<Task>, d0: Db, d1: Db, changed: bool, graph: string)
    requires Follows(tasks, d0, d1, Settled(changed)) && graph in d0.graphs
    ensures graph in d1.graphs
  {
    RunIsAdditive(tasks, d0);
  }

  method EnsureDefinitions(server: Server, schema: Schema, graph: string) returns (reply: Reply)
    requires graph in server.db.graphs
    modifies server
    ensures Follows(DefinitionTasks(schema, graph), old(server.db), server.db, reply)
  {
    ghost var d0 := server.db;
    ghost var all := DefinitionTasks(schema, graph);
    var changed := false;
    assert all[..0] == [];
    SingleTask(NeedCollection("", DocumentCollection), d0);
    for i := 0 to |schema.edges|
      invariant Follows(all[..i], d0, server.db, Settled(changed))
    {
      ghost var d1 := server.db;
      GraphStays(all[..i], d0, d1, changed, graph);
      NamesKnown(schema.edges);
      reply := EnsureDefinition(server, graph, ByName(schema.edges)[schema.edges[i].name]);
      FollowsThen(all[..i], [all[i]], d0, d1, server.db, changed, reply);
      reply := Either(changed, reply);
      assert all[..i + 1] == all[..i] + [all[i]];
      if !reply.Settled? {
        FollowsEnd(all[..i + 1], all, d0, server.db, reply);
        return;
      }
      changed := reply.changed;
    }
    assert all[..|schema.edges|] == all;
    return Settled(changed);
  }

  /** A graph created with every definition needs none added. */
  lemma CreatedGraphIsComplete(schema: Schema, graph: string, db: Db)
    requires graph in db.graphs && db.graphs[graph].definitions == schema.edges
    ensures RunTasks(DefinitionTasks(schema, graph), db) == Done(db, false)
  {
    var tasks := DefinitionTasks(schema, graph);
    NamesKnown(schema.edges);
    forall task | task in tasks ensures Holds(task, db) {
      var i :| 0 <= i < |schema.edges| && tasks[i] == task;
      assert task == DefinitionTask(schema, graph, i);
    }
    MetRunsIdle(tasks, db);
  }

  method EnsureGraph(server: Server, schema: Schema, graph: string) returns (reply: Reply)
    modifies server
    ensures Follows(GraphTasks(schema, graph), old(server.db), server.db, reply)
    ensures reply.Settled? && graph !in old(server.db.graphs) ==> reply.changed
  {
    ghost var d0 := server.db;
    var need := NeedGraph(graph, schema.edges, Orphans(schema));
    SingleTask(need, d0);
    if graph !in server.db.graphs {
      reply := Add(server, need);
      if !reply.Settled? {
        FollowsEnd([need], GraphTasks(schema, graph), d0, server.db, reply);
        return;
      }
      CreatedGraphIsComplete(schema, graph, server.db);
      FollowsThen([need], DefinitionTasks(schema, graph), d0, server.db, server.db, true, Settled(false));
      return;
    }
    var existing, desired := ByName(server.db.graphs[graph].definitions), ByName(schema.edges);
    var unexpected := existing.Keys - desired.Keys;
    assert forall n | n in existing.Keys :: n in desired.Keys || n in unexpected;
    if unexpected != {} {
      reply := Incompatible(UnexpectedDefinitions(graph));
      FollowsEnd([need], GraphTasks(schema, graph), d0, server.db, reply);
      return;
    }
    reply := EnsureDefinitions(server, schema, graph);
    FollowsThen([need], DefinitionTasks(schema, graph), d0, d0, server.db, false, reply);
  }

  // ----- the whole initializer -----

  datatype Report = Created | Updated | Unchanged

  datatype TopologyReply = Finished(report: Report) | Failed(error: TopologyError) | CutOff

  /** What an uninterrupted run returns or raises. */
  function Answer(schema: Schema, graph: string, db: Db): TopologyReply {
    match RunTasks(Tasks(schema, graph), db)
    case Stopped(_, error) => Failed(error)
    case Done(_, changed) =>
      Finished(if graph !in db.graphs then Created else if changed then Updated else Unchanged)
  }

  /** The run did what the requirements say and answered accordingly, or was cut off after some of them. */
  ghost predicate Answered(schema: Schema, graph: string, before: Db, after: Db, r: TopologyReply) {
    if r.CutOff? then exists k: nat :: Prefix(Tasks(schema, graph), before, after, k)
    else r == Answer(schema, graph, before) && after == RunTasks(Tasks(schema, graph), before).db
  }

  function ReplyTo(reply: Reply, existed: bool): TopologyReply {
    match reply
    case Interrupted => CutOff
    case Incompatible(error) => Failed(error)
    case Settled(changed) => Finished(if !existed then Created else if changed then Updated else Unchanged)
  }

  lemma FollowedIsAnswered(schema: Schema, graph: string, before: Db, after: Db, reply: Reply)
    requires Follows(Tasks(schema, graph), before, after, reply)
    ensures Answered(schema, graph, before, after, ReplyTo(reply, graph in before.graphs))
  {
  }

  method EnsureCollections(server: Server, schema: Schema, graph: string) returns (reply: Reply)
    modifies server
    ensures Follows(CollectionTasks(schema, graph), old(server.db), server.db, reply)
  {
    ghost var d0 := server.db;
    ghost var a, b, c := VariablesTasks(graph), AllVertexTasks(schema.vertices), AllEdgeTasks(schema.edges);
    reply := EnsureVariables(server, graph);
    if !reply.Settled? { FollowsEnd(a, CollectionTasks(schema, graph), d0, server.db, reply); return; }
    var changed := reply.changed;
    ghost var d1 := server.db;
    reply := EnsureVertices(server, schema.vertices);
    FollowsThen(a, b, d0, d1, server.db, changed, reply);
    reply := Either(changed, reply);
    if !reply.Settled? { FollowsEnd(a + b, CollectionTasks(schema, graph), d0, server.db, reply); return; }
    changed := reply.changed;
    ghost var d2 := server.db;
    reply := EnsureEdges(server, schema.edges);
    FollowsThen(a + b, c, d0, d2, server.db, changed, reply);
    reply := Either(changed, reply);
  }

  lemma {:induction false} CollectionsLeaveGraphs(tasks: seq<Task>, db: Db)
    requires forall task | task in tasks :: !task.NeedGraph? && !task.NeedDefinition?
    ensures RunTasks(tasks, db).db.graphs == db.graphs
  {
    if tasks != [] { CollectionsLeaveGraphs(tasks[..|tasks| - 1], db); }
  }

  lemma CollectionsKeepGraphs(schema: Schema, graph: string, before: Db, after: Db, changed: bool)
    requires Follows(CollectionTasks(schema, graph), before, after, Settled(changed))
    ensures after.graphs == before.graphs
  {
    VertexTaskKinds(schema.vertices);
    EdgeTaskKinds(schema.edges);
    CollectionsLeaveGraphs(CollectionTasks(schema, graph), before);
  }

  method EnsureTopology(server: Server, schema: Schema, graph: string) returns (r: TopologyReply)
    modifies server
    ensures Answered(schema, graph, old(server.db), server.db, r)
  {
    ghost var d0 := server.db;
    var collections := EnsureCollections(server, schema, graph);
    if !collections.Settled? {
      FollowsEnd(CollectionTasks(schema, graph), Tasks(schema, graph), d0, server.db, collections);
      FollowedIsAnswered(schema, graph, d0, server.db, collections);
      return ReplyTo(collections, true);
    }
    ghost var d1 := server.db;
    CollectionsKeepGraphs(schema, graph, d0, d1, collections.changed);
    var existed := graph in server.db.graphs;
    var reply := EnsureGraph(server, schema, graph);
    FollowsThen(
      CollectionTasks(schema, graph), GraphTasks(schema, graph), d0, d1, server.db, collections.changed, reply);
    reply := Either(collections.changed, reply);
    FollowedIsAnswered(schema, graph, d0, server.db, reply);
    return ReplyTo(reply, existed);
  }

  // ----- what the initializer promises -----

  lemma {:induction false} FinishedHasGraph(schema: Schema, graph: string, db: Db)
    requires RunTasks(Tasks(schema, graph), db).Done?
    ensures graph in RunTasks(Tasks(schema, graph), db).db.graphs
  {
    var a, b := CollectionTasks(schema, graph), GraphTasks(schema, graph);
    RunSplit(a, b, db);
    var d1 := RunTasks(a, db).db;
    var need := b[0];
    assert b == [need] + DefinitionTasks(schema, graph);
    RunSplit([need], DefinitionTasks(schema, graph), d1);
    SingleTask(need, d1);
    RunIsAdditive(DefinitionTasks(schema, graph), RunTasks([need], d1).db);
  }

  /**
   After a run that returns, the next run writes nothing and reports "unchanged" exactly when no
   identifying property has a slash in its name.
   */
  lemma SecondRunIsIdleIffPlainNames(schema: Schema, graph: string, db: Db)
    requires RunTasks(Tasks(schema, graph), db).Done?
    ensures var after := RunTasks(Tasks(schema, graph), db).db;
      && graph in after.graphs
      && (RunTasks(Tasks(schema, graph), after) == Done(after, false) <==> PlainNames(schema))
      && (Answer(schema, graph, after) == Finished(Unchanged) <==> PlainNames(schema))
  {
    TasksWellFormed(schema, graph);
    TasksSlashFree(schema, graph);
    RepeatIsIdleIffSlashFree(Tasks(schema, graph), db);
    FinishedHasGraph(schema, graph, db);
    UnchangedIsIdle(schema, graph, RunTasks(Tasks(schema, graph), db).db);
  }

  /** On a database that has the graph, the answer is "unchanged" exactly when nothing is written. */
  lemma UnchangedIsIdle(schema: Schema, graph: string, db: Db)
    requires graph in db.graphs
    ensures Answer(schema, graph, db) == Finished(Unchanged) <==> RunTasks(Tasks(schema, graph), db) == Done(db, false)
  {
    var run := RunTasks(Tasks(schema, graph), db);
    if run.Done? && !run.changed { IdleRunIsMet(Tasks(schema, graph), db); }
  }

  /**
   A run cut off after any write and then repeated reaches the topology, or the error, of an uninterrupted run,
   exactly when no index name required before the cut has a slash; plain property names are enough.
   */
  lemma CutOffRunResumes(schema: Schema, graph: string, db: Db, cut: Db, k: nat)
    requires Prefix(Tasks(schema, graph), db, cut, k)
    ensures SameOutcome(RunTasks(Tasks(schema, graph), cut), RunTasks(Tasks(schema, graph), db))
      <==> SlashFree(Tasks(schema, graph)[..k])
    ensures PlainNames(schema) ==> SlashFree(Tasks(schema, graph)[..k])
  {
    TasksWellFormed(schema, graph);
    TasksSlashFree(schema, graph);
    ResumeReachesTheSame(Tasks(schema, graph), k, db);
    assert forall task | task in Tasks(schema, graph)[..k] :: task in Tasks(schema, graph);
  }

  const SLASHED := Schema([Vertex("v", ["a/b"])], [])
  const EMPTY := Db(map[], map[])

  /** The second run of a schema with a slashed property, on an empty database, writes an index again. */
  lemma SlashedPropertyIsWrittenAgain()
    ensures var tasks := Tasks(SLASHED, "g");
      && RunTasks(tasks, EMPTY).Done?
      && var after := RunTasks(tasks, EMPTY).db;
        RunTasks(tasks, after).Done? && RunTasks(tasks, after).changed
        && "v" in after.collections && "v" in RunTasks(tasks, after).db.collections
        && |RunTasks(tasks, after).db.collections["v"].indexes| > |after.collections["v"].indexes|
  {
    var tasks, slashed := Tasks(SLASHED, "g"), NeedIndex("v", IdentityIndex("a/b"));
    SlashedTasks();
    SlashedFirstRun();
    SecondRunIsIdleIffPlainNames(SLASHED, "g", EMPTY);
    assert SLASHED.vertices[0].identifying[0] == "a/b";
    TasksWellFormed(SLASHED, "g");
    RunMakesPresent(tasks, EMPTY);
    RewriteIsAlike(tasks, RunTasks(tasks, EMPTY).db);
    assert slashed == tasks[4] && slashed in tasks;
    assert '/' in "a/b" && forall c | c in "a/b" :: c in "sg_identity_" + "a/b";
    if !RunTasks(tasks, RunTasks(tasks, EMPTY).db).changed { IdleRunIsMet(tasks, RunTasks(tasks, EMPTY).db); }
  }

  lemma SlashedTasks()
    ensures Tasks(SLASHED, "g") == [
      NeedCollection(VARIABLES, DocumentCollection), NeedKey(VARIABLES, "g"),
      NeedCollection("v", DocumentCollection), NeedIndex("v", ELEMENT_INDEX),
      NeedIndex("v", IdentityIndex("a/b")), NeedGraph("g", [], Orphans(SLASHED))]
  {
    assert AllVertexTasks(SLASHED.vertices[..0]) == [];
    assert IdentityTasks("v", ["a/b"]) == [NeedIndex("v", IdentityIndex("a/b"))];
    assert AllVertexTasks(SLASHED.vertices) == VertexTasks(Vertex("v", ["a/b"]));
    assert DefinitionTasks(SLASHED, "g") == [];
  }

  lemma WritesNext(tasks: seq<Task>, task: Task, db: Db)
    requires RunTasks(tasks, db).Done?
    requires Applicable(task, RunTasks(tasks, db).db) && Check(task, RunTasks(tasks, db).db) == Missing
    ensures RunTasks(tasks + [task], db) == Done(Write(task, RunTasks(tasks, db).db), true)
  {
    assert (tasks + [task])[..|tasks|] == tasks;
  }

  /** Everything is missing from an empty database, so everything is written. */
  lemma SlashedFirstRun()
    ensures RunTasks(Tasks(SLASHED, "g"), EMPTY).Done?
  {
    SlashedTasks();
    var tasks := Tasks(SLASHED, "g");
    assert tasks[..0] == [] && tasks[..1] == tasks[..0] + [tasks[0]] && tasks[..2] == tasks[..1] + [tasks[1]];
    assert tasks[..3] == tasks[..2] + [tasks[2]] && tasks[..4] == tasks[..3] + [tasks[3]];
    assert tasks[..5] == tasks[..4] + [tasks[4]] && tasks == tasks[..5] + [tasks[5]];
    WritesNext(tasks[..0], tasks[0], EMPTY);
    WritesNext(tasks[..1], tasks[1], EMPTY);
    WritesNext(tasks[..2], tasks[2], EMPTY);
    WritesNext(tasks[..3], tasks[3], EMPTY);
    var indexes := RunTasks(tasks[..4], EMPTY).db.collections["v"].indexes;
    assert indexes == [ELEMENT_INDEX];
    SlashedNeverFound(indexes, IdentityIndex("a/b").name);
    WritesNext(tasks[..4], tasks[4], EMPTY);
    WritesNext(tasks[..5], tasks[5], EMPTY);
  }

  /** However a run ends, nothing that was present has been removed or altered. */
  lemma {:induction false} RunsOnlyAdd(schema: Schema, graph: string, db: Db, after: Db, k: nat)
    requires after == RunTasks(Tasks(schema, graph), db).db || Prefix(Tasks(schema, graph), db, after, k)
    ensures Additive(db, after)
  {
    RunIsAdditive(Tasks(schema, graph), db);
    if k <= |Tasks(schema, graph)| { RunIsAdditive(Tasks(schema, graph)[..k], db); }
  }

  lemma {:induction false} VertexTasksGrounded(vertices: seq<Vertex>)
    ensures Grounded(AllVertexTasks(vertices))
  {
    if vertices != [] {
      var front, last := AllVertexTasks(vertices[..|vertices| - 1]), VertexTasks(vertices[|vertices| - 1]);
      VertexTasksGrounded(vertices[..|vertices| - 1]);
      assert last[0].NeedCollection?;
      GroundedConcat(front, last);
    }
  }

  lemma {:induction false} EdgeTasksGrounded(edges: seq<Definition>)
    ensures Grounded(AllEdgeTasks(edges))
  {
    if edges != [] {
      var front, last := AllEdgeTasks(edges[..|edges| - 1]), EdgeTasks(edges[|edges| - 1]);
      EdgeTasksGrounded(edges[..|edges| - 1]);
      assert last[0].NeedCollection?;
      GroundedConcat(front, last);
    }
  }

  /** A collection or graph is always there before something is added to it. */
  lemma SubjectsExist(schema: Schema, graph: string, db: Db)
    ensures RunTasks(Tasks(schema, graph), db).Stopped? ==> RunTasks(Tasks(schema, graph), db).error != SubjectMissing
  {
    var variables, vertices, edges, graphs :=
      VariablesTasks(graph), AllVertexTasks(schema.vertices), AllEdgeTasks(schema.edges), GraphTasks(schema, graph);
    VertexTasksGrounded(schema.vertices);
    EdgeTasksGrounded(schema.edges);
    assert variables[0].NeedCollection? && graphs[0].NeedGraph?;
    GroundedConcat(variables, vertices);
    GroundedConcat(variables + vertices, edges);
    GroundedConcat(variables + vertices + edges, graphs);
    GroundedRun(Tasks(schema, graph), db);
  }
}

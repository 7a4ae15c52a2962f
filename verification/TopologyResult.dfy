/** What the database holds after a run of the initializer that returned, in the schema's own terms. */
module TopologyResult {
  import opened Wrappers
  import opened Topology
  import opened TopologyRuns
  import opened Initializer
  import Text

  // ----- normal forms lose nothing -----

  lemma {:induction false} InsertKeepsElements(x: string, s: seq<string>)
    ensures multiset(Insert(x, s)) == multiset(s) + multiset{x}
  {
    if s != [] {
      assert s == [s[0]] + s[1..];
      if Text.Less(s[0], x) { InsertKeepsElements(x, s[1..]); }
    }
  }

  lemma {:induction false} SortedKeepsElements(s: seq<string>)
    ensures multiset(Sorted(s)) == multiset(s)
  {
    if s != [] {
      SortedKeepsElements(s[1..]);
      InsertKeepsElements(s[0], Sorted(s[1..]));
      assert s == [s[0]] + s[1..];
    }
  }

  /** The same collection joins the same sets of collections, in whatever order they are listed. */
  predicate SameDefinition(a: Definition, b: Definition) {
    a.name == b.name && multiset(a.sources) == multiset(b.sources) && multiset(a.targets) == multiset(b.targets)
  }

  lemma SameNormalForm(a: Definition, b: Definition)
    requires Normalize(a) == Normalize(b)
    ensures SameDefinition(a, b)
  {
    SortedKeepsElements(a.sources);
    SortedKeepsElements(a.targets);
    SortedKeepsElements(b.sources);
    SortedKeepsElements(b.targets);
  }

  /** The last definition with its name. */
  predicate IsLastNamed(definitions: seq<Definition>, i: int) {
    && 0 <= i < |definitions|
    && forall j | i < j < |definitions| :: definitions[j].name != definitions[i].name
  }

  lemma {:induction false} ByNameIsLast(definitions: seq<Definition>, name: string)
    ensures forall i | IsLastNamed(definitions, i) && definitions[i].name == name ::
      name in ByName(definitions) && ByName(definitions)[name] == Normalize(definitions[i])
    ensures name in ByName(definitions) ==> exists i :: IsLastNamed(definitions, i) && definitions[i].name == name
  {
    if definitions != [] {
      var n := |definitions| - 1;
      var front, last := definitions[..n], definitions[n];
      if last.name == name {
        assert IsLastNamed(definitions, n);
      } else {
        ByNameIsLast(front, name);
        forall i | IsLastNamed(definitions, i) && definitions[i].name == name ensures IsLastNamed(front, i) {}
        forall i | IsLastNamed(front, i) && front[i].name == name ensures IsLastNamed(definitions, i) {}
      }
    }
  }

  /** The base name is what follows the last slash. */
  lemma {:induction false} BaseNameFollowsSlash(name: string) returns (prefix: string)
    ensures name == prefix + BaseName(name) && '/' !in BaseName(name)
    ensures prefix == "" || prefix[|prefix| - 1] == '/'
  {
    if name == "" {
      prefix := "";
    } else if '/' in name[1..] {
      var rest := BaseNameFollowsSlash(name[1..]);
      assert rest != "";
      prefix := [name[0]] + rest;
      assert name == [name[0]] + name[1..];
    } else {
      prefix := if name[0] == '/' then "/" else "";
    }
  }

  // ----- what is there -----

  predicate HasIndex(c: CollectionState, name: string, field: string, unique: bool, sparse: bool) {
    exists index :: index in c.indexes && BaseName(index.name) == name
                    && index.fields == Some([field]) && index.unique == unique && index.sparse == sparse
  }

  predicate HasVertex(db: Db, v: Vertex) {
    && v.collection in db.collections && db.collections[v.collection].kind == DocumentCollection
    && HasIndex(db.collections[v.collection], "sg_element_id", "element_id", true, false)
    && forall p | p in v.identifying && '/' !in p ::
      HasIndex(db.collections[v.collection], "sg_identity_" + p, p, false, true)
  }

  predicate HasEdgeCollection(db: Db, e: Definition) {
    && e.name in db.collections && db.collections[e.name].kind == EdgeCollection
    && HasIndex(db.collections[e.name], "sg_element_id", "element_id", true, false)
  }

  /** The graph has exactly the schema's edge definitions; of several with one name the last counts. */
  ghost predicate HasDefinitions(g: GraphState, edges: seq<Definition>) {
    && (forall d | d in g.definitions :: exists e :: e in edges && e.name == d.name)
    && forall i | IsLastNamed(edges, i) ::
      exists j :: IsLastNamed(g.definitions, j) && SameDefinition(g.definitions[j], edges[i])
  }

  ghost predicate Initialized(schema: Schema, graph: string, db: Db) {
    && "TINKERPOP-GRAPH-VARIABLES" in db.collections
    && db.collections["TINKERPOP-GRAPH-VARIABLES"].kind == DocumentCollection
    && graph in db.collections["TINKERPOP-GRAPH-VARIABLES"].keys
    && (forall v | v in schema.vertices :: HasVertex(db, v))
    && (forall e | e in schema.edges :: HasEdgeCollection(db, e))
    && graph in db.graphs && HasDefinitions(db.graphs[graph], schema.edges)
  }

  // ----- the requirements are these -----

  lemma {:induction false} VertexTasksHave(vertices: seq<Vertex>, v: Vertex)
    requires v in vertices
    ensures NeedCollection(v.collection, DocumentCollection) in AllVertexTasks(vertices)
    ensures NeedIndex(v.collection, ELEMENT_INDEX) in AllVertexTasks(vertices)
    ensures forall p | p in v.identifying :: NeedIndex(v.collection, IdentityIndex(p)) in AllVertexTasks(vertices)
  {
    VertexTaskKinds(vertices);
    if v != vertices[|vertices| - 1] { VertexTasksHave(vertices[..|vertices| - 1], v); }
    else {
      assert VertexTasks(v)[0] == NeedCollection(v.collection, DocumentCollection);
      assert VertexTasks(v)[1] == NeedIndex(v.collection, ELEMENT_INDEX);
    }
  }

  lemma {:induction false} EdgeTasksHave(edges: seq<Definition>, e: Definition)
    requires e in edges
    ensures NeedCollection(e.name, EdgeCollection) in AllEdgeTasks(edges)
    ensures NeedIndex(e.name, ELEMENT_INDEX) in AllEdgeTasks(edges)
  {
    if e != edges[|edges| - 1] { EdgeTasksHave(edges[..|edges| - 1], e); }
    else {
      assert EdgeTasks(e)[0] == NeedCollection(e.name, EdgeCollection);
      assert EdgeTasks(e)[1] == NeedIndex(e.name, ELEMENT_INDEX);
    }
  }

  lemma FoundIsThere(indexes: seq<Index>, name: string)
    requires FindIndex(indexes, name).Some?
    ensures FindIndex(indexes, name).value in indexes && BaseName(FindIndex(indexes, name).value.name) == name
  {
  }

  lemma MetIndex(db: Db, collection: string, wanted: Index)
    requires Holds(NeedIndex(collection, wanted), db) && wanted.fields.Some? && |wanted.fields.value| == 1
    ensures collection in db.collections
    ensures HasIndex(db.collections[collection], wanted.name, wanted.fields.value[0], wanted.unique, wanted.sparse)
  {
    var found := FindIndex(db.collections[collection].indexes, wanted.name).value;
    FoundIsThere(db.collections[collection].indexes, wanted.name);
    assert wanted.fields.value == [wanted.fields.value[0]];
    assert found.fields == Some([wanted.fields.value[0]]);
  }

  lemma MetVertex(schema: Schema, graph: string, db: Db, v: Vertex)
    requires forall task | task in Tasks(schema, graph) && Findable(task) :: Holds(task, db)
    requires v in schema.vertices
    ensures HasVertex(db, v)
  {
    VertexTasksHave(schema.vertices, v);
    assert forall task | task in AllVertexTasks(schema.vertices) :: task in Tasks(schema, graph);
    assert Holds(NeedCollection(v.collection, DocumentCollection), db);
    MetIndex(db, v.collection, ELEMENT_INDEX);
    forall p | p in v.identifying && '/' !in p
      ensures HasIndex(db.collections[v.collection], "sg_identity_" + p, p, false, true)
    {
      assert '/' !in "sg_identity_";
      assert Findable(NeedIndex(v.collection, IdentityIndex(p)));
      MetIndex(db, v.collection, IdentityIndex(p));
    }
  }

  lemma MetEdge(schema: Schema, graph: string, db: Db, e: Definition)
    requires forall task | task in Tasks(schema, graph) && Findable(task) :: Holds(task, db)
    requires e in schema.edges
    ensures HasEdgeCollection(db, e)
  {
    EdgeTasksHave(schema.edges, e);
    assert forall task | task in AllEdgeTasks(schema.edges) :: task in Tasks(schema, graph);
    assert Holds(NeedCollection(e.name, EdgeCollection), db);
    MetIndex(db, e.name, ELEMENT_INDEX);
  }

  lemma MetVariables(schema: Schema, graph: string, db: Db)
    requires forall task | task in Tasks(schema, graph) && Findable(task) :: Holds(task, db)
    ensures "TINKERPOP-GRAPH-VARIABLES" in db.collections
    ensures db.collections["TINKERPOP-GRAPH-VARIABLES"].kind == DocumentCollection
    ensures graph in db.collections["TINKERPOP-GRAPH-VARIABLES"].keys
  {
    var tasks := VariablesTasks(graph);
    assert tasks[0] in Tasks(schema, graph) && tasks[1] in Tasks(schema, graph);
    assert Holds(tasks[0], db) && Holds(tasks[1], db);
  }

  lemma MetDefinition(schema: Schema, graph: string, db: Db, i: int)
    requires forall task | task in Tasks(schema, graph) && Findable(task) :: Holds(task, db)
    requires IsLastNamed(schema.edges, i) && graph in db.graphs
    ensures exists j ::
      IsLastNamed(db.graphs[graph].definitions, j) && SameDefinition(db.graphs[graph].definitions[j], schema.edges[i])
  {
    var e, definitions := schema.edges[i], db.graphs[graph].definitions;
    NamesKnown(schema.edges);
    var task := DefinitionTask(schema, graph, i);
    assert DefinitionTasks(schema, graph)[i] == task;
    assert task in GraphTasks(schema, graph) && task in Tasks(schema, graph);
    assert Holds(task, db);
    ByNameIsLast(schema.edges, e.name);
    ByNameIsLast(definitions, e.name);
    var j :| IsLastNamed(definitions, j) && definitions[j].name == e.name;
    SameNormalForm(definitions[j], e);
  }

  lemma NamedIsListed(definitions: seq<Definition>, name: string)
    ensures name in ByName(definitions) <==> exists d :: d in definitions && d.name == name
  {
    NamesKnown(definitions);
    ByNameIsLast(definitions, name);
    if d :| d in definitions && d.name == name {
      var i :| 0 <= i < |definitions| && definitions[i] == d;
    }
  }

  lemma MetGraph(schema: Schema, graph: string, db: Db)
    requires forall task | task in Tasks(schema, graph) && Findable(task) :: Holds(task, db)
    ensures graph in db.graphs && HasDefinitions(db.graphs[graph], schema.edges)
  {
    var need := NeedGraph(graph, schema.edges, Orphans(schema));
    assert GraphTasks(schema, graph)[0] == need;
    assert need in GraphTasks(schema, graph) && need in Tasks(schema, graph);
    assert Holds(need, db);
    var definitions := db.graphs[graph].definitions;
    forall d | d in definitions ensures exists e :: e in schema.edges && e.name == d.name {
      NamedIsListed(definitions, d.name);
      NamedIsListed(schema.edges, d.name);
    }
    forall i | IsLastNamed(schema.edges, i)
      ensures exists j :: IsLastNamed(definitions, j) && SameDefinition(definitions[j], schema.edges[i])
    {
      MetDefinition(schema, graph, db, i);
    }
  }

  /**
   After a run that returns, the variables, every vertex and edge collection with its indexes, and the graph with
   exactly its edge definitions are there.
   */
  lemma FinishedIsInitialized(schema: Schema, graph: string, db: Db)
    requires RunTasks(Tasks(schema, graph), db).Done?
    ensures Initialized(schema, graph, RunTasks(Tasks(schema, graph), db).db)
  {
    var after := RunTasks(Tasks(schema, graph), db).db;
    TasksWellFormed(schema, graph);
    RunMeetsFindable(Tasks(schema, graph), db);
    MetVariables(schema, graph, after);
    forall v | v in schema.vertices ensures HasVertex(after, v) { MetVertex(schema, graph, after, v); }
    forall e | e in schema.edges ensures HasEdgeCollection(after, e) { MetEdge(schema, graph, after, e); }
    MetGraph(schema, graph, after);
  }

  lemma OrphansAreUnjoined(schema: Schema, c: string)
    ensures c in Orphans(schema) <==>
      && (exists v :: v in schema.vertices && v.collection == c)
      && !exists e :: e in schema.edges && (c in e.sources || c in e.targets)
  {
  }

  lemma MissingGraphIsWritten(schema: Schema, graph: string, db: Db)
    requires graph !in db.graphs
    ensures RunTasks(GraphTasks(schema, graph), db)
      == Done(Write(NeedGraph(graph, schema.edges, Orphans(schema)), db), true)
  {
    var need, b := NeedGraph(graph, schema.edges, Orphans(schema)), GraphTasks(schema, graph);
    assert b == [need] + DefinitionTasks(schema, graph);
    RunSplit([need], DefinitionTasks(schema, graph), db);
    SingleTask(need, db);
    CreatedGraphIsComplete(schema, graph, Write(need, db));
  }

  lemma CreatedGraph(schema: Schema, graph: string, db: Db)
    requires graph !in db.graphs && RunTasks(Tasks(schema, graph), db).Done?
    ensures var g := RunTasks(Tasks(schema, graph), db).db.graphs;
      graph in g && g[graph] == GraphState(schema.edges, Orphans(schema))
  {
    var a, b := CollectionTasks(schema, graph), GraphTasks(schema, graph);
    RunSplit(a, b, db);
    var d1 := RunTasks(a, db).db;
    CollectionsKeepGraphs(schema, graph, db, d1, RunTasks(a, db).changed);
    MissingGraphIsWritten(schema, graph, d1);
  }

  /** A graph that was missing is created as the schema lists it, its orphans the vertex collections no edge joins. */
  lemma CreatedAsListed(schema: Schema, graph: string, db: Db)
    requires graph !in db.graphs && RunTasks(Tasks(schema, graph), db).Done?
    ensures var g := RunTasks(Tasks(schema, graph), db).db.graphs;
      && graph in g && g[graph].definitions == schema.edges
      && forall c :: c in g[graph].orphans <==>
        && (exists v :: v in schema.vertices && v.collection == c)
        && !exists e :: e in schema.edges && (c in e.sources || c in e.targets)
  {
    CreatedGraph(schema, graph, db);
    var g := RunTasks(Tasks(schema, graph), db).db.graphs;
    forall c ensures c in g[graph].orphans <==>
      && (exists v :: v in schema.vertices && v.collection == c)
      && !exists e :: e in schema.edges && (c in e.sources || c in e.targets)
    {
      OrphansAreUnjoined(schema, c);
    }
  }
}

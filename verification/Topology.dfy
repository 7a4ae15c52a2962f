/** initialize.py: what the initializer requires of the database, one requirement at a time. */
module Topology {
  import opened Wrappers
  import Text

  // ----- the database -----

  datatype CollectionKind = DocumentCollection | EdgeCollection

  /** An index as the server lists it: `fields` is None when the listing carries no field list. */
  datatype Index = Index(name: string, fields: Option<seq<string>>, unique: bool, sparse: bool)

  datatype CollectionState = CollectionState(kind: CollectionKind, indexes: seq<Index>, keys: set<string>)

  datatype Definition = Definition(name: string, sources: seq<string>, targets: seq<string>)

  datatype GraphState = GraphState(definitions: seq<Definition>, orphans: set<string>)

  datatype Db = Db(collections: map<string, CollectionState>, graphs: map<string, GraphState>)

  datatype TopologyError =
    | WrongKind(collection: string) | InvalidFields(index: string) | IncompatibleIndex(index: string)
    | UnexpectedDefinitions(graph: string) | MismatchedDefinition(definition: string)
    | SubjectMissing

  // ----- normal forms -----

  /** `rsplit("/", maxsplit=1)[-1]`. */
  function BaseName(name: string): (r: string)
    ensures '/' !in r
    ensures '/' !in name ==> r == name
  {
    if name == "" then ""
    else if '/' in name[1..] then BaseName(name[1..])
    else if name[0] == '/' then name[1..]
    else (assert '/' !in name; name)
  }

  function Insert(x: string, s: seq<string>): seq<string> {
    if s == [] then [x] else if Text.Less(s[0], x) then [s[0]] + Insert(x, s[1..]) else [x] + s
  }

  /** `sorted`. */
  function Sorted(s: seq<string>): seq<string> {
    if s == [] then [] else Insert(s[0], Sorted(s[1..]))
  }

  predicate Ordered(s: seq<string>) {
    |s| <= 1 || (!Text.Less(s[1], s[0]) && Ordered(s[1..]))
  }

  lemma {:induction false} InsertKeepsOrder(x: string, s: seq<string>)
    requires Ordered(s)
    ensures Ordered(Insert(x, s))
    ensures Insert(x, s)[0] == x || (s != [] && Insert(x, s)[0] == s[0])
  {
    if s != [] && Text.Less(s[0], x) {
      InsertKeepsOrder(x, s[1..]);
      Text.LessAsymmetric(s[0], x);
      var r := Insert(x, s);
      assert r[1..] == Insert(x, s[1..]);
    } else {
      assert Insert(x, s)[1..] == s;
    }
  }

  lemma {:induction false} SortedIsOrdered(s: seq<string>)
    ensures Ordered(Sorted(s))
  {
    if s != [] {
      SortedIsOrdered(s[1..]);
      InsertKeepsOrder(s[0], Sorted(s[1..]));
    }
  }

  lemma {:induction false} SortingOrdered(s: seq<string>)
    requires Ordered(s)
    ensures Sorted(s) == s
  {
    if s != [] {
      SortingOrdered(s[1..]);
      assert s == [s[0]] + s[1..];
    }
  }

  function Normalize(d: Definition): Definition {
    Definition(d.name, Sorted(d.sources), Sorted(d.targets))
  }

  lemma NormalizeTwice(d: Definition)
    ensures Normalize(Normalize(d)) == Normalize(d)
  {
    SortedIsOrdered(d.sources);
    SortedIsOrdered(d.targets);
    SortingOrdered(Sorted(d.sources));
    SortingOrdered(Sorted(d.targets));
  }

  /** A dictionary of normal forms by name; a later definition replaces an earlier one. */
  function ByName(definitions: seq<Definition>): (m: map<string, Definition>)
    ensures forall n | n in m :: m[n].name == n
  {
    if definitions == [] then map[]
    else
      var last := definitions[|definitions| - 1];
      ByName(definitions[..|definitions| - 1])[last.name := Normalize(last)]
  }

  lemma ByNameAppend(definitions: seq<Definition>, d: Definition)
    ensures ByName(definitions + [d]) == ByName(definitions)[d.name := Normalize(d)]
  {
    assert (definitions + [d])[..|definitions|] == definitions;
  }

  // ----- one requirement -----

  datatype Task =
    | NeedCollection(name: string, kind: CollectionKind)
    | NeedKey(name: string, key: string)
    | NeedIndex(name: string, index: Index)
    | NeedGraph(graph: string, definitions: seq<Definition>, orphans: set<string>)
    | NeedDefinition(graph: string, definition: Definition)

  /** The first index whose base name is the required one. */
  function FindIndex(indexes: seq<Index>, name: string): Option<Index> {
    if indexes == [] then None
    else if BaseName(indexes[0].name) == name then Some(indexes[0])
    else FindIndex(indexes[1..], name)
  }

  predicate SameIndex(found: Index, wanted: Index) {
    found.fields == wanted.fields && found.unique == wanted.unique && found.sparse == wanted.sparse
  }

  /** Whether a requirement is met, blocked by something incompatible, or needs one write. */
  datatype Verdict = Met | Blocked(error: TopologyError) | Missing

  /** The requirement's subject exists already: the collection of a key or index, the graph of a definition. */
  predicate Applicable(task: Task, db: Db) {
    match task
    case NeedCollection(_, _) => true
    case NeedKey(name, _) => name in db.collections
    case NeedIndex(name, _) => name in db.collections
    case NeedGraph(_, _, _) => true
    case NeedDefinition(graph, _) => graph in db.graphs
  }

  function Check(task: Task, db: Db): Verdict
    requires Applicable(task, db)
  {
    match task
    case NeedCollection(name, kind) =>
      if name !in db.collections then Missing
      else if db.collections[name].kind != kind then Blocked(WrongKind(name))
      else Met
    case NeedKey(name, key) => if key in db.collections[name].keys then Met else Missing
    case NeedIndex(name, index) =>
      (match FindIndex(db.collections[name].indexes, index.name)
       case None => Missing
       case Some(found) =>
         if found.fields.None? then Blocked(InvalidFields(index.name))
         else if !SameIndex(found, index) then Blocked(IncompatibleIndex(index.name))
         else Met)
    case NeedGraph(graph, definitions, _) =>
      if graph !in db.graphs then Missing
      else if ByName(db.graphs[graph].definitions).Keys <= ByName(definitions).Keys then Met
      else Blocked(UnexpectedDefinitions(graph))
    case NeedDefinition(graph, definition) =>
      var existing := ByName(db.graphs[graph].definitions);
      if definition.name !in existing then Missing
      else if existing[definition.name] != definition then Blocked(MismatchedDefinition(definition.name))
      else Met
  }

  /** The one write that adds what is missing. */
  function Write(task: Task, db: Db): Db
    requires Applicable(task, db)
  {
    match task
    case NeedCollection(name, kind) => db.(collections := db.collections[name := CollectionState(kind, [], {})])
    case NeedKey(name, key) =>
      db.(collections := db.collections[name := db.collections[name].(keys := db.collections[name].keys + {key})])
    case NeedIndex(name, index) =>
      var indexes := db.collections[name].indexes + [index];
      db.(collections := db.collections[name := db.collections[name].(indexes := indexes)])
    case NeedGraph(graph, definitions, orphans) => db.(graphs := db.graphs[graph := GraphState(definitions, orphans)])
    case NeedDefinition(graph, definition) =>
      db.(graphs := db.graphs[graph := db.graphs[graph].(definitions := db.graphs[graph].definitions + [definition])])
  }

  datatype Outcome = Done(db: Db, changed: bool) | Stopped(db: Db, error: TopologyError)

  function Ensure(task: Task, db: Db): Outcome
    requires Applicable(task, db)
  {
    match Check(task, db)
    case Met => Done(db, false)
    case Blocked(error) => Stopped(db, error)
    case Missing => Done(Write(task, db), true)
  }

  // ----- nothing present is ever removed or altered -----

  ghost predicate Extends(a: CollectionState, b: CollectionState) {
    a.kind == b.kind && a.indexes <= b.indexes && a.keys <= b.keys
  }

  ghost predicate Additive(a: Db, b: Db) {
    && (forall n | n in a.collections :: n in b.collections && Extends(a.collections[n], b.collections[n]))
    && forall g | g in a.graphs :: g in b.graphs
        && a.graphs[g].definitions <= b.graphs[g].definitions && a.graphs[g].orphans == b.graphs[g].orphans
  }

  lemma EnsureIsAdditive(task: Task, db: Db)
    requires Applicable(task, db)
    ensures Additive(db, Ensure(task, db).db)
  {
  }

  lemma {:induction false} FindIndexAppend(indexes: seq<Index>, more: seq<Index>, name: string)
    ensures FindIndex(indexes, name).Some? ==> FindIndex(indexes + more, name) == FindIndex(indexes, name)
    ensures FindIndex(indexes, name).None? ==> FindIndex(indexes + more, name) == FindIndex(more, name)
  {
    if indexes == [] { assert indexes + more == more; }
    else {
      assert (indexes + more)[1..] == indexes[1..] + more;
      FindIndexAppend(indexes[1..], more, name);
    }
  }

  /** An index name the initializer can find again, and a definition already in normal form. */
  predicate Findable(task: Task) {
    && (task.NeedIndex? ==> '/' !in task.index.name && task.index.fields.Some?)
    && (task.NeedDefinition? ==> Normalize(task.definition) == task.definition)
  }

  /** One write meets the requirement, exactly when what was written can be found again. */
  lemma WriteMeets(task: Task, db: Db)
    requires Applicable(task, db) && Check(task, db) == Missing
    requires task.NeedIndex? ==> task.index.fields.Some?
    requires task.NeedDefinition? ==> Normalize(task.definition) == task.definition
    ensures Applicable(task, Write(task, db))
    ensures Check(task, Write(task, db)) == Met <==> (task.NeedIndex? ==> '/' !in task.index.name)
  {
    match task
    case NeedIndex(name, index) =>
      FindIndexAppend(db.collections[name].indexes, [index], index.name);
      assert [index][1..] == [];
    case NeedDefinition(graph, definition) => ByNameAppend(db.graphs[graph].definitions, definition);
    case _ =>
  }

  /** An index name with a slash is never found, whatever the database holds. */
  lemma {:induction false} SlashedNeverFound(indexes: seq<Index>, name: string)
    requires '/' in name
    ensures FindIndex(indexes, name) == None
  {
    if indexes != [] { SlashedNeverFound(indexes[1..], name); }
  }
}

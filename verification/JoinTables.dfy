/** The implicit join tables of the many-to-many relations and the file lists, which always cascade. */
module JoinTables {
  import opened Walks
  import opened ReferentialModels

  /** The order JavaScript sorts strings in. */
  predicate StringLeq(a: string, b: string) {
    a == "" || (b != "" && (a[0] < b[0] || (a[0] == b[0] && StringLeq(a[1..], b[1..]))))
  }

  function PairName(a: string, b: string): string {
    if StringLeq(a, b) then a + "|" + b else b + "|" + a
  }

  function Qualified(model: string, field: string): string {
    model + "." + field
  }

  /** A declared join table, between the model declaring it and the one it references. A table of a
      relation is declared by both of its sides, one of a file list only once. */
  datatype Join = Join(table: string, owner: string, referenced: string, shared: bool)

  function RelationJoin(models: seq<Model>, model: Model, relation: Relation): Join {
    var referenced := Capitalize(relation.target);
    var own := Qualified(model.name, relation.field);
    Join(if Mapped(models, relation) then PairName(own, Qualified(referenced, relation.mappedBy)) else own,
         model.name, referenced, true)
  }

  function FileJoin(model: Model, file: FileField): Join {
    Join(Qualified(model.name, file.field), model.name, "File", false)
  }

  function RelationJoins(models: seq<Model>, model: Model, k: nat): seq<Join>
    requires k <= |model.relations|
  {
    if k == 0 then []
    else RelationJoins(models, model, k - 1) +
         if model.relations[k - 1].kind == ManyToMany then [RelationJoin(models, model, model.relations[k - 1])] else []
  }

  function FileJoins(model: Model, k: nat): seq<Join>
    requires k <= |model.files|
  {
    if k == 0 then []
    else FileJoins(model, k - 1) + if model.files[k - 1].many then [FileJoin(model, model.files[k - 1])] else []
  }

  function ModelJoins(models: seq<Model>, model: Model): seq<Join> {
    if !model.generated then []
    else RelationJoins(models, model, |model.relations|) + FileJoins(model, |model.files|)
  }

  function Declared(models: seq<Model>, n: nat): seq<Join>
    requires n <= |models|
  {
    if n == 0 then [] else Declared(models, n - 1) + ModelJoins(models, models[n - 1])
  }

  function Seen(joins: seq<Join>): set<string> {
    if joins == [] then {}
    else
      var init, last := joins[..|joins| - 1], joins[|joins| - 1];
      Seen(init) + if last.shared then {last.table} else {}
  }

  /** The declared tables without the ones a relation declares for the second time. */
  function Emitted(joins: seq<Join>): seq<Join> {
    if joins == [] then []
    else
      var init, last := joins[..|joins| - 1], joins[|joins| - 1];
      Emitted(init) + if last.shared && last.table in Seen(init) then [] else [last]
  }

  function JoinedEdges(joins: seq<Join>): seq<Edge> {
    if joins == [] then []
    else
      var init, last := joins[..|joins| - 1], joins[|joins| - 1];
      JoinedEdges(init) + [Edge(last.owner, last.table), Edge(last.referenced, last.table)]
  }

  function JoinEdges(models: seq<Model>): seq<Edge> {
    JoinedEdges(Emitted(Declared(models, |models|)))
  }

  /** The edges and the seen tables after the given declarations. */
  ghost predicate Tracks(joins: seq<Join>, edges: seq<Edge>, seen: set<string>) {
    edges == JoinedEdges(Emitted(joins)) && seen == Seen(joins)
  }

  function Emit(join: Join, edges: seq<Edge>, seen: set<string>): seq<Edge> {
    if join.shared && join.table in seen then edges
    else edges + [Edge(join.owner, join.table), Edge(join.referenced, join.table)]
  }

  lemma SeenOne(joins: seq<Join>, join: Join)
    ensures Seen(joins + [join]) == Seen(joins) + if join.shared then {join.table} else {}
  {
    var all := joins + [join];
    assert all[..|all| - 1] == joins;
  }

  lemma EmittedOne(joins: seq<Join>, join: Join)
    ensures Emitted(joins + [join]) ==
            if join.shared && join.table in Seen(joins) then Emitted(joins) else Emitted(joins) + [join]
  {
    var all := joins + [join];
    assert all[..|all| - 1] == joins;
  }

  lemma JoinedOne(joins: seq<Join>, join: Join)
    ensures JoinedEdges(joins + [join]) ==
            JoinedEdges(joins) + [Edge(join.owner, join.table), Edge(join.referenced, join.table)]
  {
    var all := joins + [join];
    assert all[..|all| - 1] == joins;
  }

  lemma TrackOne(joins: seq<Join>, join: Join, edges: seq<Edge>, seen: set<string>)
    requires Tracks(joins, edges, seen)
    ensures Tracks(joins + [join], Emit(join, edges, seen), if join.shared then seen + {join.table} else seen)
  {
    SeenOne(joins, join);
    EmittedOne(joins, join);
    JoinedOne(Emitted(joins), join);
  }

  lemma DeclareOne(models: seq<Model>, i: nat)
    requires i < |models|
    ensures Declared(models, i + 1) ==
            if models[i].generated then
              Declared(models, i) + RelationJoins(models, models[i], |models[i].relations|) +
              FileJoins(models[i], |models[i].files|)
            else Declared(models, i)
  {}

  lemma RelateOne(joins: seq<Join>, models: seq<Model>, model: Model, k: nat)
    requires k < |model.relations|
    ensures joins + RelationJoins(models, model, k + 1) ==
            if model.relations[k].kind == ManyToMany then
              (joins + RelationJoins(models, model, k)) + [RelationJoin(models, model, model.relations[k])]
            else joins + RelationJoins(models, model, k)
  {}

  lemma FileOne(joins: seq<Join>, model: Model, k: nat)
    requires k < |model.files|
    ensures joins + FileJoins(model, k + 1) ==
            if model.files[k].many then (joins + FileJoins(model, k)) + [FileJoin(model, model.files[k])]
            else joins + FileJoins(model, k)
  {}

  method JoinTableEdges(models: seq<Model>) returns (edges: seq<Edge>)
    ensures edges == JoinEdges(models)
  {
    edges := [];
    var seen: set<string> := {};
    for i := 0 to |models|
      invariant Tracks(Declared(models, i), edges, seen)
    {
      var model := models[i];
      if model.generated {
        edges, seen := RelationTables(models, model, edges, seen, Declared(models, i));
        edges := FileTables(model, edges, seen, Declared(models, i) + RelationJoins(models, model, |model.relations|));
      }
      DeclareOne(models, i);
    }
  }

  /** The loop over the relations of a model. */
  method RelationTables(models: seq<Model>, model: Model, before: seq<Edge>, known: set<string>, ghost joins: seq<Join>)
    returns (edges: seq<Edge>, seen: set<string>)
    requires Tracks(joins, before, known)
    ensures Tracks(joins + RelationJoins(models, model, |model.relations|), edges, seen)
  {
    hide Emitted, JoinedEdges, Seen;
    edges, seen := before, known;
    assert joins + RelationJoins(models, model, 0) == joins;
    for k := 0 to |model.relations|
      invariant Tracks(joins + RelationJoins(models, model, k), edges, seen)
    {
      RelateOne(joins, models, model, k);
      if model.relations[k].kind == ManyToMany {
        edges, seen := RelationTable(RelationJoin(models, model, model.relations[k]), edges, seen,
                                     joins + RelationJoins(models, model, k));
      }
    }
  }

  method RelationTable(join: Join, before: seq<Edge>, known: set<string>, ghost joins: seq<Join>)
    returns (edges: seq<Edge>, seen: set<string>)
    requires join.shared && Tracks(joins, before, known)
    ensures Tracks(joins + [join], edges, seen)
  {
    edges, seen := before, known;
    TrackOne(joins, join, edges, seen);
    assert join.table in seen ==> seen + {join.table} == seen;
    if join.table !in seen {
      seen := seen + {join.table};
      edges := edges + [Edge(join.owner, join.table), Edge(join.referenced, join.table)];
    }
  }

  /** The loop over the files of a model. */
  method FileTables(model: Model, before: seq<Edge>, ghost seen: set<string>, ghost joins: seq<Join>)
    returns (edges: seq<Edge>)
    requires Tracks(joins, before, seen)
    ensures Tracks(joins + FileJoins(model, |model.files|), edges, seen)
  {
    hide Emitted, JoinedEdges, Seen;
    edges := before;
    assert joins + FileJoins(model, 0) == joins;
    for k := 0 to |model.files|
      invariant Tracks(joins + FileJoins(model, k), edges, seen)
    {
      FileOne(joins, model, k);
      if model.files[k].many {
        var join := FileJoin(model, model.files[k]);
        TrackOne(joins + FileJoins(model, k), join, edges, seen);
        edges := edges + [Edge(model.name, join.table), Edge("File", join.table)];
      }
    }
  }
}

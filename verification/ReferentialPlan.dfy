/** The models whose foreign keys are planned, and the foreign key columns their schema emits. */
module ReferentialModels {
  import opened Options

  datatype Action = Cascade | Restrict | NoAction | SetNull | SetDefault

  predicate Acting(action: Action) {
    action.Cascade? || action.SetNull? || action.SetDefault?
  }

  predicate ActingOption(action: Option<Action>) {
    action.Some? && Acting(action.value)
  }

  datatype RelationType = OneToOne | OneToMany | ManyToOne | ManyToMany

  /** `optional` is an explicit `required: false`; `mappedBy` is empty when it is not declared. */
  datatype Relation = Relation(
    field: string, target: string, kind: RelationType, owner: bool, optional: bool,
    onDelete: Option<Action>, onUpdate: Option<Action>, mappedBy: string)

  datatype FileField = FileField(field: string, many: bool)

  datatype Model = Model(
    name: string, generated: bool, relations: seq<Relation>, files: seq<FileField>,
    createdBy: bool, softDelete: bool, auth: bool)

  datatype Candidate = Candidate(
    modelName: string, foreignKey: string, referencedName: string,
    onDelete: Action, onUpdate: Option<Action>, rank: nat)

  function Upper(c: char): char {
    if 'a' <= c <= 'z' then c - 'a' + 'A' else c
  }

  function Lower(c: char): char {
    if 'A' <= c <= 'Z' then c - 'A' + 'a' else c
  }

  function Capitalize(text: string): string {
    if text == "" then "" else [Upper(text[0])] + text[1..]
  }

  function Uncapitalize(text: string): string {
    if text == "" then "" else [Lower(text[0])] + text[1..]
  }

  predicate Owns(relation: Relation) {
    relation.kind != ManyToMany && relation.owner
  }

  predicate HasField(relations: seq<Relation>, field: string) {
    exists k :: 0 <= k < |relations| && relations[k].field == field
  }

  /** Whether the inverse side a relation names is declared by the referenced model. */
  predicate Mapped(models: seq<Model>, relation: Relation) {
    relation.mappedBy != "" &&
    exists i :: 0 <= i < |models| && models[i].name == Capitalize(relation.target) &&
                HasField(models[i].relations, relation.mappedBy)
  }

  function RelationCandidate(models: seq<Model>, model: Model, relation: Relation): seq<Candidate> {
    var referenced := Capitalize(relation.target);
    if Owns(relation) then
      [Candidate(model.name, relation.field + "Id", referenced,
                 match relation.onDelete
                 case Some(action) => action
                 case None => if relation.optional then SetNull else Restrict,
                 relation.onUpdate,
                 if relation.onDelete.Some? || relation.onUpdate.Some? then 0 else 1)]
    else if relation.kind != ManyToMany && !Mapped(models, relation) then
      [Candidate(referenced, Uncapitalize(model.name) + "Id", model.name, SetNull, None, 1)]
    else []
  }

  function FileCandidate(model: Model, file: FileField): seq<Candidate> {
    if file.many then [] else [Candidate(model.name, file.field + "Id", "File", SetNull, None, 2)]
  }

  function AuditCandidates(model: Model, auth: Option<Model>): seq<Candidate> {
    match auth
    case None => []
    case Some(user) =>
      (if model.createdBy then [Candidate(model.name, "createdById", user.name, SetNull, None, 3)] else []) +
      (if model.softDelete then [Candidate(model.name, "deletedById", user.name, SetNull, None, 3)] else [])
  }

  function AuthModel(models: seq<Model>): Option<Model> {
    if models == [] then None else if models[0].auth then Some(models[0]) else AuthModel(models[1..])
  }

  function RelationCandidates(models: seq<Model>, model: Model, k: nat): seq<Candidate>
    requires k <= |model.relations|
  {
    if k == 0 then []
    else RelationCandidates(models, model, k - 1) + RelationCandidate(models, model, model.relations[k - 1])
  }

  function FileCandidates(model: Model, k: nat): seq<Candidate>
    requires k <= |model.files|
  {
    if k == 0 then [] else FileCandidates(model, k - 1) + FileCandidate(model, model.files[k - 1])
  }

  function ModelCandidates(models: seq<Model>, model: Model): seq<Candidate> {
    if !model.generated then []
    else RelationCandidates(models, model, |model.relations|) + FileCandidates(model, |model.files|) +
         AuditCandidates(model, AuthModel(models))
  }

  /** The foreign key columns of the first n models. */
  function Candidates(models: seq<Model>, n: nat): seq<Candidate>
    requires n <= |models|
  {
    if n == 0 then [] else Candidates(models, n - 1) + ModelCandidates(models, models[n - 1])
  }

  lemma CandidatesOne(models: seq<Model>, i: nat)
    requires i < |models|
    ensures Candidates(models, i + 1) == Candidates(models, i) + ModelCandidates(models, models[i])
    ensures !models[i].generated ==> Candidates(models, i + 1) == Candidates(models, i)
  {}

  method ForeignKeyCandidates(models: seq<Model>) returns (candidates: seq<Candidate>)
    ensures candidates == Candidates(models, |models|)
  {
    var auth := AuthModel(models);
    candidates := [];
    for i := 0 to |models|
      invariant candidates == Candidates(models, i)
    {
      CandidatesOne(models, i);
      if models[i].generated {
        var keys := ForeignKeysOf(models, models[i], auth);
        candidates := candidates + keys;
      }
    }
  }

  /** The body of the loop over the models. */
  method ForeignKeysOf(models: seq<Model>, model: Model, auth: Option<Model>) returns (keys: seq<Candidate>)
    requires auth == AuthModel(models) && model.generated
    ensures keys == ModelCandidates(models, model)
  {
    keys := [];
    for k := 0 to |model.relations|
      invariant keys == RelationCandidates(models, model, k)
    {
      keys := keys + RelationCandidate(models, model, model.relations[k]);
    }
    var fileKeys := [];
    for k := 0 to |model.files|
      invariant fileKeys == FileCandidates(model, k)
    {
      fileKeys := fileKeys + FileCandidate(model, model.files[k]);
    }
    keys := keys + fileKeys + AuditCandidates(model, auth);
  }

  /** The relations to the auth model that record who created or deleted a record hold the last rank,
      and no other foreign key does. */
  lemma {:induction false} RanksAreBounded(models: seq<Model>, n: nat, c: Candidate)
    requires n <= |models| && c in Candidates(models, n)
    ensures c.rank <= 3 && (c.rank == 3 <==> c in AllAudits(models, n))
  {
    hide *;
    if n == 0 {
      NoCandidates(models);
    } else {
      var m := models[n - 1];
      CandidatesOne(models, n - 1);
      AuditsOne(models, n - 1);
      AuditRank(models, n, c);
      if c in Candidates(models, n - 1) {
        RanksAreBounded(models, n - 1, c);
      }
      if c in ModelCandidates(models, m) {
        ModelRank(models, m, c);
      }
      RanksOneMore(Candidates(models, n - 1), ModelCandidates(models, m), AllAudits(models, n - 1),
                   if m.generated then AuditCandidates(m, AuthModel(models)) else [], c);
    }
  }

  lemma NoCandidates(models: seq<Model>)
    ensures Candidates(models, 0) == []
  {}

  lemma RanksOneMore(before: seq<Candidate>, more: seq<Candidate>, audits: seq<Candidate>, moreAudits: seq<Candidate>,
                     c: Candidate)
    requires c in before ==> c.rank <= 3 && (c.rank == 3 <==> c in audits)
    requires c in more ==> c.rank <= 3 && (c.rank == 3 ==> c in moreAudits)
    requires c in audits + moreAudits ==> c.rank == 3
    requires c in before + more
    ensures c.rank <= 3 && (c.rank == 3 <==> c in audits + moreAudits)
  {
    InEither(before, more, c);
    InEither(audits, moreAudits, c);
  }

  lemma InEither(a: seq<Candidate>, b: seq<Candidate>, c: Candidate)
    ensures c in a + b <==> c in a || c in b
  {}

  lemma ModelRank(models: seq<Model>, model: Model, c: Candidate)
    requires c in ModelCandidates(models, model)
    ensures c.rank <= 3 && (c.rank == 3 ==> model.generated && c in AuditCandidates(model, AuthModel(models)))
  {
    hide RelationCandidates, FileCandidates, AuthModel;
    var relations, files := RelationCandidates(models, model, |model.relations|), FileCandidates(model, |model.files|);
    InEither(relations + files, AuditCandidates(model, AuthModel(models)), c);
    InEither(relations, files, c);
    RelationRank(models, model, |model.relations|, c);
    FileRank(model, |model.files|, c);
  }

  lemma AuditsOne(models: seq<Model>, i: nat)
    requires i < |models|
    ensures AllAudits(models, i + 1) ==
            AllAudits(models, i) + (if models[i].generated then AuditCandidates(models[i], AuthModel(models)) else [])
  {}

  ghost function AllAudits(models: seq<Model>, n: nat): seq<Candidate>
    requires n <= |models|
  {
    if n == 0 then []
    else AllAudits(models, n - 1) +
         (if models[n - 1].generated then AuditCandidates(models[n - 1], AuthModel(models)) else [])
  }

  lemma {:induction false} AuditRank(models: seq<Model>, n: nat, c: Candidate)
    requires n <= |models|
    ensures c in AllAudits(models, n) ==> c.rank == 3
  {
    if n > 0 {
      AuditRank(models, n - 1, c);
    }
  }

  lemma {:induction false} RelationRank(models: seq<Model>, model: Model, k: nat, c: Candidate)
    requires k <= |model.relations|
    ensures c in RelationCandidates(models, model, k) ==> c.rank <= 1
  {
    if k > 0 {
      RelationRank(models, model, k - 1, c);
    }
  }

  lemma {:induction false} FileRank(model: Model, k: nat, c: Candidate)
    requires k <= |model.files|
    ensures c in FileCandidates(model, k) ==> c.rank == 2
  {
    if k > 0 {
      FileRank(model, k - 1, c);
    }
  }
}

/** The plan itself: which of the asked referential actions the database runs. */
module ReferentialPlan {
  import opened Options
  import opened Walks
  import opened ActionGraphs
  import opened ReferentialModels
  import opened JoinTables

  datatype ForeignKey = ForeignKey(
    modelName: string, foreignKey: string, referencedName: string,
    onDelete: Action, onUpdate: Option<Action>, dbOnDelete: Action, dbOnUpdate: Action)

  // The stable order by rank

  function OfRank(candidates: seq<Candidate>, rank: nat, n: nat): (order: seq<nat>)
    requires n <= |candidates|
    ensures forall k :: 0 <= k < |order| ==> order[k] < n && candidates[order[k]].rank == rank
    ensures forall a, b :: 0 <= a < b < |order| ==> order[a] < order[b]
  {
    if n == 0 then []
    else if candidates[n - 1].rank == rank then OfRank(candidates, rank, n - 1) + [n - 1]
    else OfRank(candidates, rank, n - 1)
  }

  /** The positions of the candidates below a rank, sorted by rank and otherwise left in order. */
  function RankedBelow(candidates: seq<Candidate>, rank: nat): (order: seq<nat>)
    ensures forall k :: 0 <= k < |order| ==> order[k] < |candidates| && candidates[order[k]].rank < rank
  {
    if rank == 0 then [] else RankedBelow(candidates, rank - 1) + OfRank(candidates, rank - 1, |candidates|)
  }

  ghost predicate Before(candidates: seq<Candidate>, i: nat, j: nat) {
    i < |candidates| && j < |candidates| &&
    (candidates[i].rank < candidates[j].rank || (candidates[i].rank == candidates[j].rank && i < j))
  }

  lemma {:induction false} OfRankHolds(candidates: seq<Candidate>, n: nat, i: nat)
    requires i < n <= |candidates|
    ensures i in OfRank(candidates, candidates[i].rank, n)
  {
    if i < n - 1 {
      OfRankHolds(candidates, n - 1, i);
    }
  }

  lemma RankedOne(candidates: seq<Candidate>, rank: nat)
    ensures RankedBelow(candidates, rank) ==
            if rank == 0 then [] else RankedBelow(candidates, rank - 1) + OfRank(candidates, rank - 1, |candidates|)
  {}

  lemma {:induction false} RankedHolds(candidates: seq<Candidate>, rank: nat, i: nat)
    requires i < |candidates| && candidates[i].rank < rank
    ensures i in RankedBelow(candidates, rank)
  {
    hide RankedBelow, OfRank;
    RankedOne(candidates, rank);
    if candidates[i].rank == rank - 1 {
      OfRankHolds(candidates, |candidates|, i);
    } else {
      RankedHolds(candidates, rank - 1, i);
    }
  }

  /** No two positions are out of order. With every position held, this is the one stable sort by rank. */
  lemma {:induction false} RankedIsStableSort(candidates: seq<Candidate>, rank: nat, a: nat, b: nat)
    requires a < b < |RankedBelow(candidates, rank)|
    ensures Before(candidates, RankedBelow(candidates, rank)[a], RankedBelow(candidates, rank)[b])
  {
    hide RankedBelow, OfRank;
    RankedOne(candidates, rank);
    if rank > 0 {
      var low := RankedBelow(candidates, rank - 1);
      if b < |low| {
        RankedIsStableSort(candidates, rank - 1, a, b);
      } else {
        LaterIsAfter(candidates, rank - 1, low, OfRank(candidates, rank - 1, |candidates|), a, b);
      }
    }
  }

  lemma LaterIsAfter(candidates: seq<Candidate>, rank: nat, low: seq<nat>, high: seq<nat>, a: nat, b: nat)
    requires a < b && |low| <= b < |low| + |high|
    requires forall k :: 0 <= k < |low| ==> low[k] < |candidates| && candidates[low[k]].rank < rank
    requires forall k :: 0 <= k < |high| ==> high[k] < |candidates| && candidates[high[k]].rank == rank
    requires forall k, l :: 0 <= k < l < |high| ==> high[k] < high[l]
    ensures Before(candidates, (low + high)[a], (low + high)[b])
  {}

  // The greedy choice

  function EdgeOf(candidate: Candidate): Edge {
    Edge(candidate.referencedName, candidate.modelName)
  }

  /** Whether a foreign key asks for an action the plan may keep. */
  predicate Eligible(candidate: Candidate) {
    candidate.rank < 3 && (Acting(candidate.onDelete) || ActingOption(candidate.onUpdate))
  }

  ghost predicate InRange(candidates: seq<Candidate>, order: seq<nat>) {
    forall k :: 0 <= k < |order| ==> order[k] < |candidates|
  }

  /** The edges of the chosen candidates, in the given order. */
  ghost function Chosen(candidates: seq<Candidate>, order: seq<nat>, kept: set<nat>): seq<Edge>
    requires InRange(candidates, order)
  {
    if order == [] then []
    else
      var init, last := order[..|order| - 1], order[|order| - 1];
      Chosen(candidates, init, kept) + if last in kept then [EdgeOf(candidates[last])] else []
  }

  ghost function Greedy(joins: seq<Edge>, candidates: seq<Candidate>, order: seq<nat>): set<nat>
    requires InRange(candidates, order)
  {
    if order == [] then {}
    else
      var init, last := order[..|order| - 1], order[|order| - 1];
      var kept := Greedy(joins, candidates, init);
      var e := EdgeOf(candidates[last]);
      if Eligible(candidates[last]) && !Blocked(joins + Chosen(candidates, init, kept), e.from, e.to)
      then kept + {last} else kept
  }

  function Resolve(candidate: Candidate, keep: bool): ForeignKey {
    ForeignKey(candidate.modelName, candidate.foreignKey, candidate.referencedName,
               candidate.onDelete, candidate.onUpdate,
               if keep && Acting(candidate.onDelete) then candidate.onDelete else NoAction,
               if keep && ActingOption(candidate.onUpdate) then candidate.onUpdate.value else NoAction)
  }

  ghost function KeptOf(models: seq<Model>): set<nat> {
    var candidates := Candidates(models, |models|);
    Greedy(JoinEdges(models), candidates, RankedBelow(candidates, 4))
  }

  /** The foreign keys with the actions the database runs. */
  ghost function Plan(models: seq<Model>): seq<ForeignKey> {
    var candidates := Candidates(models, |models|);
    seq(|candidates|, i requires 0 <= i < |candidates| => Resolve(candidates[i], i in KeptOf(models)))
  }

  lemma {:induction false} ChosenIgnoresOthers(candidates: seq<Candidate>, order: seq<nat>, kept: set<nat>, i: nat)
    requires InRange(candidates, order) && i !in order
    ensures Chosen(candidates, order, kept + {i}) == Chosen(candidates, order, kept)
  {
    if order != [] {
      ChosenIgnoresOthers(candidates, order[..|order| - 1], kept, i);
    }
  }

  lemma {:induction false} GreedyChoosesFromOrder(joins: seq<Edge>, candidates: seq<Candidate>, order: seq<nat>)
    requires InRange(candidates, order)
    ensures forall i :: i in Greedy(joins, candidates, order) ==> i in order && Eligible(candidates[i])
  {
    if order != [] {
      GreedyChoosesFromOrder(joins, candidates, order[..|order| - 1]);
    }
  }

  ghost predicate Distinct<T>(s: seq<T>) {
    forall a, b :: 0 <= a < b < |s| ==> s[a] != s[b]
  }

  /** The graph after the greedy choice extends the one before its last step. */
  lemma GreedyStep(joins: seq<Edge>, candidates: seq<Candidate>, order: seq<nat>)
    requires InRange(candidates, order) && Distinct(order) && order != []
    ensures var init, last := order[..|order| - 1], order[|order| - 1];
            var kept := Greedy(joins, candidates, init);
            var kept' := Greedy(joins, candidates, order);
            && Chosen(candidates, order, kept') ==
               Chosen(candidates, init, kept) + (if last in kept' then [EdgeOf(candidates[last])] else [])
            && kept' == (if last in kept' then kept + {last} else kept)
            && (last in kept' <==>
                Eligible(candidates[last]) &&
                !Blocked(joins + Chosen(candidates, init, kept), candidates[last].referencedName,
                         candidates[last].modelName))
  {
    var init, last := order[..|order| - 1], order[|order| - 1];
    GreedyChoosesFromOrder(joins, candidates, init);
    assert last !in init;
    ChosenIgnoresOthers(candidates, init, Greedy(joins, candidates, init), last);
  }

  method SqlServerForeignKeys(models: seq<Model>) returns (foreignKeys: seq<ForeignKey>)
    ensures foreignKeys == Plan(models)
  {
    hide Greedy, Chosen, Candidates, JoinEdges, RankedBelow, Represents;
    var graph := new ActionGraph();
    var joins := JoinTableEdges(models);
    for k := 0 to |joins|
      invariant fresh(graph) && graph.Valid() && graph.Edges == joins[..k]
    {
      graph.Add(joins[k].from, joins[k].to);
    }
    assert joins[..|joins|] == joins;
    var candidates := ForeignKeyCandidates(models);
    var ranked := RankedBelow(candidates, 4);
    RankedIsDistinct(candidates, 4);
    var kept := KeepRanked(graph, candidates, ranked);
    foreignKeys := seq(|candidates|, i requires 0 <= i < |candidates| => Resolve(candidates[i], i in kept));
  }

  lemma RankedIsDistinct(candidates: seq<Candidate>, rank: nat)
    ensures Distinct(RankedBelow(candidates, rank))
  {
    var order := RankedBelow(candidates, rank);
    forall a, b | 0 <= a < b < |order| ensures order[a] != order[b] {
      RankedIsStableSort(candidates, rank, a, b);
    }
  }

  lemma GreedyStart(joins: seq<Edge>, candidates: seq<Candidate>)
    ensures Greedy(joins, candidates, []) == {} && joins + Chosen(candidates, [], {}) == joins
  {}

  /** The loop over the ranked candidates, which adds the ones it keeps to the graph. */
  method KeepRanked(graph: ActionGraph, candidates: seq<Candidate>, ranked: seq<nat>) returns (kept: set<nat>)
    requires graph.Valid() && InRange(candidates, ranked) && Distinct(ranked)
    modifies graph
    ensures graph.Valid()
    ensures kept == Greedy(old(graph.Edges), candidates, ranked)
    ensures graph.Edges == old(graph.Edges) + Chosen(candidates, ranked, kept)
  {
    hide Greedy, Chosen, Blocked, Represents;
    ghost var joins := graph.Edges;
    kept := {};
    assert ranked[..0] == [];
    GreedyStart(joins, candidates);
    for j := 0 to |ranked|
      invariant graph.Valid()
      invariant kept == Greedy(joins, candidates, ranked[..j])
      invariant graph.Edges == joins + Chosen(candidates, ranked[..j], kept)
    {
      var candidate := candidates[ranked[j]];
      assert ranked[..j + 1][..j] == ranked[..j];
      GreedyStep(joins, candidates, ranked[..j + 1]);
      if Eligible(candidate) {
        var accepted := graph.Accepts(candidate.referencedName, candidate.modelName);
        if accepted {
          graph.Add(candidate.referencedName, candidate.modelName);
          kept := kept + {ranked[j]};
        }
      }
    }
    assert ranked[..|ranked|] == ranked;
  }
}

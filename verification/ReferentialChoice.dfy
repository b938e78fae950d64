/** Which actions the plan keeps, and which it leaves to nobody. packages/common/utils/referential-util.ts */
module ReferentialChoice {
  import opened Options
  import opened Walks
  import opened SoleEdges
  import opened ReferentialModels
  import opened JoinTables
  import opened ReferentialPlan
  import opened ReferentialPromises

  /** The edge of a kept candidate has no alternative in the graph of the greedy choice. */
  lemma {:induction false} KeptIsSole(joins: seq<Edge>, candidates: seq<Candidate>, order: seq<nat>, i: nat)
    returns (k: nat)
    requires InRange(candidates, order) && Distinct(order)
    requires i in Greedy(joins, candidates, order)
    ensures i < |candidates|
    ensures var graph := joins + Chosen(candidates, order, Greedy(joins, candidates, order));
            Sole(graph, k) && graph[k] == EdgeOf(candidates[i])
  {
    hide Chosen, Sole, Blocked;
    GreedyChoosesFromOrder(joins, candidates, order);
    assert i in order;
    var init, last := order[..|order| - 1], order[|order| - 1];
    GreedyStep(joins, candidates, order);
    var graph := joins + Chosen(candidates, init, Greedy(joins, candidates, init));
    var e := EdgeOf(candidates[last]);
    assert joins + Chosen(candidates, order, Greedy(joins, candidates, order)) ==
           if last in Greedy(joins, candidates, order) then graph + [e] else graph;
    if i == last {
      k := |graph|;
      AddedIsSole(graph, e);
    } else {
      k := KeptIsSole(joins, candidates, init, i);
      SoleIsInRange(graph, k);
      if last in Greedy(joins, candidates, order) {
        SoleStays(graph, e, k);
      }
    }
  }

  lemma SoleIsInRange(edges: seq<Edge>, k: nat)
    requires Sole(edges, k)
    ensures k < |edges|
  {}

  ghost function ActingEdge(fk: ForeignKey): multiset<Edge> {
    if fk.dbOnDelete != NoAction || fk.dbOnUpdate != NoAction then multiset{Edge(fk.referencedName, fk.modelName)}
    else multiset{}
  }

  lemma ActingOneMore(foreignKeys: seq<ForeignKey>, fk: ForeignKey)
    ensures multiset(ActingEdges(foreignKeys + [fk])) == multiset(ActingEdges(foreignKeys)) + ActingEdge(fk)
  {
    assert (foreignKeys + [fk])[..|foreignKeys|] == foreignKeys;
  }

  lemma WithoutInit(foreignKeys: seq<ForeignKey>, i: nat)
    requires i < |foreignKeys| - 1
    ensures var init, last := foreignKeys[..|foreignKeys| - 1], foreignKeys[|foreignKeys| - 1];
            foreignKeys == init + [last] && Without(foreignKeys, i) == Without(init, i) + [last]
  {}

  lemma {:induction false} ActingWithout(foreignKeys: seq<ForeignKey>, i: nat)
    requires i < |foreignKeys|
    ensures multiset(ActingEdges(foreignKeys)) ==
            multiset(ActingEdges(Without(foreignKeys, i))) + ActingEdge(foreignKeys[i])
  {
    hide ActingEdges, ActingEdge;
    var init, last := foreignKeys[..|foreignKeys| - 1], foreignKeys[|foreignKeys| - 1];
    assert foreignKeys == init + [last];
    ActingOneMore(init, last);
    if i == |foreignKeys| - 1 {
      assert Without(foreignKeys, i) == init;
    } else {
      WithoutInit(foreignKeys, i);
      ActingWithout(init, i);
      ActingOneMore(Without(init, i), last);
    }
  }

  /** The cascades of the join tables and the actions the database runs for the other foreign keys. */
  ghost function Others(models: seq<Model>, i: nat): seq<Edge>
    requires i < |Plan(models)|
  {
    JoinEdges(models) + ActingEdges(Without(Plan(models), i))
  }

  lemma ActsWhenKept(models: seq<Model>, i: nat)
    requires i < |Plan(models)| && MayAct(models, i)
    ensures Acts(models, i) <==> i in KeptOf(models)
  {
    hide Candidates, KeptOf;
  }

  lemma OthersAre(models: seq<Model>, i: nat)
    requires i < |Plan(models)|
    ensures var candidates := Candidates(models, |models|);
            multiset(JoinEdges(models) + Chosen(candidates, RankedBelow(candidates, 4), KeptOf(models))) ==
            multiset(Others(models, i)) + ActingEdge(Plan(models)[i])
  {
    hide Candidates, Chosen, RankedBelow, KeptOf, ActingEdges, ActingEdge, Plan;
    ActingEdgesAreChosen(models);
    ActingWithout(Plan(models), i);
  }

  /** The plan keeps an action exactly when it fits beside the cascades of the join tables and all the
      other actions kept, whatever the models. */
  lemma KeptExactlyWhenFits(models: seq<Model>, i: nat)
    requires i < |Plan(models)| && MayAct(models, i)
    ensures Acts(models, i) <==> !Blocked(Others(models, i), Plan(models)[i].referencedName, Plan(models)[i].modelName)
  {
    hide *;
    var candidates := Candidates(models, |models|);
    PlanNames(models, i);
    ActsWhenKept(models, i);
    OthersAre(models, i);
    if Acts(models, i) {
      KeptFits(models, i);
    } else {
      LeftOutIsBlockedByOthers(models, i);
    }
  }

  lemma PlanNames(models: seq<Model>, i: nat)
    requires i < |Plan(models)|
    ensures |Candidates(models, |models|)| == |Plan(models)|
    ensures EdgeOf(Candidates(models, |models|)[i]) == Edge(Plan(models)[i].referencedName, Plan(models)[i].modelName)
    ensures Plan(models)[i].onDelete == Candidates(models, |models|)[i].onDelete
  {
    hide Candidates, KeptOf;
  }

  lemma KeptFits(models: seq<Model>, i: nat)
    requires i < |Plan(models)| && i in KeptOf(models) && Acts(models, i)
    ensures !Blocked(Others(models, i), Plan(models)[i].referencedName, Plan(models)[i].modelName)
  {
    hide Candidates, Chosen, RankedBelow, ActingEdges, Plan, Greedy, Sole, Blocked, JoinEdges, Others;
    var candidates := Candidates(models, |models|);
    var order := RankedBelow(candidates, 4);
    var graph := JoinEdges(models) + Chosen(candidates, order, KeptOf(models));
    PlanNames(models, i);
    OthersAre(models, i);
    RankedIsDistinct(candidates, 4);
    var k := KeptIsSole(JoinEdges(models), candidates, order, i);
    SoleIsInRange(graph, k);
    SoleIsUnblocked(graph, k);
    Removed(graph, k);
    if Blocked(Others(models, i), graph[k].from, graph[k].to) {
      MoreEdgesBlock(Others(models, i), graph[..k] + graph[k + 1..], graph[k].from, graph[k].to);
    }
  }

  lemma LeftOutIsBlockedByOthers(models: seq<Model>, i: nat)
    requires i < |Plan(models)| && MayAct(models, i) && i !in KeptOf(models) && !Acts(models, i)
    ensures Blocked(Others(models, i), Plan(models)[i].referencedName, Plan(models)[i].modelName)
  {
    hide Candidates, Chosen, RankedBelow, ActingEdges, Plan, Greedy, Blocked, JoinEdges, Others, Eligible;
    var candidates := Candidates(models, |models|);
    var order := RankedBelow(candidates, 4);
    var graph := JoinEdges(models) + Chosen(candidates, order, KeptOf(models));
    PlanNames(models, i);
    OthersAre(models, i);
    EligibleIsRanked(candidates, i);
    RankedIsDistinct(candidates, 4);
    LeftOutIsBlocked(JoinEdges(models), candidates, order, i);
    MoreEdgesBlock(graph, Others(models, i), candidates[i].referencedName, candidates[i].modelName);
  }

  lemma EligibleIsRanked(candidates: seq<Candidate>, i: nat)
    requires i < |candidates| && Eligible(candidates[i])
    ensures i in RankedBelow(candidates, 4)
  {
    RankedHolds(candidates, 4, i);
  }

  // The actions nobody applies

  /** Neither the database nor the data layer applies the action on delete of a foreign key. */
  ghost predicate Lost(models: seq<Model>, i: nat)
    requires i < |Plan(models)|
  {
    var fk := Plan(models)[i];
    fk.dbOnDelete != fk.onDelete && fk !in EmulatedForeignKeys(Plan(models), fk.referencedName)
  }

  lemma {:induction false} AuditsSetNull(models: seq<Model>, n: nat, c: Candidate)
    requires n <= |models| && c in AllAudits(models, n)
    ensures c.onDelete == SetNull
  {
    if c in AllAudits(models, n - 1) {
      AuditsSetNull(models, n - 1, c);
    }
  }

  lemma SetDefaultIsEligible(models: seq<Model>, i: nat)
    requires i < |Plan(models)| && Plan(models)[i].onDelete == SetDefault
    ensures MayAct(models, i)
  {
    hide Candidates, AllAudits, Plan;
    PlanNames(models, i);
    var c := Candidates(models, |models|)[i];
    RanksAreBounded(models, |models|, c);
    if c.rank == 3 {
      AuditsSetNull(models, |models|, c);
    }
  }

  /** A set default that does not fit beside the other actions is applied by neither. Every other acting
      action is applied. */
  lemma OnlySetDefaultIsLost(models: seq<Model>, i: nat)
    requires i < |Plan(models)|
    requires Plan(models)[i].onDelete == Cascade || Plan(models)[i].onDelete == SetNull ||
             Plan(models)[i].onDelete == SetDefault
    ensures Lost(models, i) <==>
            Plan(models)[i].onDelete == SetDefault &&
            Blocked(Others(models, i), Plan(models)[i].referencedName, Plan(models)[i].modelName)
  {
    hide Others, Blocked, Eligible, Candidates, KeptOf;
    var fk := Plan(models)[i];
    EmulatedAre(Plan(models), fk.referencedName, fk);
    if fk.onDelete == SetDefault {
      SetDefaultIsEligible(models, i);
      KeptExactlyWhenFits(models, i);
      ActsWhenKept(models, i);
    }
  }

  /** So every set default of a model that references itself is lost. */
  lemma SetDefaultOfItselfIsLost(models: seq<Model>, i: nat)
    requires i < |Plan(models)| && Plan(models)[i].onDelete == SetDefault
    requires Plan(models)[i].modelName == Plan(models)[i].referencedName
    ensures Lost(models, i)
  {
    hide Lost, Plan, Others, Blocked;
    OnlySetDefaultIsLost(models, i);
    LoopIsBlocked(Others(models, i), Plan(models)[i].modelName);
  }

  /** Such a model: users with a manager. */
  lemma ManagerIsLost()
    ensures var manager := Relation("manager", "user", ManyToOne, true, false, Some(SetDefault), None, "");
            var models := [Model("User", true, [manager], [], false, false, false)];
            |Plan(models)| == 1 && Plan(models)[0].onDelete == SetDefault && Plan(models)[0].dbOnDelete == NoAction &&
            EmulatedForeignKeys(Plan(models), "User") == []
  {
    var manager := Relation("manager", "user", ManyToOne, true, false, Some(SetDefault), None, "");
    var models := [Model("User", true, [manager], [], false, false, false)];
    hide *;
    ManagerIsListed(models, manager);
    ManagerIsPlanned(models);
    SetDefaultOfItselfIsLost(models, 0);
    LostIsLeft(models);
  }

  lemma ManagerIsListed(models: seq<Model>, manager: Relation)
    requires manager == Relation("manager", "user", ManyToOne, true, false, Some(SetDefault), None, "")
    requires models == [Model("User", true, [manager], [], false, false, false)]
    ensures Candidates(models, 1) == [Candidate("User", "manager" + "Id", "User", SetDefault, None, 0)]
  {
    PlainNamed();
    hide Capitalize;
    assert RelationCandidate(models, models[0], manager) ==
           [Candidate("User", "manager" + "Id", "User", SetDefault, None, 0)];
    assert RelationCandidates(models, models[0], 0) == [];
    assert FileCandidates(models[0], 0) == [];
    assert AuthModel(models[1..]) == None;
    assert Candidates(models, 0) == [];
  }

  lemma PlainNamed()
    ensures Capitalize("user") == "User"
  {}

  lemma ManagerIsPlanned(models: seq<Model>)
    requires |models| == 1
    requires Candidates(models, 1) == [Candidate("User", "manager" + "Id", "User", SetDefault, None, 0)]
    ensures |Plan(models)| == 1 && Plan(models)[0].onDelete == SetDefault
    ensures Plan(models)[0].modelName == "User" && Plan(models)[0].referencedName == "User"
  {
    hide KeptOf, Candidates;
  }

  lemma LostIsLeft(models: seq<Model>)
    requires |Plan(models)| == 1 && Plan(models)[0].onDelete == SetDefault && Plan(models)[0].referencedName == "User"
    requires Lost(models, 0)
    ensures Plan(models)[0].dbOnDelete == NoAction && EmulatedForeignKeys(Plan(models), "User") == []
  {
    hide KeptOf, Candidates;
    assert Plan(models)[1..] == [];
    assert EmulatedForeignKeys([], "User") == [];
  }
}

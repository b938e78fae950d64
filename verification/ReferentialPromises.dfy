/** What the plan promises: the shape of the kept actions, and who applies which action.
    packages/common/utils/referential-util.ts */
module ReferentialPromises {
  import opened Options
  import opened Walks
  import opened ReferentialModels
  import opened JoinTables
  import opened JoinTableShapes
  import opened ReferentialPlan

  lemma {:induction false} GreedyKeepsAdmissible(joins: seq<Edge>, candidates: seq<Candidate>, order: seq<nat>)
    requires InRange(candidates, order) && Distinct(order)
    requires Admissible(joins)
    ensures Admissible(joins + Chosen(candidates, order, Greedy(joins, candidates, order)))
  {
    if order == [] {
      assert joins + [] == joins;
    } else {
      var init, last := order[..|order| - 1], order[|order| - 1];
      GreedyKeepsAdmissible(joins, candidates, init);
      GreedyStep(joins, candidates, order);
      var old_ := joins + Chosen(candidates, init, Greedy(joins, candidates, init));
      if last in Greedy(joins, candidates, order) {
        AdmissibleExactly(old_, EdgeOf(candidates[last]));
        assert joins + Chosen(candidates, order, Greedy(joins, candidates, order)) == old_ + [EdgeOf(candidates[last])];
      } else {
        assert joins + Chosen(candidates, order, Greedy(joins, candidates, order)) == old_;
      }
    }
  }

  /** An eligible candidate the greedy choice leaves out is blocked in the final graph. */
  lemma {:induction false} LeftOutIsBlocked(joins: seq<Edge>, candidates: seq<Candidate>, order: seq<nat>, i: nat)
    requires InRange(candidates, order) && Distinct(order)
    requires i in order && Eligible(candidates[i]) && i !in Greedy(joins, candidates, order)
    ensures Blocked(joins + Chosen(candidates, order, Greedy(joins, candidates, order)),
                    candidates[i].referencedName, candidates[i].modelName)
  {
    var init, last := order[..|order| - 1], order[|order| - 1];
    GreedyStep(joins, candidates, order);
    var graph := joins + Chosen(candidates, init, Greedy(joins, candidates, init));
    var more := if last in Greedy(joins, candidates, order) then [EdgeOf(candidates[last])] else [];
    assert joins + Chosen(candidates, order, Greedy(joins, candidates, order)) == graph + more;
    if i != last {
      LeftOutIsBlocked(joins, candidates, init, i);
    }
    BlockedStays(graph, more, candidates[i].referencedName, candidates[i].modelName);
  }

  // The same in the order the foreign keys are listed in

  /** The edges of the foreign keys the database runs an action of. */
  ghost function ActingEdges(foreignKeys: seq<ForeignKey>): seq<Edge> {
    if foreignKeys == [] then []
    else
      var init, last := foreignKeys[..|foreignKeys| - 1], foreignKeys[|foreignKeys| - 1];
      ActingEdges(init) +
      if last.dbOnDelete != NoAction || last.dbOnUpdate != NoAction then [Edge(last.referencedName, last.modelName)]
      else []
  }

  ghost function UpTo(n: nat): seq<nat> {
    if n == 0 then [] else UpTo(n - 1) + [n - 1]
  }

  lemma {:induction false} UpToHolds(n: nat)
    ensures |UpTo(n)| == n && forall k :: 0 <= k < n ==> UpTo(n)[k] == k
  {
    if n > 0 {
      UpToHolds(n - 1);
    }
  }

  ghost predicate SameMembers(order: seq<nat>, order': seq<nat>) {
    forall i :: i in order <==> i in order'
  }

  ghost function Without<T>(items: seq<T>, k: nat): seq<T>
    requires k < |items|
  {
    items[..k] + items[k + 1..]
  }

  ghost function ChosenOne(candidates: seq<Candidate>, i: nat, kept: set<nat>): multiset<Edge>
    requires i < |candidates|
  {
    if i in kept then multiset{EdgeOf(candidates[i])} else multiset{}
  }

  lemma ChosenAppended(candidates: seq<Candidate>, order: seq<nat>, last: nat, kept: set<nat>)
    requires InRange(candidates, order) && last < |candidates|
    ensures multiset(Chosen(candidates, order + [last], kept)) ==
            multiset(Chosen(candidates, order, kept)) + ChosenOne(candidates, last, kept)
  {
    assert (order + [last])[..|order|] == order;
  }

  lemma WithoutFromInit(order: seq<nat>, k: nat)
    requires k < |order| - 1
    ensures order == order[..|order| - 1] + [order[|order| - 1]]
    ensures Without(order, k) == Without(order[..|order| - 1], k) + [order[|order| - 1]]
  {}

  lemma WithoutInRange(candidates: seq<Candidate>, order: seq<nat>, k: nat)
    requires InRange(candidates, order) && k < |order|
    ensures InRange(candidates, Without(order, k))
  {}

  lemma {:induction false} ChosenWithout(candidates: seq<Candidate>, order: seq<nat>, kept: set<nat>, k: nat)
    requires InRange(candidates, order) && k < |order| && InRange(candidates, Without(order, k))
    ensures multiset(Chosen(candidates, order, kept)) ==
            multiset(Chosen(candidates, Without(order, k), kept)) + ChosenOne(candidates, order[k], kept)
  {
    var init, last := order[..|order| - 1], order[|order| - 1];
    assert order == init + [last];
    ChosenAppended(candidates, init, last, kept);
    if k == |order| - 1 {
      assert Without(order, k) == init;
    } else {
      WithoutInRange(candidates, init, k);
      ChosenWithout(candidates, init, kept, k);
      WithoutFromInit(order, k);
      ChosenAppended(candidates, Without(init, k), last, kept);
    }
  }

  lemma {:induction false} ChosenInAnyOrder(candidates: seq<Candidate>, order: seq<nat>, order': seq<nat>,
                                            kept: set<nat>)
    requires InRange(candidates, order) && InRange(candidates, order')
    requires Distinct(order) && Distinct(order') && SameMembers(order, order')
    ensures multiset(Chosen(candidates, order, kept)) == multiset(Chosen(candidates, order', kept))
  {
    assert order' != [] ==> order'[0] in order;
    if order != [] {
      var k := |order| - 1;
      assert order[k] in order';
      var l :| 0 <= l < |order'| && order'[l] == order[k];
      WithoutInRange(candidates, order, k);
      WithoutInRange(candidates, order', l);
      ChosenWithout(candidates, order, kept, k);
      ChosenWithout(candidates, order', kept, l);
      WithoutKeepsMembers(order, order', k, l);
      ChosenInAnyOrder(candidates, Without(order, k), Without(order', l), kept);
    }
  }

  lemma WithoutKeepsMembers(order: seq<nat>, order': seq<nat>, k: nat, l: nat)
    requires Distinct(order) && Distinct(order') && SameMembers(order, order')
    requires k < |order| && l < |order'| && order[k] == order'[l]
    ensures Distinct(Without(order, k)) && Distinct(Without(order', l))
    ensures SameMembers(Without(order, k), Without(order', l))
  {
    forall i ensures i in Without(order, k) <==> i in order && i != order[k] {
      WithoutHolds(order, k, i);
    }
    forall i ensures i in Without(order', l) <==> i in order' && i != order'[l] {
      WithoutHolds(order', l, i);
    }
  }

  lemma WithoutHolds(order: seq<nat>, k: nat, i: nat)
    requires Distinct(order) && k < |order|
    ensures i in Without(order, k) <==> i in order && i != order[k]
  {
    if i in order && i != order[k] {
      var j :| 0 <= j < |order| && order[j] == i;
      if j < k {
        assert Without(order, k)[j] == i;
      } else {
        assert Without(order, k)[j - 1] == i;
      }
    }
  }

  lemma {:induction false} ActingIsChosen(candidates: seq<Candidate>, resolved: seq<ForeignKey>, kept: set<nat>)
    requires |resolved| <= |candidates|
    requires forall i :: 0 <= i < |resolved| ==> resolved[i] == Resolve(candidates[i], i in kept)
    requires forall i :: i in kept && i < |candidates| ==> Eligible(candidates[i])
    ensures InRange(candidates, UpTo(|resolved|))
    ensures ActingEdges(resolved) == Chosen(candidates, UpTo(|resolved|), kept)
  {
    var n := |resolved|;
    UpToHolds(n);
    if n > 0 {
      ActingIsChosen(candidates, resolved[..n - 1], kept);
      assert UpTo(n)[..n - 1] == UpTo(n - 1);
    }
  }

  lemma ListedAndRanked(models: seq<Model>)
    ensures var candidates := Candidates(models, |models|);
            var listed, ranked := UpTo(|candidates|), RankedBelow(candidates, 4);
            InRange(candidates, listed) && Distinct(listed) && Distinct(ranked) && SameMembers(listed, ranked)
  {
    var candidates := Candidates(models, |models|);
    hide Candidates, RankedBelow, OfRank, AllAudits;
    UpToHolds(|candidates|);
    RankedIsDistinct(candidates, 4);
    forall i ensures i in UpTo(|candidates|) <==> i in RankedBelow(candidates, 4) {
      if i in UpTo(|candidates|) {
        RanksAreBounded(models, |models|, candidates[i]);
        RankedHolds(candidates, 4, i);
      }
      if i in RankedBelow(candidates, 4) {
        assert UpTo(|candidates|)[i] == i;
      }
    }
  }

  lemma PlanActs(models: seq<Model>)
    ensures var candidates := Candidates(models, |models|);
            InRange(candidates, UpTo(|candidates|)) &&
            ActingEdges(Plan(models)) == Chosen(candidates, UpTo(|candidates|), KeptOf(models))
  {
    hide Candidates, Greedy, Chosen, RankedBelow, ActingEdges;
    var candidates := Candidates(models, |models|);
    GreedyChoosesFromOrder(JoinEdges(models), candidates, RankedBelow(candidates, 4));
    ActingIsChosen(candidates, Plan(models), KeptOf(models));
  }

  /** The edges the database acts on are the chosen ones. */
  lemma ActingEdgesAreChosen(models: seq<Model>)
    ensures var candidates := Candidates(models, |models|);
            multiset(ActingEdges(Plan(models))) ==
            multiset(Chosen(candidates, RankedBelow(candidates, 4), KeptOf(models)))
  {
    hide Candidates, Chosen, RankedBelow, ActingEdges, Plan, KeptOf;
    var candidates := Candidates(models, |models|);
    ListedAndRanked(models);
    PlanActs(models);
    ChosenInAnyOrder(candidates, UpTo(|candidates|), RankedBelow(candidates, 4), KeptOf(models));
  }

  /** The actions the database runs, with the cascades of the join tables, form neither a cycle nor a
      second path, exactly when the join tables alone do not. */
  lemma PlanIsAdmissible(models: seq<Model>)
    ensures Admissible(JoinEdges(models) + ActingEdges(Plan(models))) <==> Admissible(JoinEdges(models))
  {
    var joins, acting := JoinEdges(models), ActingEdges(Plan(models));
    var candidates := Candidates(models, |models|);
    var order := RankedBelow(candidates, 4);
    ActingEdgesAreChosen(models);
    var chosen := Chosen(candidates, order, KeptOf(models));
    assert multiset(joins + acting) == multiset(joins + chosen);
    if Admissible(joins) {
      RankedIsDistinct(candidates, 4);
      GreedyKeepsAdmissible(joins, candidates, order);
      FewerEdgesAdmissible(joins + acting, joins + chosen);
    }
    if Admissible(joins + acting) {
      FewerEdgesAdmissible(joins, joins + acting);
    }
  }

  /** The same for models named by identifiers, decided by the models alone. */
  lemma PlanIsAdmissibleExactly(models: seq<Model>)
    requires Identifiers(models)
    ensures Admissible(JoinEdges(models) + ActingEdges(Plan(models))) <==> JoinsTwoModels(models) && FilesApart(models)
  {
    PlanIsAdmissible(models);
    JoinTablesAdmissible(models);
  }

  /** A many-to-many relation of a model with itself doubles the edge to its join table, so the plan
      keeps a second path whatever it chooses. */
  lemma SelfRelationBreaksThePlan()
    ensures var friends := Relation("friends", "user", ManyToMany, false, false, None, None, "");
            var models := [Model("User", true, [friends], [], false, false, false)];
            !Admissible(JoinEdges(models) + ActingEdges(Plan(models)))
  {
    var friends := Relation("friends", "user", ManyToMany, false, false, None, None, "");
    var models := [Model("User", true, [friends], [], false, false, false)];
    hide Plan, JoinEdges, ActingEdges, Admissible, Identifiers, JoinsTwoModels;
    SelfRelationIsNamed(friends, models);
    PlanIsAdmissibleExactly(models);
  }

  lemma SelfRelationIsNamed(friends: Relation, models: seq<Model>)
    requires friends == Relation("friends", "user", ManyToMany, false, false, None, None, "")
    requires models == [Model("User", true, [friends], [], false, false, false)]
    ensures Identifiers(models) && !JoinsTwoModels(models)
  {
    hide Plain, Capitalize;
    assert Plain("User") && Plain("friends") && Plain("user") && Plain("") by { PlainNames(); }
    assert Capitalize("user") == "User" by { PlainNames(); }
    assert DeclaresRelation(models, 0, 0);
  }

  lemma PlainNames()
    ensures Plain("User") && Plain("friends") && Plain("user") && Plain("") && Capitalize("user") == "User"
  {}

  /** Whether the plan may keep the actions of a foreign key. */
  ghost predicate MayAct(models: seq<Model>, i: nat) {
    i < |Candidates(models, |models|)| && Eligible(Candidates(models, |models|)[i])
  }

  ghost predicate Acts(models: seq<Model>, i: nat)
    requires i < |Plan(models)|
  {
    Plan(models)[i].dbOnDelete != NoAction || Plan(models)[i].dbOnUpdate != NoAction
  }

  /** The choice is maximal: no left out action that may be kept could be added to the final graph. */
  lemma PlanIsMaximal(models: seq<Model>, i: nat)
    requires i < |Plan(models)| && MayAct(models, i) && !Acts(models, i)
    ensures !Admissible(JoinEdges(models) + ActingEdges(Plan(models)) +
                        [Edge(Plan(models)[i].referencedName, Plan(models)[i].modelName)])
  {
    var joins, acting := JoinEdges(models), ActingEdges(Plan(models));
    var candidates := Candidates(models, |models|);
    var order := RankedBelow(candidates, 4);
    var chosen := Chosen(candidates, order, KeptOf(models));
    var e := EdgeOf(candidates[i]);
    RankedIsDistinct(candidates, 4);
    RankedHolds(candidates, 4, i);
    LeftOutIsBlocked(joins, candidates, order, i);
    BlockedBreaksSinglePath(joins + chosen, e);
    ActingEdgesAreChosen(models);
    assert multiset(joins + chosen + [e]) == multiset(joins + acting + [e]);
    if Admissible(joins + acting + [e]) {
      FewerEdgesAdmissible(joins + chosen + [e], joins + acting + [e]);
    }
  }

  // Who applies an action

  predicate Emulated(foreignKey: ForeignKey, referencedName: string) {
    && foreignKey.referencedName == referencedName
    && foreignKey.dbOnDelete == NoAction
    && (foreignKey.onDelete == Cascade || foreignKey.onDelete == SetNull)
  }

  /** The foreign keys referencing a model whose action on delete the data layer applies. */
  function EmulatedForeignKeys(foreignKeys: seq<ForeignKey>, referencedName: string): seq<ForeignKey> {
    if foreignKeys == [] then []
    else (if Emulated(foreignKeys[0], referencedName) then [foreignKeys[0]] else []) +
         EmulatedForeignKeys(foreignKeys[1..], referencedName)
  }

  lemma {:induction false} EmulatedAre(foreignKeys: seq<ForeignKey>, referencedName: string, fk: ForeignKey)
    ensures fk in EmulatedForeignKeys(foreignKeys, referencedName) <==>
            fk in foreignKeys && fk.referencedName == referencedName && fk.dbOnDelete == NoAction &&
            (fk.onDelete == Cascade || fk.onDelete == SetNull)
  {
    if foreignKeys != [] {
      EmulatedAre(foreignKeys[1..], referencedName, fk);
    }
  }

  /** Every cascade and set null is applied by exactly one of the database and the data layer. */
  lemma AppliedExactlyOnce(models: seq<Model>, i: nat)
    requires i < |Plan(models)|
    requires Plan(models)[i].onDelete == Cascade || Plan(models)[i].onDelete == SetNull
    ensures var fk := Plan(models)[i];
            (fk.dbOnDelete == fk.onDelete) <==> fk !in EmulatedForeignKeys(Plan(models), fk.referencedName)
  {
    var fk := Plan(models)[i];
    EmulatedAre(Plan(models), fk.referencedName, fk);
  }

  /** No relation recording who created or deleted a record acts in the database. */
  lemma AuditNeverActs(models: seq<Model>, i: nat)
    requires i < |Plan(models)|
    requires Candidates(models, |models|)[i] in AllAudits(models, |models|)
    ensures Plan(models)[i].dbOnDelete == NoAction && Plan(models)[i].dbOnUpdate == NoAction
  {
    var candidates := Candidates(models, |models|);
    AuditRank(models, |models|, candidates[i]);
    GreedyChoosesFromOrder(JoinEdges(models), candidates, RankedBelow(candidates, 4));
  }
}

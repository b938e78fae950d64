/** Which action the database runs for each column, decided in the order of their ranks.
    packages/common/utils/referential-util.ts */
module ReferentialActions {
  import opened Options
  import opened Walks
  import opened SoleEdges
  import opened ReferentialModels
  import opened JoinTables
  import opened ReferentialPlan
  import opened ReferentialPromises
  import opened ReferentialChoice
  import opened ReferentialColumns

  ghost predicate IsAudit(slot: Slot) {
    slot.CreatedBySlot? || slot.DeletedBySlot?
  }

  /** Declared actions come first, then implied ones, files, and the audit columns. */
  ghost function SlotRank(models: seq<Model>, slot: Slot): nat
    requires Emits(models, slot)
  {
    match slot
    case RelationSlot(i, k) =>
      var relation := models[i].relations[k];
      if relation.owner && (relation.onDelete.Some? || relation.onUpdate.Some?) then 0 else 1
    case FileSlot(_, _) => 2
    case _ => 3
  }

  /** A foreign key of the plan as the column of a rank that it is planned for. */
  function Column(fk: ForeignKey, rank: nat): Candidate {
    Candidate(fk.modelName, fk.foreignKey, fk.referencedName, fk.onDelete, fk.onUpdate, rank)
  }

  /** The plan lists the columns of the slots. */
  ghost predicate Plans(models: seq<Model>, slots: seq<Slot>) {
    && |slots| == |Plan(models)|
    && (forall n :: 0 <= n < |slots| ==>
          Emits(models, slots[n]) && Describes(models, slots[n], Column(Plan(models)[n], SlotRank(models, slots[n]))))
    && (forall n, m :: 0 <= n < m < |slots| ==> Earlier(slots[n], slots[m]))
    && (forall s :: Emits(models, s) ==> s in slots)
  }

  lemma RankIs(models: seq<Model>, slot: Slot, c: Candidate)
    requires Emits(models, slot) && Describes(models, slot, c)
    ensures c.rank == SlotRank(models, slot) && (c.rank == 3 <==> IsAudit(slot))
  {}

  /** The plan holds one foreign key for each column the models ask for, in their order, with the actions
      the columns are declared with. */
  lemma PlansExactly(models: seq<Model>) returns (slots: seq<Slot>)
    ensures Plans(models, slots)
    ensures forall n :: 0 <= n < |slots| ==> Candidates(models, |models|)[n].rank == SlotRank(models, slots[n])
  {
    slots := ListedExactly(models);
    hide Emits, Describes, Candidates, KeptOf, Earlier;
    forall n | 0 <= n < |slots|
      ensures Candidates(models, |models|)[n].rank == SlotRank(models, slots[n])
      ensures Describes(models, slots[n], Column(Plan(models)[n], SlotRank(models, slots[n])))
    {
      RankIs(models, slots[n], Candidates(models, |models|)[n]);
      assert Column(Plan(models)[n], SlotRank(models, slots[n])) == Candidates(models, |models|)[n];
    }
  }

  lemma {:induction false} SameOrder(models: seq<Model>, slots: seq<Slot>, other: seq<Slot>)
    requires forall n, m :: 0 <= n < m < |slots| ==> Earlier(slots[n], slots[m])
    requires forall n, m :: 0 <= n < m < |other| ==> Earlier(other[n], other[m])
    requires forall s :: s in slots <==> s in other
    ensures slots == other
  {
    if |slots| + |other| > 0 {
      var any := if slots != [] then slots[0] else other[0];
      assert any in slots && any in other;
      var k, l := |slots| - 1, |other| - 1;
      assert slots[k] in other && other[l] in slots;
      assert slots[k] == other[l];
      forall s ensures s in slots[..k] <==> s in slots && s != slots[k] {}
      forall s ensures s in other[..l] <==> s in other && s != other[l] {}
      SameOrder(models, slots[..k], other[..l]);
      assert slots == slots[..k] + [slots[k]] && other == other[..l] + [other[l]];
    }
  }

  /** So the listing is the only one. */
  lemma RanksOf(models: seq<Model>, slots: seq<Slot>)
    requires Plans(models, slots)
    ensures |slots| == |Candidates(models, |models|)|
    ensures forall n :: 0 <= n < |slots| ==> Candidates(models, |models|)[n].rank == SlotRank(models, slots[n])
  {
    hide Emits, Describes, Candidates, KeptOf, Earlier;
    var exact := PlansExactly(models);
    forall s ensures s in slots <==> s in exact {
      if s in slots {
        assert Emits(models, s);
      }
      if s in exact {
        assert Emits(models, s);
      }
    }
    SameOrder(models, slots, exact);
  }

  /** The foreign key fits beside the cascades of the join tables and the actions of all the others. */
  ghost predicate Fits(models: seq<Model>, n: nat)
    requires n < |Plan(models)|
  {
    !Blocked(Others(models, n), Plan(models)[n].referencedName, Plan(models)[n].modelName)
  }

  lemma AsksIs(models: seq<Model>, slots: seq<Slot>, n: nat)
    requires Plans(models, slots) && n < |slots| && !IsAudit(slots[n])
    ensures var fk := Plan(models)[n];
            MayAct(models, n) <==>
            fk.onDelete == Cascade || fk.onDelete == SetNull || fk.onDelete == SetDefault ||
            fk.onUpdate == Some(Cascade) || fk.onUpdate == Some(SetNull) || fk.onUpdate == Some(SetDefault)
  {
    hide Emits, Describes, Candidates, KeptOf, Earlier;
    RanksOf(models, slots);
  }

  lemma PlannedActions(models: seq<Model>, n: nat)
    requires n < |Plan(models)|
    ensures var fk := Plan(models)[n];
            && fk.dbOnDelete == (if n in KeptOf(models) && fk.onDelete != Restrict then fk.onDelete else NoAction)
            && fk.dbOnUpdate == (if n in KeptOf(models) && fk.onUpdate.Some? && fk.onUpdate.value != Restrict
                                 then fk.onUpdate.value else NoAction)
  {
    hide Candidates, KeptOf;
  }

  lemma KeptMayAct(models: seq<Model>, n: nat)
    requires n < |Plan(models)| && n in KeptOf(models)
    ensures MayAct(models, n) && Candidates(models, |models|)[n].rank < 3
  {
    hide Candidates, JoinEdges, RankedBelow, Greedy;
    var candidates := Candidates(models, |models|);
    GreedyChoosesFromOrder(JoinEdges(models), candidates, RankedBelow(candidates, 4));
  }

  /** What the database runs: a cascade, set null or set default exactly where the column fits beside the
      others, and nothing for any other action and for the audit columns. */
  lemma DatabaseActions(models: seq<Model>, slots: seq<Slot>, n: nat)
    requires Plans(models, slots) && n < |slots|
    ensures var fk := Plan(models)[n];
      && (IsAudit(slots[n]) ==> fk.dbOnDelete == NoAction && fk.dbOnUpdate == NoAction)
      && (!IsAudit(slots[n]) && (fk.onDelete == Cascade || fk.onDelete == SetNull || fk.onDelete == SetDefault) ==>
            fk.dbOnDelete == if Fits(models, n) then fk.onDelete else NoAction)
      && (fk.onDelete == Restrict || fk.onDelete == NoAction ==> fk.dbOnDelete == NoAction)
      && (!IsAudit(slots[n]) &&
          (fk.onUpdate == Some(Cascade) || fk.onUpdate == Some(SetNull) || fk.onUpdate == Some(SetDefault)) ==>
            fk.dbOnUpdate == if Fits(models, n) then fk.onUpdate.value else NoAction)
      && (fk.onUpdate == None || fk.onUpdate == Some(Restrict) || fk.onUpdate == Some(NoAction) ==>
            fk.dbOnUpdate == NoAction)
  {
    hide Emits, Describes, Candidates, KeptOf, Earlier, Blocked, Others, Plan, MayAct, Acts;
    PlannedActions(models, n);
    RanksOf(models, slots);
    RankOfAudit(models, slots[n]);
    if n in KeptOf(models) {
      KeptMayAct(models, n);
    }
    if !IsAudit(slots[n]) {
      AsksIs(models, slots, n);
      if MayAct(models, n) {
        KeptExactlyWhenFits(models, n);
        ActsWhenKept(models, n);
      }
    }
  }

  lemma RankOfAudit(models: seq<Model>, slot: Slot)
    requires Emits(models, slot)
    ensures SlotRank(models, slot) == 3 <==> IsAudit(slot)
  {}

  // The order of the decisions

  /** The column m is decided before the column n. */
  ghost predicate Precedes(models: seq<Model>, slots: seq<Slot>, m: nat, n: nat)
    requires Plans(models, slots) && m < |slots| && n < |slots|
  {
    SlotRank(models, slots[m]) < SlotRank(models, slots[n]) ||
    (SlotRank(models, slots[m]) == SlotRank(models, slots[n]) && m < n)
  }

  /** The actions the database runs for the columns decided before the column n, of the first m. */
  ghost function EdgesBefore(models: seq<Model>, slots: seq<Slot>, n: nat, m: nat): seq<Edge>
    requires Plans(models, slots) && n < |slots| && m <= |slots|
  {
    if m == 0 then []
    else
      var fk := Plan(models)[m - 1];
      EdgesBefore(models, slots, n, m - 1) +
      if Precedes(models, slots, m - 1, n) && (fk.dbOnDelete != NoAction || fk.dbOnUpdate != NoAction)
      then [Edge(fk.referencedName, fk.modelName)] else []
  }

  ghost function Preceding(candidates: seq<Candidate>, n: nat, m: nat): (r: seq<nat>)
    requires m <= |candidates|
    ensures forall k :: 0 <= k < |r| ==> r[k] < m
    ensures forall k, l :: 0 <= k < l < |r| ==> r[k] < r[l]
    ensures forall i: nat :: i in r <==> i < m && Before(candidates, i, n)
  {
    if m == 0 then [] else Preceding(candidates, n, m - 1) + if Before(candidates, m - 1, n) then [m - 1] else []
  }

  lemma PrecedesIs(models: seq<Model>, slots: seq<Slot>, m: nat, n: nat)
    requires Plans(models, slots) && m < |slots| && n < |slots|
    ensures Precedes(models, slots, m, n) <==> Before(Candidates(models, |models|), m, n)
  {
    hide Plans, Candidates, SlotRank;
    RanksOf(models, slots);
  }

  lemma OneEdgeMore(models: seq<Model>, slots: seq<Slot>, n: nat, m: nat)
    requires Plans(models, slots) && n < |slots| && m < |slots| && |slots| == |Candidates(models, |models|)|
    ensures EdgesBefore(models, slots, n, m + 1) ==
            EdgesBefore(models, slots, n, m) +
            if Before(Candidates(models, |models|), m, n) && m in KeptOf(models)
            then [EdgeOf(Candidates(models, |models|)[m])] else []
  {
    hide Emits, Describes, Candidates, KeptOf, Earlier, Plan, Acts, Chosen, Precedes, Before;
    PrecedesIs(models, slots, m, n);
    ActsIs(models, m);
  }

  lemma ChosenOneMore(candidates: seq<Candidate>, n: nat, m: nat, kept: set<nat>)
    requires m < |candidates|
    requires InRange(candidates, Preceding(candidates, n, m))
    ensures InRange(candidates, Preceding(candidates, n, m + 1))
    ensures Chosen(candidates, Preceding(candidates, n, m + 1), kept) ==
            Chosen(candidates, Preceding(candidates, n, m), kept) +
            if Before(candidates, m, n) && m in kept then [EdgeOf(candidates[m])] else []
  {
    hide Chosen, Before;
    var before := Preceding(candidates, n, m);
    ChosenLast(candidates, before, m, kept);
    assert before + [] == before;
  }

  lemma {:induction false} BeforeIsChosen(models: seq<Model>, slots: seq<Slot>, n: nat, m: nat)
    requires Plans(models, slots) && n < |slots| && m <= |slots| && |slots| == |Candidates(models, |models|)|
    ensures InRange(Candidates(models, |models|), Preceding(Candidates(models, |models|), n, m))
    ensures EdgesBefore(models, slots, n, m) ==
            Chosen(Candidates(models, |models|), Preceding(Candidates(models, |models|), n, m), KeptOf(models))
  {
    hide *;
    if m > 0 {
      BeforeIsChosen(models, slots, n, m - 1);
      OneEdgeMore(models, slots, n, m - 1);
      ChosenOneMore(Candidates(models, |models|), n, m - 1, KeptOf(models));
    } else {
      NoneBefore(models, slots, n, Candidates(models, |models|));
      ChosenNone(Candidates(models, |models|), KeptOf(models));
    }
  }

  lemma NoneBefore(models: seq<Model>, slots: seq<Slot>, n: nat, candidates: seq<Candidate>)
    requires Plans(models, slots) && n < |slots|
    ensures EdgesBefore(models, slots, n, 0) == [] && Preceding(candidates, n, 0) == []
    ensures InRange(candidates, [])
  {}

  lemma ChosenNone(candidates: seq<Candidate>, kept: set<nat>)
    ensures Chosen(candidates, [], kept) == []
  {}

  lemma ChosenLast(candidates: seq<Candidate>, order: seq<nat>, last: nat, kept: set<nat>)
    requires InRange(candidates, order) && last < |candidates|
    ensures Chosen(candidates, order + [last], kept) ==
            Chosen(candidates, order, kept) + if last in kept then [EdgeOf(candidates[last])] else []
  {
    assert (order + [last])[..|order|] == order;
  }

  lemma ActsIs(models: seq<Model>, m: nat)
    requires m < |Plan(models)|
    ensures |Plan(models)| == |Candidates(models, |models|)|
    ensures EdgeOf(Candidates(models, |models|)[m]) == Edge(Plan(models)[m].referencedName, Plan(models)[m].modelName)
    ensures Plan(models)[m].dbOnDelete != NoAction || Plan(models)[m].dbOnUpdate != NoAction <==> m in KeptOf(models)
  {
    hide Candidates, KeptOf;
    PlanNames(models, m);
    if m in KeptOf(models) {
      KeptMayAct(models, m);
    }
  }

  lemma {:induction false} ChosenAlike(candidates: seq<Candidate>, order: seq<nat>, kept: set<nat>, kept': set<nat>)
    requires InRange(candidates, order) && forall i :: i in order ==> (i in kept <==> i in kept')
    ensures Chosen(candidates, order, kept) == Chosen(candidates, order, kept')
  {
    if order != [] {
      ChosenAlike(candidates, order[..|order| - 1], kept, kept');
    }
  }

  /** What is decided is not decided again. */
  lemma {:induction false} DecidedOnce(joins: seq<Edge>, candidates: seq<Candidate>, order: seq<nat>, p: nat)
    requires InRange(candidates, order) && Distinct(order) && p <= |order|
    ensures forall i :: i in order[..p] ==>
              (i in Greedy(joins, candidates, order) <==> i in Greedy(joins, candidates, order[..p]))
    decreases |order|
  {
    hide Chosen, Blocked, Greedy;
    if p < |order| {
      var init, last := order[..|order| - 1], order[|order| - 1];
      DecidedOnce(joins, candidates, init, p);
      assert init[..p] == order[..p];
      GreedyStep(joins, candidates, order);
      forall i | i in order[..p] ensures i != last {
        var k :| 0 <= k < p && order[k] == i;
      }
    } else {
      assert order[..p] == order;
    }
  }

  lemma KeptInTurn(joins: seq<Edge>, candidates: seq<Candidate>, order: seq<nat>, p: nat)
    requires InRange(candidates, order) && Distinct(order) && p < |order|
    ensures var kept := Greedy(joins, candidates, order);
            order[p] in kept <==>
            Eligible(candidates[order[p]]) &&
            !Blocked(joins + Chosen(candidates, order[..p], kept),
                     candidates[order[p]].referencedName, candidates[order[p]].modelName)
  {
    hide Chosen, Blocked, Greedy;
    var kept := Greedy(joins, candidates, order);
    var upTo := order[..p + 1];
    assert upTo[..p] == order[..p] && upTo[p] == order[p];
    DecidedOnce(joins, candidates, order, p + 1);
    DecidedOnce(joins, candidates, order, p);
    GreedyStep(joins, candidates, upTo);
    ChosenAlike(candidates, order[..p], kept, Greedy(joins, candidates, order[..p]));
  }

  lemma InPrefix(candidates: seq<Candidate>, order: seq<nat>, p: nat, i: nat)
    requires order == RankedBelow(candidates, 4) && p < |order| && i in order[..p]
    ensures i < |candidates| && Before(candidates, i, order[p])
  {
    hide RankedBelow, Before;
    var a :| 0 <= a < p && order[..p][a] == i;
    RankedIsStableSort(candidates, 4, a, p);
  }

  lemma BeforeInPrefix(candidates: seq<Candidate>, order: seq<nat>, p: nat, i: nat)
    requires order == RankedBelow(candidates, 4) && p < |order|
    requires i < |candidates| && candidates[i].rank < 4 && Before(candidates, i, order[p])
    ensures i in order[..p]
  {
    hide RankedBelow, Before;
    RankedHolds(candidates, 4, i);
    var a :| 0 <= a < |order| && order[a] == i;
    BeforeIsStrict(candidates, i, order[p]);
    BeforeIsStrict(candidates, i, i);
    if p < a {
      RankedIsStableSort(candidates, 4, p, a);
    }
    assert order[..p][a] == i;
  }

  lemma BeforeIsStrict(candidates: seq<Candidate>, i: nat, j: nat)
    ensures !Before(candidates, i, j) || !Before(candidates, j, i)
  {}

  lemma PrecedingIsPrefix(candidates: seq<Candidate>, order: seq<nat>, p: nat)
    requires order == RankedBelow(candidates, 4) && p < |order|
    requires forall i :: 0 <= i < |candidates| ==> candidates[i].rank < 4
    ensures SameMembers(Preceding(candidates, order[p], |candidates|), order[..p])
  {
    hide RankedBelow, Before;
    forall i: nat ensures i in order[..p] <==> i < |candidates| && Before(candidates, i, order[p]) {
      if i in order[..p] {
        InPrefix(candidates, order, p, i);
      }
      if i < |candidates| && Before(candidates, i, order[p]) {
        BeforeInPrefix(candidates, order, p, i);
      }
    }
  }

  /** Every column is decided after those of lower rank and those listed before it in its own: its actions
      are kept exactly when it fits beside the join tables and what was kept of these. */
  lemma DecidedInOrder(models: seq<Model>, slots: seq<Slot>, n: nat)
    requires Plans(models, slots) && n < |slots| && MayAct(models, n)
    ensures var fk := Plan(models)[n];
            fk.dbOnDelete != NoAction || fk.dbOnUpdate != NoAction <==>
            !Blocked(JoinEdges(models) + EdgesBefore(models, slots, n, |slots|), fk.referencedName, fk.modelName)
  {
    hide Plans, Candidates, Greedy, Chosen, Plan, Blocked, JoinEdges, RankedBelow, Eligible, Preceding, EdgesBefore;
    var candidates, joins := Candidates(models, |models|), JoinEdges(models);
    var order := RankedBelow(candidates, 4);
    RanksOf(models, slots);
    PlanIsAsLong(models);
    ActsIs(models, n);
    EligibleIsRanked(candidates, n);
    RankedIsDistinct(candidates, 4);
    var p :| 0 <= p < |order| && order[p] == n;
    KeptInTurn(joins, candidates, order, p);
    RanksBelowFour(models);
    PrecedingIsPrefix(candidates, order, p);
    BeforeIsChosen(models, slots, n, |slots|);
    var before := Preceding(candidates, n, |candidates|);
    ChosenInAnyOrder(candidates, before, order[..p], KeptOf(models));
    BlockedAlike(joins, Chosen(candidates, before, KeptOf(models)), Chosen(candidates, order[..p], KeptOf(models)),
                 Plan(models)[n].referencedName, Plan(models)[n].modelName);
  }

  lemma PlanIsAsLong(models: seq<Model>)
    ensures |Plan(models)| == |Candidates(models, |models|)|
  {}

  lemma RanksBelowFour(models: seq<Model>)
    ensures forall i :: 0 <= i < |Candidates(models, |models|)| ==> Candidates(models, |models|)[i].rank < 4
  {
    hide Candidates, AllAudits;
    forall i | 0 <= i < |Candidates(models, |models|)| ensures Candidates(models, |models|)[i].rank < 4 {
      RanksAreBounded(models, |models|, Candidates(models, |models|)[i]);
    }
  }

  lemma BlockedAlike(joins: seq<Edge>, a: seq<Edge>, b: seq<Edge>, from: string, to: string)
    requires multiset(a) == multiset(b)
    ensures Blocked(joins + a, from, to) <==> Blocked(joins + b, from, to)
  {
    hide Blocked;
    if Blocked(joins + a, from, to) {
      MoreEdgesBlock(joins + a, joins + b, from, to);
    }
    if Blocked(joins + b, from, to) {
      MoreEdgesBlock(joins + b, joins + a, from, to);
    }
  }
}

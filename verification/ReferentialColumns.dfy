/** The foreign key columns a schema emits, told from the fields of its models alone.
    packages/common/utils/referential-util.ts */
module ReferentialColumns {
  import opened Options
  import opened ReferentialModels

  /** Where a model asks for a column, or has another model hold one. */
  datatype Slot =
    | RelationSlot(model: nat, index: nat)
    | FileSlot(model: nat, index: nat)
    | CreatedBySlot(model: nat)
    | DeletedBySlot(model: nat)

  ghost predicate IsCapitalized(text: string, r: string) {
    && |r| == |text|
    && (text != "" ==> r[1..] == text[1..])
    && (text != "" && 'a' <= text[0] <= 'z' ==> r[0] as int == text[0] as int - 32)
    && (text != "" && !('a' <= text[0] <= 'z') ==> r[0] == text[0])
  }

  ghost predicate IsUncapitalized(text: string, r: string) {
    && |r| == |text|
    && (text != "" ==> r[1..] == text[1..])
    && (text != "" && 'A' <= text[0] <= 'Z' ==> r[0] as int == text[0] as int + 32)
    && (text != "" && !('A' <= text[0] <= 'Z') ==> r[0] == text[0])
  }

  /** The target of the relation has a relation of the name the relation is mapped by. */
  ghost predicate HasInverse(models: seq<Model>, relation: Relation) {
    relation.mappedBy != "" &&
    exists i, k :: 0 <= i < |models| && 0 <= k < |models[i].relations| &&
                   IsCapitalized(relation.target, models[i].name) && models[i].relations[k].field == relation.mappedBy
  }

  ghost predicate FirstAuth(models: seq<Model>, i: nat) {
    i < |models| && models[i].auth && forall j :: 0 <= j < i ==> !models[j].auth
  }

  /** The relation holds the column, or is declared without an inverse side that does. */
  ghost predicate Emits(models: seq<Model>, slot: Slot) {
    slot.model < |models| && models[slot.model].generated &&
    var model := models[slot.model];
    match slot
    case RelationSlot(_, k) =>
      k < |model.relations| && model.relations[k].kind != ManyToMany &&
      (model.relations[k].owner || !HasInverse(models, model.relations[k]))
    case FileSlot(_, k) => k < |model.files| && !model.files[k].many
    case CreatedBySlot(_) => model.createdBy && exists i :: 0 <= i < |models| && models[i].auth
    case DeletedBySlot(_) => model.softDelete && exists i :: 0 <= i < |models| && models[i].auth
  }

  ghost predicate OwnColumn(model: Model, relation: Relation, c: Candidate) {
    && c.modelName == model.name && c.foreignKey == relation.field + "Id"
    && IsCapitalized(relation.target, c.referencedName) && c.onUpdate == relation.onUpdate
    && (relation.onDelete.Some? ==> c.onDelete == relation.onDelete.value)
    && (relation.onDelete.None? && relation.optional ==> c.onDelete == SetNull)
    && (relation.onDelete.None? && !relation.optional ==> c.onDelete == Restrict)
    && (relation.onDelete.Some? || relation.onUpdate.Some? ==> c.rank == 0)
    && (relation.onDelete.None? && relation.onUpdate.None? ==> c.rank == 1)
  }

  ghost predicate InverseColumn(model: Model, relation: Relation, c: Candidate) {
    && IsCapitalized(relation.target, c.modelName) && c.referencedName == model.name
    && |c.foreignKey| == |model.name| + 2 && c.foreignKey[|model.name|..] == "Id"
    && IsUncapitalized(model.name, c.foreignKey[..|model.name|])
    && c.onDelete == SetNull && c.onUpdate == None && c.rank == 1
  }

  /** The column a slot asks for: its table, name, target, actions and rank. */
  ghost predicate Describes(models: seq<Model>, slot: Slot, c: Candidate)
    requires Emits(models, slot)
  {
    var model := models[slot.model];
    match slot
    case RelationSlot(_, k) =>
      if model.relations[k].owner then OwnColumn(model, model.relations[k], c)
      else InverseColumn(model, model.relations[k], c)
    case FileSlot(_, k) => c == Candidate(model.name, model.files[k].field + "Id", "File", SetNull, None, 2)
    case CreatedBySlot(_) =>
      exists i: nat :: FirstAuth(models, i) &&
                       c == Candidate(model.name, "createdById", models[i].name, SetNull, None, 3)
    case DeletedBySlot(_) =>
      exists i: nat :: FirstAuth(models, i) &&
                       c == Candidate(model.name, "deletedById", models[i].name, SetNull, None, 3)
  }

  function Kind(slot: Slot): nat {
    match slot
    case RelationSlot(_, _) => 0
    case FileSlot(_, _) => 1
    case CreatedBySlot(_) => 2
    case DeletedBySlot(_) => 3
  }

  function IndexOf(slot: Slot): nat {
    match slot
    case RelationSlot(_, k) => k
    case FileSlot(_, k) => k
    case _ => 0
  }

  /** The order of the models, in one first the relations, then the files, then the audit columns. */
  predicate Earlier(a: Slot, b: Slot) {
    a.model < b.model ||
    (a.model == b.model && (Kind(a) < Kind(b) || (Kind(a) == Kind(b) && IndexOf(a) < IndexOf(b))))
  }

  /** The columns are those of the slots, in order and so without repetition. */
  ghost predicate Lists(models: seq<Model>, slots: seq<Slot>, columns: seq<Candidate>) {
    && |slots| == |columns|
    && (forall n :: 0 <= n < |slots| ==> Emits(models, slots[n]) && Describes(models, slots[n], columns[n]))
    && (forall n, m :: 0 <= n < m < |slots| ==> Earlier(slots[n], slots[m]))
  }

  lemma ListsBoth(models: seq<Model>, a: seq<Slot>, c: seq<Candidate>, b: seq<Slot>, d: seq<Candidate>)
    requires Lists(models, a, c) && Lists(models, b, d)
    requires forall x, y :: x in a && y in b ==> Earlier(x, y)
    ensures Lists(models, a + b, c + d)
  {
    hide Emits, Describes, Earlier;
  }

  lemma ListsOne(models: seq<Model>, slot: Slot, c: Candidate)
    requires Emits(models, slot) && Describes(models, slot, c)
    ensures Lists(models, [slot], [c])
  {
    hide Emits, Describes;
  }

  lemma Capitalized(text: string, name: string)
    ensures IsCapitalized(text, name) <==> name == Capitalize(text)
  {
    if IsCapitalized(text, name) && text != "" {
      assert name == [name[0]] + name[1..];
    }
  }

  lemma Uncapitalized(text: string)
    ensures IsUncapitalized(text, Uncapitalize(text))
  {}

  lemma MappedIs(models: seq<Model>, relation: Relation)
    ensures Mapped(models, relation) <==> HasInverse(models, relation)
  {
    hide IsCapitalized, Capitalize;
    forall i | 0 <= i < |models|
      ensures IsCapitalized(relation.target, models[i].name) <==> models[i].name == Capitalize(relation.target)
    {
      Capitalized(relation.target, models[i].name);
    }
    if Mapped(models, relation) {
      var i :| 0 <= i < |models| && models[i].name == Capitalize(relation.target) &&
               HasField(models[i].relations, relation.mappedBy);
      var k :| 0 <= k < |models[i].relations| && models[i].relations[k].field == relation.mappedBy;
    }
    if HasInverse(models, relation) {
      var i, k :| 0 <= i < |models| && 0 <= k < |models[i].relations| &&
                  IsCapitalized(relation.target, models[i].name) &&
                  models[i].relations[k].field == relation.mappedBy;
      assert HasField(models[i].relations, relation.mappedBy);
    }
  }

  lemma RelationListed(models: seq<Model>, i: nat, k: nat)
    requires i < |models| && models[i].generated && k < |models[i].relations|
    ensures var slots := if Emits(models, RelationSlot(i, k)) then [RelationSlot(i, k)] else [];
            Lists(models, slots, RelationCandidate(models, models[i], models[i].relations[k]))
  {
    hide IsCapitalized, IsUncapitalized, Capitalize, Uncapitalize, Mapped, HasInverse;
    var relation := models[i].relations[k];
    MappedIs(models, relation);
    Capitalized(relation.target, Capitalize(relation.target));
    Uncapitalized(models[i].name);
    UncapitalizedLength(models[i].name);
    if Emits(models, RelationSlot(i, k)) {
      var listed := RelationCandidate(models, models[i], relation);
      assert |listed| == 1;
      assert !relation.owner ==> listed[0].foreignKey == Uncapitalize(models[i].name) + "Id";
      ListsOne(models, RelationSlot(i, k), listed[0]);
      assert listed == [listed[0]];
    }
  }

  lemma UncapitalizedLength(text: string)
    ensures |Uncapitalize(text)| == |text|
  {}

  lemma {:induction false} RelationsListed(models: seq<Model>, i: nat, k: nat) returns (slots: seq<Slot>)
    requires i < |models| && models[i].generated && k <= |models[i].relations|
    ensures Lists(models, slots, RelationCandidates(models, models[i], k))
    ensures forall s :: s in slots <==> s.RelationSlot? && s.model == i && s.index < k && Emits(models, s)
  {
    hide Emits, Describes, RelationCandidate;
    if k == 0 {
      slots := [];
    } else {
      var before := RelationsListed(models, i, k - 1);
      RelationListed(models, i, k - 1);
      var more := if Emits(models, RelationSlot(i, k - 1)) then [RelationSlot(i, k - 1)] else [];
      ListsBoth(models, before, RelationCandidates(models, models[i], k - 1),
                more, RelationCandidate(models, models[i], models[i].relations[k - 1]));
      slots := before + more;
    }
  }

  lemma {:induction false} FilesListed(models: seq<Model>, i: nat, k: nat) returns (slots: seq<Slot>)
    requires i < |models| && models[i].generated && k <= |models[i].files|
    ensures Lists(models, slots, FileCandidates(models[i], k))
    ensures forall s :: s in slots <==> s.FileSlot? && s.model == i && s.index < k && Emits(models, s)
  {
    if k == 0 {
      slots := [];
    } else {
      var before := FilesListed(models, i, k - 1);
      var more := if models[i].files[k - 1].many then [] else [FileSlot(i, k - 1)];
      slots := before + more;
      ListsFile(models, i, k - 1);
      hide Emits, Describes, FileCandidate;
      ListsBoth(models, before, FileCandidates(models[i], k - 1), more,
                FileCandidate(models[i], models[i].files[k - 1]));
    }
  }

  lemma ListsFile(models: seq<Model>, i: nat, k: nat)
    requires i < |models| && models[i].generated && k < |models[i].files|
    ensures var slots := if models[i].files[k].many then [] else [FileSlot(i, k)];
            Lists(models, slots, FileCandidate(models[i], models[i].files[k]))
    ensures Emits(models, FileSlot(i, k)) <==> !models[i].files[k].many
  {}

  lemma {:induction false} AuthIs(models: seq<Model>) returns (i: nat)
    ensures AuthModel(models).Some? <==> exists j :: 0 <= j < |models| && models[j].auth
    ensures AuthModel(models).Some? ==> FirstAuth(models, i) && AuthModel(models).value == models[i]
  {
    i := 0;
    if models != [] && !models[0].auth {
      var j := AuthIs(models[1..]);
      i := j + 1;
      assert forall j :: 1 <= j < |models| ==> models[j] == models[1..][j - 1];
      assert AuthModel(models).Some? ==> models[1..][j].auth;
    }
  }

  lemma AuditsListed(models: seq<Model>, i: nat) returns (slots: seq<Slot>)
    requires i < |models| && models[i].generated
    ensures Lists(models, slots, AuditCandidates(models[i], AuthModel(models)))
    ensures forall s :: s in slots <==> (s.CreatedBySlot? || s.DeletedBySlot?) && s.model == i && Emits(models, s)
  {
    hide AuthModel;
    var a := AuthIs(models);
    slots := (if Emits(models, CreatedBySlot(i)) then [CreatedBySlot(i)] else []) +
             if Emits(models, DeletedBySlot(i)) then [DeletedBySlot(i)] else [];
  }

  lemma ModelListed(models: seq<Model>, i: nat) returns (slots: seq<Slot>)
    requires i < |models|
    ensures Lists(models, slots, ModelCandidates(models, models[i]))
    ensures forall s :: s in slots <==> s.model == i && Emits(models, s)
  {
    slots := [];
    if models[i].generated {
      hide Describes, RelationCandidates, FileCandidates, AuditCandidates;
      var relations := RelationsListed(models, i, |models[i].relations|);
      var files := FilesListed(models, i, |models[i].files|);
      var audits := AuditsListed(models, i);
      var r := RelationCandidates(models, models[i], |models[i].relations|);
      var f := FileCandidates(models[i], |models[i].files|);
      ListsBoth(models, relations, r, files, f);
      ListsBoth(models, relations + files, r + f, audits, AuditCandidates(models[i], AuthModel(models)));
      slots := relations + files + audits;
    }
  }

  lemma {:induction false} ModelsListed(models: seq<Model>, n: nat) returns (slots: seq<Slot>)
    requires n <= |models|
    ensures Lists(models, slots, Candidates(models, n))
    ensures forall s :: s in slots <==> s.model < n && Emits(models, s)
  {
    hide Emits, Describes, ModelCandidates;
    if n == 0 {
      slots := [];
    } else {
      var before := ModelsListed(models, n - 1);
      var more := ModelListed(models, n - 1);
      ListsBoth(models, before, Candidates(models, n - 1), more, ModelCandidates(models, models[n - 1]));
      slots := before + more;
    }
  }

  /** The columns listed are exactly those the models ask for, each once, in the order of models and fields. */
  lemma ListedExactly(models: seq<Model>) returns (slots: seq<Slot>)
    ensures Lists(models, slots, Candidates(models, |models|))
    ensures forall s :: s in slots <==> Emits(models, s)
  {
    slots := ModelsListed(models, |models|);
    assert forall s :: Emits(models, s) ==> s.model < |models|;
  }
}

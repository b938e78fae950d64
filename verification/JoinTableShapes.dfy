/** When the join tables alone already form the graph SQL Server demands. */
module JoinTableShapes {
  import opened Walks
  import opened ReferentialModels
  import opened JoinTables

  ghost predicate Plain(text: string) {
    '.' !in text && '|' !in text
  }

  /** The names of a model hold no separator, and its fields of a kind have different names. */
  ghost predicate PlainModel(model: Model) {
    && Plain(model.name)
    && (forall k :: 0 <= k < |model.relations| ==>
          Plain(model.relations[k].field) && Plain(model.relations[k].target) && Plain(model.relations[k].mappedBy))
    && (forall k :: 0 <= k < |model.files| ==> Plain(model.files[k].field))
    && (forall k, l :: 0 <= k < l < |model.relations| ==> model.relations[k].field != model.relations[l].field)
    && (forall k, l :: 0 <= k < l < |model.files| ==> model.files[k].field != model.files[l].field)
  }

  ghost predicate Identifiers(models: seq<Model>) {
    && (forall i :: 0 <= i < |models| ==> PlainModel(models[i]))
    && (forall i, j :: 0 <= i < j < |models| ==> models[i].name != models[j].name)
  }

  ghost predicate DeclaresRelation(models: seq<Model>, i: nat, k: nat) {
    i < |models| && models[i].generated && k < |models[i].relations| && models[i].relations[k].kind == ManyToMany
  }

  ghost predicate DeclaresFiles(models: seq<Model>, i: nat, k: nat) {
    i < |models| && models[i].generated && k < |models[i].files| && models[i].files[k].many
  }

  ghost predicate JoinsTwoModels(models: seq<Model>) {
    && (forall i: nat, k: nat :: DeclaresRelation(models, i, k) ==>
          Capitalize(models[i].relations[k].target) != models[i].name)
    && (forall i: nat, k: nat :: DeclaresFiles(models, i, k) ==> models[i].name != "File")
  }

  /** No file list takes the field name, and so the join table, of a relation of its model. */
  ghost predicate FilesApart(models: seq<Model>) {
    forall i: nat, k: nat, l: nat :: DeclaresRelation(models, i, k) && DeclaresFiles(models, i, l) ==>
      Mapped(models, models[i].relations[k]) || models[i].relations[k].field != models[i].files[l].field
  }

  ghost predicate IsRelation(models: seq<Model>, join: Join, i: nat, k: nat) {
    DeclaresRelation(models, i, k) && join == RelationJoin(models, models[i], models[i].relations[k])
  }

  ghost predicate IsFiles(models: seq<Model>, join: Join, i: nat, k: nat) {
    DeclaresFiles(models, i, k) && join == FileJoin(models[i], models[i].files[k])
  }

  // Names

  lemma SeparatorSplitsOnce(separator: char, a: string, b: string, c: string, d: string)
    requires separator !in a && separator !in c
    requires a + [separator] + b == c + [separator] + d
    ensures a == c && b == d
  {
    var whole := a + [separator] + b;
    assert whole[|a|] == separator && whole[|c|] == separator;
    assert a == whole[..|a|] && c == whole[..|c|];
    assert b == whole[|a| + 1..] && d == whole[|c| + 1..];
  }

  lemma QualifiedIsInjective(model: string, field: string, model': string, field': string)
    requires Plain(model) && Plain(model') && Qualified(model, field) == Qualified(model', field')
    ensures model == model' && field == field'
  {
    SeparatorSplitsOnce('.', model, field, model', field');
  }

  lemma CapitalizeStaysPlain(text: string)
    requires Plain(text)
    ensures Plain(Capitalize(text))
  {
    if text != "" {
      assert text[0] in text;
      forall c | c in text[1..] ensures c in text {}
    }
  }

  lemma QualifiedHolds(model: string, field: string)
    requires Plain(model) && Plain(field)
    ensures '.' in Qualified(model, field) && '|' !in Qualified(model, field)
  {
    assert Qualified(model, field)[|model|] == '.';
  }

  lemma PairNameHolds(a: string, b: string)
    requires '.' in a && '.' in b
    ensures '|' in PairName(a, b) && '.' in PairName(a, b)
  {
    var first := if StringLeq(a, b) then a else b;
    assert PairName(a, b)[|first|] == '|';
    var k :| 0 <= k < |first| && first[k] == '.';
    assert PairName(a, b)[k] == '.';
  }

  /** The table both sides of a relation declare is named after the two of them in either order. */
  lemma PairNameIsShared(a: string, b: string)
    ensures PairName(a, b) == PairName(b, a)
  {
    StringOrder(a, b);
  }

  lemma {:induction false} StringOrder(a: string, b: string)
    ensures StringLeq(a, b) || StringLeq(b, a)
    ensures StringLeq(a, b) && StringLeq(b, a) ==> a == b
  {
    if a != "" && b != "" {
      StringOrder(a[1..], b[1..]);
      assert a == [a[0]] + a[1..] && b == [b[0]] + b[1..];
    }
  }

  lemma PairNameIsInjective(a: string, b: string, c: string, d: string)
    requires '|' !in a && '|' !in b && '|' !in c && '|' !in d
    requires PairName(a, b) == PairName(c, d)
    ensures (a == c && b == d) || (a == d && b == c)
  {
    var (x, y) := if StringLeq(a, b) then (a, b) else (b, a);
    var (z, w) := if StringLeq(c, d) then (c, d) else (d, c);
    SeparatorSplitsOnce('|', x, y, z, w);
  }

  ghost function Own(models: seq<Model>, i: nat, k: nat): string
    requires DeclaresRelation(models, i, k)
  {
    Qualified(models[i].name, models[i].relations[k].field)
  }

  ghost function Inverse(models: seq<Model>, i: nat, k: nat): string
    requires DeclaresRelation(models, i, k)
  {
    Qualified(Capitalize(models[i].relations[k].target), models[i].relations[k].mappedBy)
  }

  lemma RelationNames(models: seq<Model>, i: nat, k: nat)
    requires Identifiers(models) && DeclaresRelation(models, i, k)
    ensures var join := RelationJoin(models, models[i], models[i].relations[k]);
            && '.' in join.table && Plain(join.owner) && Plain(join.referenced)
            && '|' !in Own(models, i, k) && '|' !in Inverse(models, i, k)
            && ('|' in join.table <==> Mapped(models, models[i].relations[k]))
  {
    var relation := models[i].relations[k];
    CapitalizeStaysPlain(relation.target);
    QualifiedHolds(models[i].name, relation.field);
    QualifiedHolds(Capitalize(relation.target), relation.mappedBy);
    PairNameHolds(Own(models, i, k), Inverse(models, i, k));
  }

  /** The two declarations are the two sides of one relation, each mapped by the other. */
  ghost predicate TwoSides(models: seq<Model>, i: nat, k: nat, j: nat, l: nat)
    requires DeclaresRelation(models, i, k) && DeclaresRelation(models, j, l)
  {
    && Mapped(models, models[i].relations[k]) && Mapped(models, models[j].relations[l])
    && Own(models, i, k) == Inverse(models, j, l) && Inverse(models, i, k) == Own(models, j, l)
  }

  /** Two declarations share a table exactly when they are the same relation or its two sides. */
  lemma SameTable(models: seq<Model>, i: nat, k: nat, j: nat, l: nat)
    requires Identifiers(models) && DeclaresRelation(models, i, k) && DeclaresRelation(models, j, l)
    ensures RelationJoin(models, models[i], models[i].relations[k]).table ==
            RelationJoin(models, models[j], models[j].relations[l]).table <==>
            (i == j && k == l) || TwoSides(models, i, k, j, l)
  {
    RelationNames(models, i, k);
    RelationNames(models, j, l);
    if TwoSides(models, i, k, j, l) {
      PairNameIsShared(Own(models, i, k), Inverse(models, i, k));
    }
    if RelationJoin(models, models[i], models[i].relations[k]).table ==
       RelationJoin(models, models[j], models[j].relations[l]).table {
      if Mapped(models, models[i].relations[k]) {
        PairNameIsInjective(Own(models, i, k), Inverse(models, i, k), Own(models, j, l), Inverse(models, j, l));
        if Own(models, i, k) == Own(models, j, l) {
          QualifiedIsInjective(models[i].name, models[i].relations[k].field,
                               models[j].name, models[j].relations[l].field);
        }
      } else {
        QualifiedIsInjective(models[i].name, models[i].relations[k].field,
                             models[j].name, models[j].relations[l].field);
      }
    }
  }

  /** The sides of one table have each other's models. */
  lemma SameSides(models: seq<Model>, i: nat, k: nat, j: nat, l: nat)
    requires Identifiers(models) && DeclaresRelation(models, i, k) && DeclaresRelation(models, j, l)
    requires TwoSides(models, i, k, j, l)
    ensures var x := RelationJoin(models, models[i], models[i].relations[k]);
            var y := RelationJoin(models, models[j], models[j].relations[l]);
            x.owner == y.referenced && x.referenced == y.owner
  {
    RelationNames(models, i, k);
    RelationNames(models, j, l);
    var m, r := models[i].name, Capitalize(models[i].relations[k].target);
    var m', r' := models[j].name, Capitalize(models[j].relations[l].target);
    QualifiedIsInjective(m, models[i].relations[k].field, r', models[j].relations[l].mappedBy);
    QualifiedIsInjective(r, models[i].relations[k].mappedBy, m', models[j].relations[l].field);
  }

  // Where the declared tables come from

  ghost predicate DeclaredBy(models: seq<Model>, x: Join, i: nat, k: nat) {
    IsRelation(models, x, i, k) || IsFiles(models, x, i, k)
  }

  lemma {:induction false} RelationOrigin(models: seq<Model>, i: nat, k: nat, x: Join) returns (l: nat)
    requires i < |models| && models[i].generated && k <= |models[i].relations|
    requires x in RelationJoins(models, models[i], k)
    ensures l < k && IsRelation(models, x, i, l)
  {
    if x in RelationJoins(models, models[i], k - 1) {
      l := RelationOrigin(models, i, k - 1, x);
    } else {
      l := k - 1;
    }
  }

  lemma {:induction false} FilesOrigin(models: seq<Model>, i: nat, k: nat, x: Join) returns (l: nat)
    requires i < |models| && models[i].generated && k <= |models[i].files|
    requires x in FileJoins(models[i], k)
    ensures l < k && IsFiles(models, x, i, l)
  {
    if x in FileJoins(models[i], k - 1) {
      l := FilesOrigin(models, i, k - 1, x);
    } else {
      l := k - 1;
    }
  }

  lemma DeclaredMember(models: seq<Model>, i: nat, x: Join)
    requires i < |models|
    ensures x in Declared(models, i + 1) <==>
            || x in Declared(models, i)
            || (models[i].generated && x in RelationJoins(models, models[i], |models[i].relations|))
            || (models[i].generated && x in FileJoins(models[i], |models[i].files|))
  {
    hide Declared, RelationJoins, FileJoins;
    DeclareOne(models, i);
  }

  lemma {:induction false} Origin(models: seq<Model>, n: nat, x: Join) returns (i: nat, k: nat)
    requires n <= |models| && x in Declared(models, n)
    ensures i < n && DeclaredBy(models, x, i, k)
  {
    assert n > 0;
    hide Declared, RelationJoins, FileJoins;
    DeclaredMember(models, n - 1, x);
    if x in Declared(models, n - 1) {
      i, k := Origin(models, n - 1, x);
    } else {
      i := n - 1;
      if x in RelationJoins(models, models[i], |models[i].relations|) {
        k := RelationOrigin(models, i, |models[i].relations|, x);
      } else {
        k := FilesOrigin(models, i, |models[i].files|, x);
      }
    }
  }

  lemma {:induction false} RelationIsJoined(models: seq<Model>, i: nat, k: nat, l: nat)
    requires l < k && DeclaresRelation(models, i, l) && k <= |models[i].relations|
    ensures RelationJoin(models, models[i], models[i].relations[l]) in RelationJoins(models, models[i], k)
  {
    hide RelationJoin;
    if l < k - 1 {
      RelationIsJoined(models, i, k - 1, l);
    }
  }

  lemma {:induction false} FilesAreJoined(models: seq<Model>, i: nat, k: nat, l: nat)
    requires l < k && DeclaresFiles(models, i, l) && k <= |models[i].files|
    ensures FileJoin(models[i], models[i].files[l]) in FileJoins(models[i], k)
  {
    if l < k - 1 {
      FilesAreJoined(models, i, k - 1, l);
    }
  }

  lemma {:induction false} IsDeclared(models: seq<Model>, n: nat, x: Join, i: nat, k: nat)
    requires i < n <= |models| && DeclaredBy(models, x, i, k)
    ensures x in Declared(models, n)
  {
    hide Declared, RelationJoins, FileJoins;
    DeclaredMember(models, n - 1, x);
    if i < n - 1 {
      IsDeclared(models, n - 1, x, i, k);
    } else if IsRelation(models, x, i, k) {
      RelationIsJoined(models, i, |models[i].relations|, k);
    } else {
      FilesAreJoined(models, i, |models[i].files|, k);
    }
  }

  // What is emitted of the declared tables

  lemma {:induction false} EmittedIsDeclared(joins: seq<Join>, x: Join)
    requires x in Emitted(joins)
    ensures x in joins
  {
    var init := joins[..|joins| - 1];
    if x in Emitted(init) {
      EmittedIsDeclared(init, x);
    }
  }

  lemma {:induction false} SeenIsEmitted(joins: seq<Join>, table: string) returns (y: Join)
    requires table in Seen(joins)
    ensures y in Emitted(joins) && y.shared && y.table == table
  {
    var init, last := joins[..|joins| - 1], joins[|joins| - 1];
    if table in Seen(init) {
      y := SeenIsEmitted(init, table);
    } else {
      y := last;
    }
  }

  lemma {:induction false} DeclaredIsEmitted(joins: seq<Join>, x: Join) returns (y: Join)
    requires x in joins
    ensures y in Emitted(joins) && y.table == x.table && (y == x || (y.shared && x.shared))
  {
    var init, last := joins[..|joins| - 1], joins[|joins| - 1];
    if x == last {
      if last.shared && last.table in Seen(init) {
        y := SeenIsEmitted(init, last.table);
      } else {
        y := last;
      }
    } else {
      y := DeclaredIsEmitted(init, x);
    }
  }

  ghost predicate FileTablesApart(joins: seq<Join>) {
    forall a, b :: 0 <= a < b < |joins| && !joins[a].shared && !joins[b].shared ==> joins[a].table != joins[b].table
  }

  ghost predicate RelationTablesApart(joins: seq<Join>) {
    forall a, b :: 0 <= a < b < |joins| && joins[a].shared && joins[b].shared ==> joins[a].table != joins[b].table
  }

  lemma EmittedAt(joins: seq<Join>, a: nat)
    requires a < |Emitted(joins)|
    ensures Emitted(joins)[a] in joins
    ensures Emitted(joins)[a].shared ==> Emitted(joins)[a].table in Seen(joins)
  {
    hide Emitted, Seen;
    EmittedIsDeclared(joins, Emitted(joins)[a]);
    SharedIsSeen(joins, Emitted(joins)[a]);
  }

  lemma {:induction false} EmittedTablesApart(joins: seq<Join>)
    ensures RelationTablesApart(Emitted(joins))
    ensures FileTablesApart(joins) ==> FileTablesApart(Emitted(joins))
  {
    hide Emitted, Seen;
    if joins == [] {
      NoneEmitted();
    } else {
      var init, last := joins[..|joins| - 1], joins[|joins| - 1];
      assert joins == init + [last];
      EmittedTablesApart(init);
      EmittedOne(init, last);
      forall a | 0 <= a < |Emitted(init)|
        ensures Emitted(init)[a] in init
        ensures Emitted(init)[a].shared ==> Emitted(init)[a].table in Seen(init)
      {
        EmittedAt(init, a);
      }
    }
  }

  lemma NoneEmitted()
    ensures Emitted([]) == []
  {}

  lemma {:induction false} SharedIsSeen(joins: seq<Join>, x: Join)
    requires x in joins
    ensures x.shared ==> x.table in Seen(joins)
  {
    if x != joins[|joins| - 1] {
      SharedIsSeen(joins[..|joins| - 1], x);
    }
  }

  lemma AddShared(joins: seq<Join>, more: seq<Join>)
    requires FileTablesApart(joins) && forall k :: 0 <= k < |more| ==> more[k].shared
    ensures FileTablesApart(joins + more)
  {}

  lemma {:induction false} AddFiles(models: seq<Model>, i: nat, joins: seq<Join>, k: nat)
    requires Identifiers(models) && i < |models| && models[i].generated && k <= |models[i].files|
    requires FileTablesApart(joins)
    requires forall x :: x in joins && !x.shared ==> x in Declared(models, i)
    ensures FileTablesApart(joins + FileJoins(models[i], k))
  {
    hide Declared, Identifiers, FileJoin;
    if k > 0 {
      AddFiles(models, i, joins, k - 1);
      var sofar := joins + FileJoins(models[i], k - 1);
      if models[i].files[k - 1].many {
        var x := FileJoin(models[i], models[i].files[k - 1]);
        forall a | 0 <= a < |sofar| && !sofar[a].shared ensures sofar[a].table != x.table {
          FileIsApart(models, i, joins, k, sofar[a]);
        }
        assert joins + FileJoins(models[i], k) == sofar + [x];
      } else {
        assert joins + FileJoins(models[i], k) == sofar;
      }
    }
  }

  lemma FileIsApart(models: seq<Model>, i: nat, joins: seq<Join>, k: nat, y: Join)
    requires Identifiers(models) && 0 < k && DeclaresFiles(models, i, k - 1)
    requires forall x :: x in joins && !x.shared ==> x in Declared(models, i)
    requires y in joins + FileJoins(models[i], k - 1) && !y.shared
    ensures y.table != FileJoin(models[i], models[i].files[k - 1]).table
  {
    var j, l: nat;
    if y in joins {
      j, l := Origin(models, i, y);
    } else {
      l := FilesOrigin(models, i, k - 1, y);
      j := i;
    }
    if y.table == FileJoin(models[i], models[i].files[k - 1]).table {
      QualifiedIsInjective(models[j].name, models[j].files[l].field, models[i].name, models[i].files[k - 1].field);
    }
  }

  lemma RelationsAreShared(models: seq<Model>, i: nat)
    requires i < |models| && models[i].generated
    ensures forall k :: 0 <= k < |RelationJoins(models, models[i], |models[i].relations|)| ==>
              RelationJoins(models, models[i], |models[i].relations|)[k].shared
  {
    hide RelationJoins;
    var relations := RelationJoins(models, models[i], |models[i].relations|);
    forall k | 0 <= k < |relations| ensures relations[k].shared {
      var _ := RelationOrigin(models, i, |models[i].relations|, relations[k]);
    }
  }

  lemma UnsharedIsOlder(joins: seq<Join>, more: seq<Join>, x: Join)
    requires x in joins + more && !x.shared
    requires forall k :: 0 <= k < |more| ==> more[k].shared
    ensures x in joins
  {}

  lemma DeclareFilesApart(models: seq<Model>, i: nat)
    requires Identifiers(models) && i < |models| && models[i].generated
    requires FileTablesApart(Declared(models, i))
    ensures FileTablesApart(Declared(models, i + 1))
  {
    hide *;
    var joins, relations := Declared(models, i), RelationJoins(models, models[i], |models[i].relations|);
    RelationsAreShared(models, i);
    AddShared(joins, relations);
    forall x: Join | x in joins + relations && !x.shared ensures x in joins {
      UnsharedIsOlder(joins, relations, x);
    }
    AddFiles(models, i, joins + relations, |models[i].files|);
    DeclareOne(models, i);
  }

  lemma NoneDeclared(models: seq<Model>)
    ensures FileTablesApart(Declared(models, 0))
  {}

  lemma {:induction false} DeclaredFilesApart(models: seq<Model>, n: nat)
    requires Identifiers(models) && n <= |models|
    ensures FileTablesApart(Declared(models, n))
  {
    hide *;
    if n == 0 {
      NoneDeclared(models);
    } else {
      DeclaredFilesApart(models, n - 1);
      DeclareOne(models, n - 1);
      if models[n - 1].generated {
        DeclareFilesApart(models, n - 1);
      }
    }
  }

  // The edges of the join tables

  lemma {:induction false} JoinedEdgesAt(joins: seq<Join>)
    ensures |JoinedEdges(joins)| == 2 * |joins|
    ensures forall k :: 0 <= k < |joins| ==>
              && JoinedEdges(joins)[2 * k] == Edge(joins[k].owner, joins[k].table)
              && JoinedEdges(joins)[2 * k + 1] == Edge(joins[k].referenced, joins[k].table)
  {
    if joins != [] {
      JoinedEdgesAt(joins[..|joins| - 1]);
    }
  }

  ghost predicate Simple(edges: seq<Edge>) {
    forall a, b :: 0 <= a < b < |edges| ==> edges[a] != edges[b]
  }

  lemma JoinedEdgeAt(joins: seq<Join>, a: nat)
    requires a < 2 * |joins|
    ensures |JoinedEdges(joins)| == 2 * |joins|
    ensures var join := joins[a / 2];
            JoinedEdges(joins)[a] == Edge(if a % 2 == 0 then join.owner else join.referenced, join.table)
  {
    JoinedEdgesAt(joins);
    assert a == 2 * (a / 2) + a % 2;
  }

  ghost predicate TablesDiffer(joins: seq<Join>) {
    && (forall k :: 0 <= k < |joins| ==> joins[k].owner != joins[k].referenced)
    && (forall k, l :: 0 <= k < l < |joins| ==> joins[k].table != joins[l].table)
  }

  lemma EdgesDiffer(joins: seq<Join>, a: nat, b: nat)
    requires TablesDiffer(joins) && a < b < 2 * |joins|
    ensures |JoinedEdges(joins)| == 2 * |joins| && JoinedEdges(joins)[a] != JoinedEdges(joins)[b]
  {
    JoinedEdgeAt(joins, a);
    JoinedEdgeAt(joins, b);
  }

  lemma ApartIsSimple(joins: seq<Join>)
    requires TablesDiffer(joins)
    ensures Simple(JoinedEdges(joins))
  {
    JoinedEdgesAt(joins);
    var edges := JoinedEdges(joins);
    forall a: nat, b: nat | a < b < |edges| ensures edges[a] != edges[b] {
      EdgesDiffer(joins, a, b);
    }
  }

  lemma DoubledIsNotSimple(joins: seq<Join>, x: Join, y: Join)
    requires x in joins && y in joins
    requires x.owner == x.referenced || (x != y && x.owner == y.owner && x.table == y.table)
    ensures !Simple(JoinedEdges(joins))
  {
    hide JoinedEdges;
    JoinedEdgesAt(joins);
    var edges := JoinedEdges(joins);
    var k :| 0 <= k < |joins| && joins[k] == x;
    var l :| 0 <= l < |joins| && joins[l] == y;
    if x.owner == x.referenced {
      assert edges[2 * k] == edges[2 * k + 1];
    } else {
      assert edges[2 * k] == edges[2 * l];
    }
  }

  lemma JoinNames(models: seq<Model>, x: Join)
    requires Identifiers(models) && x in Declared(models, |models|)
    ensures '.' in x.table && '.' !in x.owner && '.' !in x.referenced
  {
    var i, k := Origin(models, |models|, x);
    if IsRelation(models, x, i, k) {
      RelationNames(models, i, k);
    } else {
      QualifiedHolds(models[i].name, models[i].files[k].field);
    }
  }

  lemma JoinEdgesEndInSinks(models: seq<Model>)
    requires Identifiers(models)
    ensures var edges := JoinEdges(models);
            forall a, b :: 0 <= a < |edges| && 0 <= b < |edges| ==> edges[a].to != edges[b].from
  {
    var joins := Emitted(Declared(models, |models|));
    var edges := JoinEdges(models);
    JoinedEdgesAt(joins);
    forall a | 0 <= a < |edges| ensures '.' in edges[a].to && '.' !in edges[a].from {
      JoinedEdgeAt(joins, a);
      EmittedIsDeclared(Declared(models, |models|), joins[a / 2]);
      JoinNames(models, joins[a / 2]);
    }
  }

  lemma TablesApart(models: seq<Model>, i: nat, k: nat, j: nat, l: nat)
    requires Identifiers(models) && FilesApart(models)
    requires DeclaresRelation(models, i, k) && DeclaresFiles(models, j, l)
    ensures RelationJoin(models, models[i], models[i].relations[k]).table !=
            FileJoin(models[j], models[j].files[l]).table
  {
    RelationNames(models, i, k);
    QualifiedHolds(models[j].name, models[j].files[l].field);
    if !Mapped(models, models[i].relations[k]) && Own(models, i, k) == FileJoin(models[j], models[j].files[l]).table {
      QualifiedIsInjective(models[i].name, models[i].relations[k].field, models[j].name, models[j].files[l].field);
    }
  }

  lemma DeclaredTablesApart(models: seq<Model>, x: Join, y: Join)
    requires Identifiers(models) && FilesApart(models)
    requires x in Declared(models, |models|) && y in Declared(models, |models|)
    requires x.shared && !y.shared
    ensures x.table != y.table
  {
    var i, k := Origin(models, |models|, x);
    var j, l := Origin(models, |models|, y);
    TablesApart(models, i, k, j, l);
  }

  lemma CleanModelsAreSimple(models: seq<Model>)
    requires Identifiers(models) && JoinsTwoModels(models) && FilesApart(models)
    ensures Simple(JoinEdges(models))
  {
    var declared := Declared(models, |models|);
    var joins := Emitted(declared);
    EmittedTablesApart(declared);
    DeclaredFilesApart(models, |models|);
    forall k | 0 <= k < |joins| ensures joins[k] in declared && joins[k].owner != joins[k].referenced {
      EmittedIsDeclared(declared, joins[k]);
      var i, l := Origin(models, |models|, joins[k]);
    }
    forall k, l | 0 <= k < l < |joins| ensures joins[k].table != joins[l].table {
      if joins[k].shared && !joins[l].shared {
        DeclaredTablesApart(models, joins[k], joins[l]);
      } else if !joins[k].shared && joins[l].shared {
        DeclaredTablesApart(models, joins[l], joins[k]);
      }
    }
    ApartIsSimple(joins);
  }

  lemma SelfJoinStays(models: seq<Model>, x: Join, y: Join, i: nat, k: nat)
    requires Identifiers(models) && IsRelation(models, x, i, k) && x.owner == x.referenced
    requires y in Declared(models, |models|) && y.shared && y.table == x.table
    ensures y.owner == y.referenced
  {
    hide TwoSides, Declared;
    var j, l := Origin(models, |models|, y);
    SameTable(models, i, k, j, l);
    if !(i == j && k == l) {
      SameSides(models, i, k, j, l);
    }
  }

  lemma SelfJoinIsDoubled(models: seq<Model>, x: Join, i: nat, k: nat)
    requires Identifiers(models) && DeclaredBy(models, x, i, k) && x.owner == x.referenced
    ensures !Simple(JoinEdges(models))
  {
    var declared := Declared(models, |models|);
    IsDeclared(models, |models|, x, i, k);
    var y := DeclaredIsEmitted(declared, x);
    EmittedIsDeclared(declared, y);
    if x != y {
      SelfJoinStays(models, x, y, i, k);
    }
    DoubledIsNotSimple(Emitted(declared), y, y);
  }

  lemma ClashIsDoubled(models: seq<Model>, i: nat, k: nat, l: nat)
    requires Identifiers(models) && DeclaresRelation(models, i, k) && DeclaresFiles(models, i, l)
    requires !Mapped(models, models[i].relations[k]) && models[i].relations[k].field == models[i].files[l].field
    ensures !Simple(JoinEdges(models))
  {
    var declared := Declared(models, |models|);
    var x := RelationJoin(models, models[i], models[i].relations[k]);
    var z := FileJoin(models[i], models[i].files[l]);
    IsDeclared(models, |models|, x, i, k);
    IsDeclared(models, |models|, z, i, l);
    var y := DeclaredIsEmitted(declared, x);
    var w := DeclaredIsEmitted(declared, z);
    EmittedIsDeclared(declared, y);
    var j, m := Origin(models, |models|, y);
    RelationNames(models, i, k);
    RelationNames(models, j, m);
    QualifiedIsInjective(models[i].name, models[i].relations[k].field, models[j].name, models[j].relations[m].field);
    DoubledIsNotSimple(Emitted(declared), w, y);
  }

  /** The join tables alone are admissible exactly when each joins two different models and no file
      list shares its table with a relation. */
  lemma JoinTablesAdmissible(models: seq<Model>)
    requires Identifiers(models)
    ensures Admissible(JoinEdges(models)) <==> JoinsTwoModels(models) && FilesApart(models)
  {
    JoinEdgesEndInSinks(models);
    SinksAdmissible(JoinEdges(models));
    if JoinsTwoModels(models) && FilesApart(models) {
      CleanModelsAreSimple(models);
    } else if !FilesApart(models) {
      var i: nat, k: nat, l: nat :| DeclaresRelation(models, i, k) && DeclaresFiles(models, i, l) &&
        !Mapped(models, models[i].relations[k]) && models[i].relations[k].field == models[i].files[l].field;
      ClashIsDoubled(models, i, k, l);
    } else if exists i: nat, k: nat ::
        DeclaresRelation(models, i, k) && Capitalize(models[i].relations[k].target) == models[i].name {
      var i: nat, k: nat :|
        DeclaresRelation(models, i, k) && Capitalize(models[i].relations[k].target) == models[i].name;
      SelfJoinIsDoubled(models, RelationJoin(models, models[i], models[i].relations[k]), i, k);
    } else {
      var i: nat, k: nat :| DeclaresFiles(models, i, k) && models[i].name == "File";
      SelfJoinIsDoubled(models, FileJoin(models[i], models[i].files[k]), i, k);
    }
  }
}

/** What a document has to hold for its hoisting to be undone: no dangling reference, and no enum with a
    title that an enum may be hoisted under. packages/client/utils/hoist-util.ts */
module SchemaNames {
  import opened Options
  import opened Schemas
  import opened SchemaInline
  import opened SchemaTitles
  import opened SchemaRoundTrip

  /** Every reference of the document is to one of its definitions. */
  ghost predicate NoDangling(doc: Document) {
    forall k, r :: k in doc && r in Refs(doc[k]) ==> KeyOf(r) in doc
  }

  lemma {:induction false} KeyOfPlain(text: string)
    requires '#' !in text
    ensures KeyOf(text) == text
  {
    assert PREFIX[0] == '#';
    if |text| >= |PREFIX| {
      assert text[0] == text[..|PREFIX|][0] && text[0] in text;
      KeyOfPlain(text[1..]);
    }
  }

  /** Nothing refers to a name the document has not defined yet. */
  lemma NewNamesAreUnused(doc: Document, shapes: seq<HoistStep>, enums: seq<HoistStep>)
    requires NoDangling(doc) && PlainNames(shapes)
    requires forall i :: 0 <= i < |shapes + enums| ==> (shapes + enums)[i].name !in doc
    ensures NoneNamed(doc, shapes) && NoneWritten(doc, shapes + enums)
  {
    hide Refs, KeyOf;
    forall i | 0 <= i < |shapes| ensures NotNamed(doc, shapes[i].name) {
      assert (shapes + enums)[i] == shapes[i];
      KeyOfPlain(shapes[i].name);
    }
    forall i, k | 0 <= i < |shapes + enums| && k in doc ensures PREFIX + (shapes + enums)[i].name !in Refs(doc[k]) {
      KeyOfReference((shapes + enums)[i].name);
    }
  }

  predicate IsEnum(fields: map<string, Json>) {
    "enum" in fields && fields["enum"].Arr?
  }

  function OwnEnumTitle(fields: map<string, Json>): set<string> {
    if IsEnum(fields) && "title" in fields && fields["title"].Str? then {fields["title"].text} else {}
  }

  /** The titles of the enums in a tree. */
  function EnumTitles(j: Json): set<string> {
    match j
    case Arr(items) => set i, t | 0 <= i < |items| && t in EnumTitles(items[i]) :: t
    case Obj(fields) => OwnEnumTitle(fields) + set k, t | k in fields && t in EnumTitles(fields[k]) :: t
    case _ => {}
  }

  /** The titles of the enums below a node. */
  function TitlesBelow(j: Json): set<string> {
    set s, t | s in Steps(j) && t in EnumTitles(Child(j, s)) :: t
  }

  /** The titles of the enums in a document, its definitions themselves aside. */
  function EnumTitlesIn(doc: Document): set<string> {
    set k, t | k in doc && t in TitlesBelow(doc[k]) :: t
  }

  lemma TitlesSplit(j: Json)
    ensures EnumTitles(j) == TitlesBelow(j) + if j.Obj? then OwnEnumTitle(j.fields) else {}
  {
    match j
    case Arr(items) =>
      forall t ensures t in EnumTitles(j) <==> t in TitlesBelow(j) {
        if t in EnumTitles(j) {
          var i :| 0 <= i < |items| && t in EnumTitles(items[i]);
          assert Index(i) in Steps(j) && Child(j, Index(i)) == items[i];
        }
      }
    case Obj(fields) =>
      forall t | t in EnumTitles(j) && t !in OwnEnumTitle(fields) ensures t in TitlesBelow(j) {
        var k :| k in fields && t in EnumTitles(fields[k]);
        assert Key(k) in Steps(j) && Child(j, Key(k)) == fields[k];
      }
    case _ =>
  }

  lemma TitlesOfChild(j: Json, s: Step)
    requires s in Steps(j)
    ensures EnumTitles(Child(j, s)) <= TitlesBelow(j) <= EnumTitles(j)
  {
    hide EnumTitles;
    TitlesSplit(j);
  }

  lemma {:induction false} TitlesAt(j: Json, p: Place)
    requires At(j, p).Some?
    ensures EnumTitles(At(j, p).value) <= EnumTitles(j)
    ensures p != [] ==> EnumTitles(At(j, p).value) <= TitlesBelow(j)
    decreases |p|
  {
    hide EnumTitles, TitlesBelow;
    if p != [] {
      TitlesOfChild(j, p[0]);
      TitlesAt(Child(j, p[0]), p[1..]);
    }
  }

  lemma PutOwnTitle(j: Json, places: set<Place>, name: string)
    requires j.Obj? && [] !in places
    ensures Put(j, places, name).Obj? && OwnEnumTitle(Put(j, places, name).fields) <= OwnEnumTitle(j.fields)
  {
    var put := Put(j, places, name).fields;
    assert "enum" in put ==> put["enum"] == Put(j.fields["enum"], Below(places, Key("enum")), name);
    assert "title" in put ==> put["title"] == Put(j.fields["title"], Below(places, Key("title")), name);
  }

  lemma {:induction false} PutTitles(j: Json, places: set<Place>, name: string)
    ensures EnumTitles(Put(j, places, name)) <= EnumTitles(j)
    decreases j, 1
  {
    hide EnumTitles, TitlesBelow, OwnEnumTitle, Put;
    if [] in places && j.Obj? {
      ReferringTitles(j, places, name);
    } else {
      PutTitlesBelow(j, places, name);
      TitlesSplit(j);
      TitlesSplit(Put(j, places, name));
      if j.Obj? {
        PutOwnTitle(j, places, name);
      } else {
        PutLeavesKind(j, places, name);
      }
    }
  }

  lemma PutLeavesKind(j: Json, places: set<Place>, name: string)
    requires !j.Obj?
    ensures !Put(j, places, name).Obj?
  {}

  lemma {:induction false} PutTitlesBelow(j: Json, places: set<Place>, name: string)
    requires [] !in places || !j.Obj?
    ensures TitlesBelow(Put(j, places, name)) <= TitlesBelow(j)
    decreases j, 0
  {
    hide EnumTitles, Put, Below, Steps, Child;
    PutKeepsSteps(j, places, name);
    forall t | t in TitlesBelow(Put(j, places, name)) ensures t in TitlesBelow(j) {
      var s :| s in Steps(j) && t in EnumTitles(Child(Put(j, places, name), s));
      PutTitles(Child(j, s), Below(places, s), name);
    }
  }

  lemma ReferringTitles(j: Json, places: set<Place>, name: string)
    requires [] in places && j.Obj?
    ensures EnumTitles(Put(j, places, name)) <= EnumTitles(j)
  {
    var kept := Annotations(j.fields)["$ref" := Str(PREFIX + name)];
    assert !IsEnum(kept);
    forall t | t in EnumTitles(Obj(kept)) ensures t in EnumTitles(j) {
      var k :| k in kept && t in EnumTitles(kept[k]);
      assert EnumTitles(Str(PREFIX + name)) == {};
      assert k in j.fields && kept[k] == j.fields[k];
    }
  }

  lemma DefinitionTitlesBelow(name: string, fields: map<string, Json>)
    ensures TitlesBelow(Definition(name, Structure(fields))) <= EnumTitles(Obj(fields))
  {
    var definition := Definition(name, Structure(fields));
    forall t | t in TitlesBelow(definition) ensures t in EnumTitles(Obj(fields)) {
      var s :| s in Steps(definition) && t in EnumTitles(Child(definition, s));
      assert EnumTitles(Str(name)) == {};
      assert s.key in fields && Child(definition, s) == fields[s.key];
    }
  }

  /** A hoisting adds no title of an enum to a document. */
  lemma AppliedTitles(doc: Document, step: HoistStep)
    requires FromDocument(doc, step)
    ensures EnumTitlesIn(Apply(doc, step)) <= EnumTitlesIn(doc)
  {
    hide EnumTitles, TitlesBelow, Apply, Put, Below, Definition, Structure, At;
    Applied(doc, step);
    forall k, t | k in Apply(doc, step) && t in TitlesBelow(Apply(doc, step)[k]) ensures t in EnumTitlesIn(doc) {
      if k != step.name {
        NodesBelow(doc, step.places, k);
        PutTitlesBelow(doc[k], Below(step.places, Key(k)), step.name);
        assert t in TitlesBelow(doc[k]);
      } else {
        var p :| p in step.places && Structure(FieldsAt(Obj(doc), p)) == step.content;
        DefinitionTitlesBelow(step.name, FieldsAt(Obj(doc), p));
        NodeTitles(doc, p);
      }
    }
  }

  lemma NodeTitles(doc: Document, p: Place)
    requires |p| >= 2 && ObjectAt(Obj(doc), p)
    ensures EnumTitles(Obj(FieldsAt(Obj(doc), p))) <= EnumTitlesIn(doc)
  {
    hide EnumTitles, TitlesBelow;
    var k := p[0].key;
    assert p[0] == Key(k) && k in doc && Child(Obj(doc), p[0]) == doc[k];
    AtStep(Obj(doc), p);
    TitlesAt(doc[k], p[1..]);
  }

  lemma {:induction false} ShapesAddNoTitles(doc: Document, steps: seq<HoistStep>)
    requires ShapeSteps(doc, steps)
    ensures EnumTitlesIn(ApplyAll(doc, steps)) <= EnumTitlesIn(doc)
    decreases |steps|
  {
    hide EnumTitlesIn, Apply, ShapeStep;
    if steps != [] {
      ShapeIsFromDocument(doc, steps[0]);
      AppliedTitles(doc, steps[0]);
      ShapesAddNoTitles(Apply(doc, steps[0]), steps[1..]);
    }
  }
}

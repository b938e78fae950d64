/** A whole hoisting undone: every definition is given back, exactly or up to same-titled references. */
module SchemaRoundTrip {
  import opened Options
  import opened Schemas
  import opened SchemaInline
  import opened SchemaTitles

  // One shape

  ghost predicate NamesNot(j: Json, titles: Titles, name: string) {
    forall r :: r in Refs(j) ==> ReferenceTitle(r, titles) != name
  }

  lemma ReferringSignature(fields: map<string, Json>, titles: Titles, name: string, body: map<string, Json>)
    requires ReferenceTitle(PREFIX + name, titles) == name
    requires SignatureOf(Structure(fields), titles) == body
    ensures Inline(Signature(Referring(fields, name), titles), name, body) == Signature(Obj(fields), titles)
  {
    hide Signature, Inline, SignatureOf, Structure, Referring, ReferenceTitle;
    var kept := Annotations(SignatureOf(fields, titles));
    ReferenceSignature(fields, titles, name);
    SignatureParts(fields, titles);
    SignatureFields(fields, titles);
    OnlyAnnotations(SignatureOf(fields, titles), name);
    InlineReferring(kept["$ref" := Str(name)], name, body);
  }

  lemma OnlyAnnotations(fields: map<string, Json>, name: string)
    ensures Annotations(Annotations(fields)["$ref" := Str(name)]) == Annotations(fields)
  {}

  lemma ReferenceSignature(fields: map<string, Json>, titles: Titles, name: string)
    requires ReferenceTitle(PREFIX + name, titles) == name
    ensures Signature(Referring(fields, name), titles) ==
            Obj(Annotations(SignatureOf(fields, titles))["$ref" := Str(name)])
  {
    var left := Annotations(fields)["$ref" := Str(PREFIX + name)];
    SignatureFields(left, titles);
    hide Signature, ReferenceTitle;
    assert SignatureOf(left, titles) == Annotations(SignatureOf(fields, titles))["$ref" := Str(name)];
  }

  lemma {:induction false} InlinePutSignature(j: Json, places: set<Place>, titles: Titles, name: string,
                                              body: map<string, Json>)
    requires ReferenceTitle(PREFIX + name, titles) == name
    requires NamesNot(j, titles, name)
    requires forall p :: p in places ==> ObjectAt(j, p) && SignatureOf(Structure(FieldsAt(j, p)), titles) == body
    ensures Inline(Signature(Put(j, places, name), titles), name, body) == Signature(j, titles)
  {
    if [] in places {
      ReferringSignature(j.fields, titles, name, body);
    } else {
      forall s | s in Steps(j)
        ensures Inline(Signature(Put(Child(j, s), Below(places, s), name), titles), name, body) ==
                Signature(Child(j, s), titles)
      {
        forall q | q in Below(places, s)
          ensures ObjectAt(Child(j, s), q) && SignatureOf(Structure(FieldsAt(Child(j, s), q)), titles) == body
        {
          PlacesBelow(j, places, s, q);
        }
        RefsOfChild(j, s);
        InlinePutSignature(Child(j, s), Below(places, s), titles, name, body);
      }
      if j.Arr? {
        ItemsSignature(j.items, places, titles, name, body);
      } else if j.Obj? {
        FieldsSignature(j.fields, places, titles, name, body);
      }
    }
  }

  lemma ItemsSignature(items: seq<Json>, places: set<Place>, titles: Titles, name: string, body: map<string, Json>)
    requires forall s :: s in Steps(Arr(items)) ==>
               Inline(Signature(Put(Child(Arr(items), s), Below(places, s), name), titles), name, body) ==
               Signature(Child(Arr(items), s), titles)
    ensures Inline(Signature(Put(Arr(items), places, name), titles), name, body) == Signature(Arr(items), titles)
  {
    var left := Inline(Signature(Put(Arr(items), places, name), titles), name, body).items;
    forall i | 0 <= i < |items| ensures left[i] == Signature(items[i], titles) {
      assert Index(i) in Steps(Arr(items));
      assert Child(Arr(items), Index(i)) == items[i];
    }
    assert left == Signature(Arr(items), titles).items;
  }

  function Written(fields: map<string, Json>, places: set<Place>, name: string): map<string, Json> {
    map k | k in fields :: Put(fields[k], Below(places, Key(k)), name)
  }

  lemma PutKeepsText(j: Json, places: set<Place>, name: string)
    ensures Put(j, places, name).Str? <==> j.Str?
    ensures j.Str? ==> Put(j, places, name) == j
  {}

  lemma WrittenRefersNowhere(fields: map<string, Json>, places: set<Place>, titles: Titles, name: string)
    requires NamesNot(Obj(fields), titles, name)
    ensures !Refers(SignatureOf(Written(fields, places, name), titles), name)
  {
    if "$ref" in fields {
      var written := Written(fields, places, name)["$ref"];
      PutKeepsText(fields["$ref"], Below(places, Key("$ref")), name);
      TextStaysText(written, titles, name, map[]);
      if fields["$ref"].Str? {
        assert fields["$ref"].text in Refs(Obj(fields));
      }
    }
  }

  lemma FieldSignature(fields: map<string, Json>, places: set<Place>, titles: Titles, name: string,
                       body: map<string, Json>, k: string)
    requires k in fields
    requires Inline(Signature(Put(fields[k], Below(places, Key(k)), name), titles), name, body) ==
             Signature(fields[k], titles)
    ensures Inline(ResolveField(k, Written(fields, places, name)[k], titles), name, body) ==
            ResolveField(k, fields[k], titles)
  {
    PutKeepsText(fields[k], Below(places, Key(k)), name);
  }

  lemma FieldsSignature(fields: map<string, Json>, places: set<Place>, titles: Titles, name: string,
                        body: map<string, Json>)
    requires [] !in places && NamesNot(Obj(fields), titles, name)
    requires forall s :: s in Steps(Obj(fields)) ==>
               Inline(Signature(Put(Child(Obj(fields), s), Below(places, s), name), titles), name, body) ==
               Signature(Child(Obj(fields), s), titles)
    ensures Inline(Signature(Put(Obj(fields), places, name), titles), name, body) == Signature(Obj(fields), titles)
  {
    hide Put, Below, Refs, NamesNot, Written, Signature, Inline, Refers;
    var written := SignatureOf(Written(fields, places, name), titles);
    PutIsWritten(fields, places, name);
    WrittenRefersNowhere(fields, places, titles, name);
    SignatureFields(Written(fields, places, name), titles);
    SignatureFields(fields, titles);
    InlineObject(written, name, body);
    var inlined := Inline(Obj(written), name, body).fields;
    forall k | k in fields ensures inlined[k] == ResolveField(k, fields[k], titles) {
      assert Key(k) in Steps(Obj(fields)) && Child(Obj(fields), Key(k)) == fields[k];
      FieldSignature(fields, places, titles, name, body, k);
    }
    assert inlined == SignatureOf(fields, titles);
  }

  lemma PutIsWritten(fields: map<string, Json>, places: set<Place>, name: string)
    requires [] !in places
    ensures Put(Obj(fields), places, name) == Obj(Written(fields, places, name))
    ensures Written(fields, places, name).Keys == fields.Keys
  {}

  lemma TitlesApplied(doc: Document, step: HoistStep)
    requires step.name !in doc && Nodes(doc, step.places) && "title" !in step.content
    ensures DefinitionTitles(Apply(doc, step)) == DefinitionTitles(doc)[step.name := step.name]
  {
    hide Apply, Put, Below, TitleOf, Nodes, Definition;
    Applied(doc, step);
    var after := Apply(doc, step);
    forall k | k in doc ensures TitleOf(k, after[k]) == TitleOf(k, doc[k]) {
      NodesBelow(doc, step.places, k);
      PutKeepsTitle(k, doc[k], Below(step.places, Key(k)), step.name);
    }
    TitleOfDefinition(step.name, step.content);
  }

  lemma TitleOfDefinition(name: string, content: map<string, Json>)
    requires "title" !in content
    ensures TitleOf(name, Definition(name, content)) == name
  {}

  lemma PutKeepsTitle(key: string, definition: Json, places: set<Place>, name: string)
    requires [] !in places
    ensures TitleOf(key, Put(definition, places, name)) == TitleOf(key, definition)
  {
    if definition.Obj? && "title" in definition.fields {
      assert Put(definition, places, name).fields["title"] ==
             Put(definition.fields["title"], Below(places, Key("title")), name);
    }
  }

  /** A reference that stands for a hoisted name is the one hoisting writes. */
  ghost predicate Unambiguous(refs: set<string>, name: string) {
    forall r :: r in refs && (r == name || KeyOf(r) == name) ==> r == PREFIX + name
  }

  lemma TitleNamesReference(r: string, titles: Titles, name: string)
    requires name !in titles.Values
    ensures ReferenceTitle(r, titles[name := name]) == name ==> r == name || KeyOf(r) == name
  {
    var wider := titles[name := name];
    if KeyOf(r) in titles && KeyOf(r) != name {
      assert wider[KeyOf(r)] == titles[KeyOf(r)];
    }
  }

  /** No reference of the document stands for the name. */
  ghost predicate NotNamed(doc: Document, name: string) {
    forall k :: k in doc ==> NoneStandsFor(Refs(doc[k]), name)
  }

  ghost predicate NoneStandsFor(refs: set<string>, name: string) {
    forall r :: r in refs ==> r != name && KeyOf(r) != name
  }

  ghost predicate Within(doc: Document, refs: set<string>) {
    forall k :: k in doc ==> Refs(doc[k]) <= refs
  }

  lemma BodyOfSame(a: Json, name: string, content: map<string, Json>, titles: Titles)
    requires "title" !in content
    requires Signature(a, titles) == Signature(Definition(name, content), titles)
    ensures SignatureOf(Body(a, name), titles) == SignatureOf(content, titles)
  {
    hide Signature, SignatureOf, ResolveField, Body;
    var defined := map["title" := Str(name)] + content;
    SignatureIsObject(a, titles);
    SignatureIsObject(Obj(defined), titles);
    SignatureFields(a.fields, titles);
    SignatureFields(defined, titles);
    assert SignatureOf(a.fields, titles) == SignatureOf(defined, titles);
    TitleSignature(defined, name, titles);
    TitleSignature(a.fields, name, titles);
    BodyWithoutTitle(a, name);
    SignatureWithout(a.fields, "title", titles);
    SignatureWithout(defined, "title", titles);
    assert defined - {"title"} == content;
  }

  lemma SignatureIsObject(j: Json, titles: Titles)
    ensures Signature(j, titles).Obj? <==> j.Obj?
  {}

  lemma BodyWithoutTitle(definition: Json, name: string)
    requires definition.Obj? && "title" in definition.fields && definition.fields["title"] == Str(name)
    ensures Body(definition, name) == definition.fields - {"title"}
  {}

  lemma SignatureWithout(fields: map<string, Json>, k: string, titles: Titles)
    ensures SignatureOf(fields - {k}, titles) == SignatureOf(fields, titles) - {k}
  {
    hide ResolveField;
  }

  lemma TitleSignature(fields: map<string, Json>, name: string, titles: Titles)
    ensures ("title" in fields && fields["title"] == Str(name)) <==>
            ("title" in SignatureOf(fields, titles) && SignatureOf(fields, titles)["title"] == Str(name))
  {
    SignatureKeys(fields, titles);
    if "title" in fields {
      TextStaysText(fields["title"], titles, "", map[]);
    }
  }

  lemma UndoneShape(doc: Document, step: HoistStep, later: Document, refs: set<string>, k: string)
    requires ShapeStep(doc, step) && k in doc
    requires Same(later, Apply(doc, step), DefinitionTitles(Apply(doc, step)))
    requires Within(later, refs) && Unambiguous(refs, step.name)
    requires NotNamed(doc, step.name)
    ensures step.name in later && k in later
    ensures Signature(Inline(later[k], PREFIX + step.name, Body(later[step.name], step.name)), DefinitionTitles(doc)) ==
            Signature(doc[k], DefinitionTitles(doc))
  {
    var titles, name := DefinitionTitles(doc), step.name;
    var wider := titles[name := name];
    var body := Body(later[name], name);
    TitlesApplied(doc, step);
    Applied(doc, step);
    BodyOfSame(later[name], name, step.content, wider);
    KeyOfReference(name);
    forall r | r in Refs(later[k]) && ReferenceTitle(r, wider) == name ensures r == PREFIX + name {
      TitleNamesReference(r, titles, name);
    }
    InlineSignature(later[k], wider, name, body);
    ShapeAt(doc, step, k);
    forall r | r in Refs(doc[k]) ensures ReferenceTitle(r, wider) != name {
      TitleNamesReference(r, titles, name);
    }
    InlinePutSignature(doc[k], Below(step.places, Key(k)), wider, name, SignatureOf(body, wider));
    var undone := Inline(later[k], PREFIX + name, body);
    assert Signature(undone, wider) == Signature(doc[k], wider);
    SignatureStable(doc[k], titles, name);
    forall r | r in Refs(undone) ensures ReferenceTitle(r, wider) != name {
      SignatureRefs(undone, wider, r);
      RefsOfSignature(doc[k], wider, ReferenceTitle(r, wider));
    }
    SignatureStable(undone, titles, name);
  }

  lemma {:induction false} RefsOfSignature(j: Json, titles: Titles, t: string)
    requires t in Refs(Signature(j, titles))
    ensures exists r :: r in Refs(j) && ReferenceTitle(r, titles) == t
  {
    match j
    case Arr(items) =>
      var i :| 0 <= i < |items| && t in Refs(Signature(items[i], titles));
      RefsOfSignature(items[i], titles, t);
    case Obj(fields) =>
      if Refers(SignatureOf(fields, titles), t) {
        TextStaysText(fields["$ref"], titles, t, map[]);
        assert fields["$ref"].text in Refs(j);
      } else {
        var k :| k in fields && t in Refs(SignatureOf(fields, titles)[k]);
        assert Refs(Str(ReferenceTitle("", titles))) == {};
        RefsOfSignature(fields[k], titles, t);
      }
    case _ =>
  }

  lemma {:induction false} RefsAt(j: Json, p: Place)
    requires At(j, p).Some?
    ensures Refs(At(j, p).value) <= Refs(j)
    decreases |p|
  {
    if p != [] {
      RefsOfChild(j, p[0]);
      RefsAt(Child(j, p[0]), p[1..]);
    }
  }

  lemma StructureStable(fields: map<string, Json>, titles: Titles, name: string)
    requires name !in titles && NamesNot(Obj(fields), titles[name := name], name)
    ensures SignatureOf(Structure(fields), titles[name := name]) == SignatureOf(Structure(fields), titles)
  {
    var part := Obj(Structure(fields));
    forall r | r in Refs(part) ensures r in Refs(Obj(fields)) {
      if !(Refers(part.fields, r)) {
        var k :| k in part.fields && r in Refs(part.fields[k]);
        RefsOfField(fields, k);
      }
    }
    SignatureStable(part, titles, name);
    assert Signature(part, titles) == Obj(SignatureOf(Structure(fields), titles));
  }

  lemma NodeStable(doc: Document, p: Place, name: string)
    requires |p| >= 2 && ObjectAt(Obj(doc), p) && NotNamed(doc, name)
    requires name !in doc && name !in DefinitionTitles(doc).Values
    ensures var titles := DefinitionTitles(doc);
            SignatureOf(Structure(FieldsAt(Obj(doc), p)), titles[name := name]) ==
            SignatureOf(Structure(FieldsAt(Obj(doc), p)), titles)
  {
    var titles := DefinitionTitles(doc);
    var k := p[0].key;
    assert Key(k) in Steps(Obj(doc)) && Child(Obj(doc), p[0]) == doc[k];
    AtStep(Obj(doc), p);
    RefsAt(doc[k], p[1..]);
    forall r | r in Refs(Obj(FieldsAt(Obj(doc), p))) ensures ReferenceTitle(r, titles[name := name]) != name {
      TitleNamesReference(r, titles, name);
    }
    StructureStable(FieldsAt(Obj(doc), p), titles, name);
  }

  lemma ShapeAt(doc: Document, step: HoistStep, k: string)
    requires ShapeStep(doc, step) && k in doc && NotNamed(doc, step.name)
    ensures var wider := DefinitionTitles(doc)[step.name := step.name];
            forall q :: q in Below(step.places, Key(k)) ==>
              ObjectAt(doc[k], q) &&
              SignatureOf(Structure(FieldsAt(doc[k], q)), wider) == SignatureOf(step.content, wider)
  {
    var o :| o in step.places && Structure(FieldsAt(Obj(doc), o)) == step.content;
    NodeStable(doc, o, step.name);
    NodesBelow(doc, step.places, k);
    var wider := DefinitionTitles(doc)[step.name := step.name];
    forall q | q in Below(step.places, Key(k))
      ensures SignatureOf(Structure(FieldsAt(doc[k], q)), wider) == SignatureOf(step.content, wider)
    {
      assert Key(k) in Steps(Obj(doc)) && Child(Obj(doc), Key(k)) == doc[k];
      PlacesBelow(Obj(doc), step.places, Key(k), q);
      NodeStable(doc, [Key(k)] + q, step.name);
    }
  }

  lemma ShapeHasNodes(doc: Document, step: HoistStep)
    requires ShapeStep(doc, step)
    ensures step.name !in doc && Nodes(doc, step.places)
  {}

  /** A document that is the same as the hoisted one gives back the one before, through its references. */
  lemma ShapeUndone(doc: Document, step: HoistStep, later: Document, refs: set<string>)
    requires ShapeStep(doc, step) && NotNamed(doc, step.name)
    requires Same(later, Apply(doc, step), DefinitionTitles(Apply(doc, step)))
    requires Within(later, refs) && Unambiguous(refs, step.name)
    ensures Same(Undo(later, step.name), doc, DefinitionTitles(doc))
  {
    hide Apply, Undo, Body, Inline, Signature, Refs, ShapeStep, NotNamed, Within, Unambiguous, DefinitionTitles, Put,
         Below;
    assert step.name !in doc && Nodes(doc, step.places) by { ShapeHasNodes(doc, step); }
    hide Nodes;
    Applied(doc, step);
    UndoneDefinition(later, step.name);
    forall k | k in doc
      ensures Signature(Undo(later, step.name)[k], DefinitionTitles(doc)) == Signature(doc[k], DefinitionTitles(doc))
    {
      UndoneShape(doc, step, later, refs, k);
    }
    assert Undo(later, step.name).Keys == doc.Keys;
  }

  // The references of a run

  lemma {:induction false} RefsPut(j: Json, places: set<Place>, name: string)
    ensures Refs(Put(j, places, name)) <= Refs(j) + {PREFIX + name}
  {
    if [] in places && j.Obj? {
      RefsReferring(j.fields, name);
    } else {
      match j
      case Arr(items) =>
        forall i | 0 <= i < |items|
          ensures Refs(Put(items[i], Below(places, Index(i)), name)) <= Refs(j) + {PREFIX + name}
        {
          RefsPut(items[i], Below(places, Index(i)), name);
          RefsOfItem(items, i);
        }
      case Obj(fields) =>
        forall k | k in fields ensures Refs(Written(fields, places, name)[k]) <= Refs(j) + {PREFIX + name} {
          RefsPut(fields[k], Below(places, Key(k)), name);
          RefsOfField(fields, k);
          PutKeepsText(fields[k], Below(places, Key(k)), name);
        }
        PutIsWritten(fields, places, name);
      case _ =>
    }
  }

  lemma RefsReferring(fields: map<string, Json>, name: string)
    ensures Refs(Referring(fields, name)) <= Refs(Obj(fields)) + {PREFIX + name}
  {
    var left := Annotations(fields)["$ref" := Str(PREFIX + name)];
    forall k | k in left ensures Refs(left[k]) <= Refs(Obj(fields)) {
      if k in fields && k != "$ref" {
        RefsOfField(fields, k);
      }
    }
  }

  lemma RefsOfBoth(a: map<string, Json>, b: map<string, Json>)
    ensures Refs(Obj(a + b)) <= Refs(Obj(a)) + Refs(Obj(b))
  {
    forall k | k in a + b ensures Refs((a + b)[k]) <= Refs(Obj(a)) + Refs(Obj(b)) {
      if k in b {
        RefsOfField(b, k);
      } else {
        RefsOfField(a, k);
      }
    }
  }

  lemma RefsOfPart(part: map<string, Json>, fields: map<string, Json>)
    requires forall k :: k in part ==> k in fields && part[k] == fields[k]
    ensures Refs(Obj(part)) <= Refs(Obj(fields))
  {
    forall k | k in part ensures Refs(part[k]) <= Refs(Obj(fields)) {
      RefsOfField(fields, k);
    }
  }

  lemma {:induction false} RefsInline(j: Json, target: string, body: map<string, Json>)
    ensures Refs(Inline(j, target, body)) <= Refs(j) + Refs(Obj(body))
  {
    match j
    case Arr(items) =>
      forall i | 0 <= i < |items| ensures Refs(Inline(items[i], target, body)) <= Refs(j) + Refs(Obj(body)) {
        RefsInline(items[i], target, body);
        RefsOfItem(items, i);
      }
    case Obj(fields) =>
      if Refers(fields, target) {
        RefsOfBoth(Annotations(fields), body);
        RefsOfPart(Annotations(fields), fields);
      } else {
        forall k | k in fields ensures Refs(Inline(fields[k], target, body)) <= Refs(j) + Refs(Obj(body)) {
          RefsInline(fields[k], target, body);
          RefsOfField(fields, k);
          TextStaysText(fields[k], map[], target, body);
        }
        InlineObject(fields, target, body);
      }
    case _ =>
  }

  lemma UndoneWithin(doc: Document, name: string, refs: set<string>)
    requires Within(doc, refs)
    ensures Within(Undo(doc, name), refs)
  {
    var body := if name in doc then Body(doc[name], name) else map[];
    assert Refs(Obj(body)) <= refs by {
      if name in doc && doc[name].Obj? {
        RefsOfPart(body, doc[name].fields);
      }
    }
    forall k | k in Undo(doc, name) ensures Refs(Undo(doc, name)[k]) <= refs {
      RefsInline(doc[k], PREFIX + name, body);
    }
  }

  lemma NodeWithin(doc: Document, p: Place, refs: set<string>)
    requires |p| >= 2 && ObjectAt(Obj(doc), p) && Within(doc, refs)
    ensures Refs(Obj(FieldsAt(Obj(doc), p))) <= refs
  {
    var k := p[0].key;
    assert Key(k) in Steps(Obj(doc)) && Child(Obj(doc), p[0]) == doc[k];
    AtStep(Obj(doc), p);
    RefsAt(doc[k], p[1..]);
  }

  ghost predicate FromDocument(doc: Document, step: HoistStep) {
    Nodes(doc, step.places) && exists p :: p in step.places && Structure(FieldsAt(Obj(doc), p)) == step.content
  }

  lemma AppliedWithin(doc: Document, step: HoistStep, refs: set<string>)
    requires Within(doc, refs) && FromDocument(doc, step)
    ensures Within(Apply(doc, step), refs + {PREFIX + step.name})
  {
    DefinitionWithin(doc, step, refs);
    hide Apply, Refs, Put, Below, Definition;
    Applied(doc, step);
    forall k | k in Apply(doc, step) ensures Refs(Apply(doc, step)[k]) <= refs + {PREFIX + step.name} {
      if k != step.name {
        RefsPut(doc[k], Below(step.places, Key(k)), step.name);
      }
    }
  }

  lemma DefinitionWithin(doc: Document, step: HoistStep, refs: set<string>)
    requires Within(doc, refs) && FromDocument(doc, step)
    ensures Refs(Definition(step.name, step.content)) <= refs
  {
    hide Refs, Within;
    var p :| p in step.places && Structure(FieldsAt(Obj(doc), p)) == step.content;
    NodeWithin(doc, p, refs);
    RefsOfPart(step.content, FieldsAt(Obj(doc), p));
    RefsOfBoth(map["title" := Str(step.name)], step.content);
    TitleRefersNowhere(step.name);
  }

  lemma TitleRefersNowhere(name: string)
    ensures Refs(Obj(map["title" := Str(name)])) == {}
  {}

  // A whole run

  ghost function ApplyAll(doc: Document, steps: seq<HoistStep>): Document
    decreases |steps|
  {
    if steps == [] then doc else ApplyAll(Apply(doc, steps[0]), steps[1..])
  }

  /** The definitions inlined again, the last hoisted first. */
  ghost function UndoAll(doc: Document, steps: seq<HoistStep>): Document
    decreases |steps|
  {
    if steps == [] then doc else Undo(UndoAll(doc, steps[1..]), steps[0].name)
  }

  ghost predicate ShapeSteps(doc: Document, steps: seq<HoistStep>)
    decreases |steps|
  {
    steps == [] || (ShapeStep(doc, steps[0]) && ShapeSteps(Apply(doc, steps[0]), steps[1..]))
  }

  ghost predicate ExactSteps(doc: Document, steps: seq<HoistStep>)
    decreases |steps|
  {
    steps == [] || (ExactStep(doc, steps[0]) && ExactSteps(Apply(doc, steps[0]), steps[1..]))
  }

  ghost predicate NamesApart(steps: seq<HoistStep>) {
    forall i, j :: 0 <= i < j < |steps| ==> steps[i].name != steps[j].name
  }

  ghost predicate PlainNames(steps: seq<HoistStep>) {
    forall i :: 0 <= i < |steps| ==> '#' !in steps[i].name
  }

  /** No reference the document holds stands for a name the run takes. */
  ghost predicate NoneNamed(doc: Document, steps: seq<HoistStep>) {
    forall i :: 0 <= i < |steps| ==> NotNamed(doc, steps[i].name)
  }

  ghost predicate NoneWritten(doc: Document, steps: seq<HoistStep>) {
    forall i, k :: 0 <= i < |steps| && k in doc ==> PREFIX + steps[i].name !in Refs(doc[k])
  }

  ghost predicate NoOwnTitle(steps: seq<HoistStep>) {
    forall i :: 0 <= i < |steps| ==>
      "title" !in steps[i].content || steps[i].content["title"] != Str(steps[i].name)
  }

  lemma AllRefs(doc: Document) returns (refs: set<string>)
    ensures Within(doc, refs)
    ensures forall r :: r in refs ==> exists k :: k in doc && r in Refs(doc[k])
  {
    refs := set k, r | k in doc && r in Refs(doc[k]) :: r;
  }

  lemma AppliedRef(doc: Document, step: HoistStep, k: string, r: string)
    requires FromDocument(doc, step) && k in Apply(doc, step) && r in Refs(Apply(doc, step)[k])
    ensures r == PREFIX + step.name || exists l :: l in doc && r in Refs(doc[l])
  {
    var refs := AllRefs(doc);
    AppliedWithin(doc, step, refs);
  }

  lemma ExactIsFromDocument(doc: Document, step: HoistStep)
    requires ExactStep(doc, step)
    ensures FromDocument(doc, step)
  {
    var p :| p in step.places;
  }

  lemma ReferenceIsNotName(a: string, b: string)
    requires '#' !in b
    ensures PREFIX + a != b
  {
    assert PREFIX[0] == '#';
    assert (PREFIX + a)[0] == PREFIX[0];
    assert (PREFIX + a)[0] in PREFIX + a;
  }

  lemma ReferenceIsInjective(a: string, b: string)
    ensures PREFIX + a == PREFIX + b ==> a == b
  {
    assert (PREFIX + a)[|PREFIX|..] == a && (PREFIX + b)[|PREFIX|..] == b;
  }

  lemma NoneWrittenStays(doc: Document, steps: seq<HoistStep>)
    requires steps != [] && FromDocument(doc, steps[0]) && NamesApart(steps) && NoneWritten(doc, steps)
    ensures NoneWritten(Apply(doc, steps[0]), steps[1..])
  {
    var after := Apply(doc, steps[0]);
    forall i, k | 0 <= i < |steps[1..]| && k in after ensures PREFIX + steps[1..][i].name !in Refs(after[k]) {
      var r := PREFIX + steps[1..][i].name;
      assert steps[1..][i] == steps[i + 1];
      ReferenceIsInjective(steps[0].name, steps[i + 1].name);
      if r in Refs(after[k]) {
        AppliedRef(doc, steps[0], k, r);
      }
    }
  }

  lemma NoneNamedStays(doc: Document, steps: seq<HoistStep>)
    requires steps != [] && FromDocument(doc, steps[0]) && NamesApart(steps) && PlainNames(steps) &&
             NoneNamed(doc, steps)
    ensures NoneNamed(Apply(doc, steps[0]), steps[1..])
  {
    forall i | 0 <= i < |steps[1..]| ensures NotNamed(Apply(doc, steps[0]), steps[1..][i].name) {
      assert steps[1..][i] == steps[i + 1];
      NotNamedStays(doc, steps[0], steps[i + 1].name);
    }
  }

  lemma OwnReference(doc: Document, k: string, r: string, name: string)
    requires NotNamed(doc, name) && k in doc && r in Refs(doc[k])
    ensures r != name && KeyOf(r) != name
  {}

  lemma NotNamedStays(doc: Document, step: HoistStep, name: string)
    requires FromDocument(doc, step) && NotNamed(doc, name) && name != step.name && '#' !in name
    ensures NotNamed(Apply(doc, step), name)
  {
    hide Apply, FromDocument;
    forall k | k in Apply(doc, step) ensures NoneStandsFor(Refs(Apply(doc, step)[k]), name) {
      forall r | r in Refs(Apply(doc, step)[k]) ensures r != name && KeyOf(r) != name {
        AppliedIsNotNamed(doc, step, name, k, r);
      }
    }
  }

  lemma AppliedIsNotNamed(doc: Document, step: HoistStep, name: string, k: string, r: string)
    requires FromDocument(doc, step) && NotNamed(doc, name) && name != step.name && '#' !in name
    requires k in Apply(doc, step) && r in Refs(Apply(doc, step)[k])
    ensures r != name && KeyOf(r) != name
  {
    hide Apply, FromDocument;
    AppliedRef(doc, step, k, r);
    if r == PREFIX + step.name {
      KeyOfReference(step.name);
      ReferenceIsNotName(step.name, name);
    } else {
      var l :| l in doc && r in Refs(doc[l]);
      OwnReference(doc, l, r, name);
    }
  }

  /** Hoistings of equal structures are undone exactly. */
  lemma {:induction false} ExactUndone(doc: Document, steps: seq<HoistStep>)
    requires ExactSteps(doc, steps) && NamesApart(steps) && NoOwnTitle(steps) && NoneWritten(doc, steps)
    ensures UndoAll(ApplyAll(doc, steps), steps) == doc
    decreases |steps|
  {
    if steps != [] {
      ExactIsFromDocument(doc, steps[0]);
      NoneWrittenStays(doc, steps);
      TailOf(steps);
      ExactUndone(Apply(doc, steps[0]), steps[1..]);
      UndoGivesBack(doc, steps[0]);
    }
  }

  lemma TailOf(steps: seq<HoistStep>)
    requires steps != []
    ensures NamesApart(steps) ==> NamesApart(steps[1..])
    ensures NoOwnTitle(steps) ==> NoOwnTitle(steps[1..])
    ensures PlainNames(steps) ==> PlainNames(steps[1..])
  {}

  lemma {:induction false} UndoneAllWithin(doc: Document, steps: seq<HoistStep>, refs: set<string>)
    requires Within(doc, refs)
    ensures Within(UndoAll(doc, steps), refs)
    decreases |steps|
  {
    if steps != [] {
      UndoneAllWithin(doc, steps[1..], refs);
      UndoneWithin(UndoAll(doc, steps[1..]), steps[0].name, refs);
    }
  }

  ghost predicate AllUnambiguous(refs: set<string>, steps: seq<HoistStep>) {
    forall i :: 0 <= i < |steps| ==> Unambiguous(refs, steps[i].name)
  }

  lemma FirstAndRest(doc: Document, steps: seq<HoistStep>, refs: set<string>)
    requires steps != [] && NoneNamed(doc, steps) && AllUnambiguous(refs, steps)
    ensures NotNamed(doc, steps[0].name) && Unambiguous(refs, steps[0].name) && AllUnambiguous(refs, steps[1..])
  {
    hide NotNamed, Unambiguous;
  }

  lemma ShapeIsFromDocument(doc: Document, step: HoistStep)
    requires ShapeStep(doc, step)
    ensures FromDocument(doc, step)
  {}

  /** A document that is the same as the one after some shapes gives back the one before them. */
  lemma {:induction false} ShapesUndone(doc: Document, steps: seq<HoistStep>, later: Document, refs: set<string>)
    requires ShapeSteps(doc, steps) && NamesApart(steps) && PlainNames(steps) && NoneNamed(doc, steps)
    requires Same(later, ApplyAll(doc, steps), DefinitionTitles(ApplyAll(doc, steps)))
    requires Within(later, refs) && AllUnambiguous(refs, steps)
    ensures Same(UndoAll(later, steps), doc, DefinitionTitles(doc))
    decreases |steps|
  {
    if steps != [] {
      hide Apply, Undo, Refs, Same, ShapeStep, DefinitionTitles, NotNamed, Unambiguous, Within, FromDocument,
           NamesApart, PlainNames, NoneNamed, AllUnambiguous;
      var first, rest := steps[0], steps[1..];
      ShapeIsFromDocument(doc, first);
      NoneNamedStays(doc, steps);
      TailOf(steps);
      FirstAndRest(doc, steps, refs);
      ShapesUndone(Apply(doc, first), rest, later, refs);
      UndoneAllWithin(later, rest, refs);
      ShapeUndone(doc, first, UndoAll(later, rest), refs);
    }
  }

  lemma {:induction false} UndoAllInTwo(doc: Document, first: seq<HoistStep>, then_: seq<HoistStep>)
    ensures UndoAll(doc, first + then_) == UndoAll(UndoAll(doc, then_), first)
    decreases |first|
  {
    if first == [] {
      assert first + then_ == then_;
    } else {
      assert (first + then_)[1..] == first[1..] + then_;
      UndoAllInTwo(doc, first[1..], then_);
    }
  }

  ghost predicate Reference(r: string) {
    exists n :: r == PREFIX + n
  }

  /** After some steps a document holds its own references and ones the steps write. */
  lemma {:induction false} AppliedAllWithin(doc: Document, steps: seq<HoistStep>, refs: set<string>)
    returns (wide: set<string>)
    requires Within(doc, refs) && (ShapeSteps(doc, steps) || ExactSteps(doc, steps))
    ensures Within(ApplyAll(doc, steps), wide)
    ensures forall r :: r in wide ==> r in refs || Reference(r)
    decreases |steps|
  {
    wide := refs;
    if steps != [] {
      hide Apply, Refs, ShapeStep, ExactStep, Within;
      if ShapeSteps(doc, steps) {
        ShapeIsFromDocument(doc, steps[0]);
      } else {
        ExactIsFromDocument(doc, steps[0]);
      }
      AppliedWithin(doc, steps[0], refs);
      assert Reference(PREFIX + steps[0].name);
      wide := AppliedAllWithin(Apply(doc, steps[0]), steps[1..], refs + {PREFIX + steps[0].name});
    }
  }

  lemma StandsApart(doc: Document, refs: set<string>, name: string)
    requires NotNamed(doc, name) && '#' !in name
    requires forall r :: r in refs ==> (exists k :: k in doc && r in Refs(doc[k])) || Reference(r)
    ensures Unambiguous(refs, name)
  {
    forall r | r in refs && (r == name || KeyOf(r) == name) ensures r == PREFIX + name {
      if k :| k in doc && r in Refs(doc[k]) {
        OwnReference(doc, k, r, name);
        assert false;
      }
      var n :| r == PREFIX + n;
      KeyOfReference(n);
      ReferenceIsNotName(n, name);
    }
  }

  /** Inlining every hoisted definition again gives back every original definition: up to references
      to same-titled definitions for the shapes, and exactly when only enums were hoisted. */
  lemma HoistingUndone(doc: Document, shapes: seq<HoistStep>, enums: seq<HoistStep>)
    requires ShapeSteps(doc, shapes) && ExactSteps(ApplyAll(doc, shapes), enums)
    requires NamesApart(shapes + enums) && PlainNames(shapes) && NoOwnTitle(enums)
    requires NoneNamed(doc, shapes) && NoneWritten(ApplyAll(doc, shapes), enums)
    ensures var hoisted := ApplyAll(ApplyAll(doc, shapes), enums);
            && Same(UndoAll(hoisted, shapes + enums), doc, DefinitionTitles(doc))
            && (shapes == [] ==> UndoAll(hoisted, enums) == doc)
  {
    hide Same, ShapeSteps, ExactSteps, NamesApart, PlainNames, NoOwnTitle, NoneNamed, NoneWritten, Within, ApplyAll,
         UndoAll, DefinitionTitles, AllUnambiguous, Refs;
    var middle := ApplyAll(doc, shapes);
    BothApart(shapes, enums);
    ExactUndone(middle, enums);
    UndoAllInTwo(ApplyAll(middle, enums), shapes, enums);
    var own := AllRefs(doc);
    var refs := AppliedAllWithin(doc, shapes, own);
    AllStandApart(doc, shapes, refs);
    SameAsItself(middle);
    ShapesUndone(doc, shapes, middle, refs);
    NothingApplied(doc, shapes);
  }

  lemma NothingApplied(doc: Document, steps: seq<HoistStep>)
    ensures steps == [] ==> ApplyAll(doc, steps) == doc
  {}

  lemma SameAsItself(doc: Document)
    ensures Same(doc, doc, DefinitionTitles(doc))
  {}

  lemma BothApart(first: seq<HoistStep>, then_: seq<HoistStep>)
    requires NamesApart(first + then_)
    ensures NamesApart(first) && NamesApart(then_)
  {
    assert forall i :: 0 <= i < |first| ==> (first + then_)[i] == first[i];
    assert forall i :: 0 <= i < |then_| ==> (first + then_)[|first| + i] == then_[i];
  }

  lemma AllStandApart(doc: Document, steps: seq<HoistStep>, refs: set<string>)
    requires NoneNamed(doc, steps) && PlainNames(steps)
    requires forall r :: r in refs ==> (exists k :: k in doc && r in Refs(doc[k])) || Reference(r)
    ensures AllUnambiguous(refs, steps)
  {
    forall i | 0 <= i < |steps| ensures Unambiguous(refs, steps[i].name) {
      assert NotNamed(doc, steps[i].name);
      StandsApart(doc, refs, steps[i].name);
    }
  }

  // Steps in the order they are made

  lemma {:induction false} ApplyOneMore(doc: Document, steps: seq<HoistStep>, step: HoistStep)
    ensures ApplyAll(doc, steps + [step]) == Apply(ApplyAll(doc, steps), step)
    decreases |steps|
  {
    hide Apply;
    if steps == [] {
      assert steps + [step] == [step] && [step][1..] == [];
    } else {
      assert (steps + [step])[1..] == steps[1..] + [step];
      ApplyOneMore(Apply(doc, steps[0]), steps[1..], step);
    }
  }

  lemma {:induction false} ExactOneMore(doc: Document, steps: seq<HoistStep>, step: HoistStep)
    requires ExactSteps(doc, steps) && ExactStep(ApplyAll(doc, steps), step)
    ensures ExactSteps(doc, steps + [step])
    decreases |steps|
  {
    hide Apply, ExactStep;
    if steps == [] {
      assert steps + [step] == [step] && [step][1..] == [];
    } else {
      assert (steps + [step])[1..] == steps[1..] + [step];
      ExactOneMore(Apply(doc, steps[0]), steps[1..], step);
    }
  }

  lemma {:induction false} ShapeOneMore(doc: Document, steps: seq<HoistStep>, step: HoistStep)
    requires ShapeSteps(doc, steps) && ShapeStep(ApplyAll(doc, steps), step)
    ensures ShapeSteps(doc, steps + [step])
    decreases |steps|
  {
    hide Apply, ShapeStep;
    if steps == [] {
      assert steps + [step] == [step] && [step][1..] == [];
    } else {
      assert (steps + [step])[1..] == steps[1..] + [step];
      ShapeOneMore(Apply(doc, steps[0]), steps[1..], step);
    }
  }

  lemma {:induction false} NoneWrittenByShapes(doc: Document, shapes: seq<HoistStep>, enums: seq<HoistStep>)
    requires ShapeSteps(doc, shapes) && NamesApart(shapes + enums) && NoneWritten(doc, shapes + enums)
    ensures NoneWritten(ApplyAll(doc, shapes), enums)
    decreases |shapes|
  {
    hide Apply, ShapeStep, NoneWritten, NamesApart;
    if shapes == [] {
      assert shapes + enums == enums;
    } else {
      assert (shapes + enums)[1..] == shapes[1..] + enums;
      ShapeIsFromDocument(doc, shapes[0]);
      NoneWrittenStays(doc, shapes + enums);
      TailOf(shapes + enums);
      NoneWrittenByShapes(Apply(doc, shapes[0]), shapes[1..], enums);
    }
  }

  /** The round trip, asked of the original document and the run alone. */
  lemma HoistingGivesBack(doc: Document, shapes: seq<HoistStep>, enums: seq<HoistStep>)
    requires ShapeSteps(doc, shapes) && ExactSteps(ApplyAll(doc, shapes), enums)
    requires NamesApart(shapes + enums) && PlainNames(shapes) && NoOwnTitle(enums)
    requires NoneNamed(doc, shapes) && NoneWritten(doc, shapes + enums)
    ensures var hoisted := ApplyAll(ApplyAll(doc, shapes), enums);
            && Same(UndoAll(hoisted, shapes + enums), doc, DefinitionTitles(doc))
            && (shapes == [] ==> UndoAll(hoisted, enums) == doc)
  {
    hide *;
    NoneWrittenByShapes(doc, shapes, enums);
    HoistingUndone(doc, shapes, enums);
  }
}

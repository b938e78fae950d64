/** The groups that are hoisted and what is put in their places, told from the fields of the nodes.
    packages/client/utils/hoist-util.ts */
module SchemaGroups {
  import opened Options
  import opened Schemas
  import opened SchemaInline
  import opened SchemaTitles
  import opened SchemaRoundTrip
  import opened SchemaHoist
  import opened SchemaHoister
  import opened SchemaCollected
  import opened SchemaOwnTitles

  predicate Documents(key: string) {
    key == "description" || key == "example" || key == "examples" || key == "deprecated"
  }

  /** The content is the fields of a node but for those that document it. */
  ghost predicate SameStructure(fields: map<string, Json>, content: map<string, Json>) {
    && (forall k :: k in content ==> k in fields && !Documents(k) && fields[k] == content[k])
    && (forall k :: k in fields && !Documents(k) ==> k in content)
  }

  lemma StructureIs(fields: map<string, Json>, content: map<string, Json>)
    ensures Structure(fields) == content <==> SameStructure(fields, content)
  {
    assert forall k :: k in ANNOTATION_KEYS <==> Documents(k);
  }

  lemma GroupHolds(doc: Document, match_: Matcher, group: Json, o: Occurrence)
    ensures o in GroupOf(doc, match_, group) <==> Hit(group, o) in FoundIn(doc, match_)
  {
    hide FoundIn;
    assert Hit(group, o).occurrence == o;
  }

  // Enums

  ghost predicate IsEnumAt(root: Json, p: Place) {
    |p| >= 2 && ObjectAt(root, p) && !SchemaCollected.Names(root, p) &&
    "enum" in FieldsAt(root, p) && FieldsAt(root, p)["enum"].Arr?
  }

  /** An occurrence of an enum: a schema with a list of values and this structure, inside no other enum,
      with the title of its definition and the property it lies in. */
  ghost predicate EnumOccurs(doc: Document, content: map<string, Json>, o: Occurrence) {
    var root, p := Obj(doc), o.place;
    && IsEnumAt(root, p) && (forall n :: 2 <= n < |p| ==> !IsEnumAt(root, p[..n]))
    && SameStructure(FieldsAt(root, p), content)
    && o.property == PropertyAt(root, p) && o.owner == OwnerOf(doc[p[0].key], p[0].key)
  }

  lemma EnumAccepted(root: Json, p: Place)
    ensures Accepts(root, EnumMatcher(), p) <==> IsEnumAt(root, p)
  {
    hide SchemaCollected.Names;
  }

  lemma EnumMatches(fields: map<string, Json>, content: map<string, Json>)
    requires "enum" in fields && fields["enum"].Arr?
    ensures EnumMatcher()(fields) == Some(Obj(content)) <==> SameStructure(fields, content)
  {
    StructureIs(fields, content);
  }

  /** The group of an enum holds exactly its occurrences. */
  lemma EnumGroupExactly(doc: Document, content: map<string, Json>, o: Occurrence)
    ensures o in GroupOf(doc, EnumMatcher(), Obj(content)) <==> EnumOccurs(doc, content, o)
  {
    hide GroupOf, FoundIn, EnumMatcher, Accepts, IsEnumAt, PropertyAt, OwnerOf, SameStructure, SchemaCollected.Names;
    var root, p := Obj(doc), o.place;
    GroupHolds(doc, EnumMatcher(), Obj(content), o);
    CollectedExactly(doc, EnumMatcher(), Hit(Obj(content), o));
    EnumAccepted(root, p);
    forall n | 2 <= n < |p| ensures Accepts(root, EnumMatcher(), p[..n]) <==> IsEnumAt(root, p[..n]) {
      EnumAccepted(root, p[..n]);
    }
    if IsEnumAt(root, p) {
      EnumIsThere(root, p);
      EnumMatches(FieldsAt(root, p), content);
    }
  }

  lemma EnumIsThere(root: Json, p: Place)
    requires IsEnumAt(root, p)
    ensures |p| >= 2 && ObjectAt(root, p) && "enum" in FieldsAt(root, p) && FieldsAt(root, p)["enum"].Arr?
  {}

  // Shapes

  /** The trees are the same, but where references are to definitions of one title. */
  ghost predicate Alike(a: Json, b: Json, titles: Titles) {
    match a
    case Arr(items) =>
      b.Arr? && |items| == |b.items| && forall i :: 0 <= i < |items| ==> Alike(items[i], b.items[i], titles)
    case Obj(fields) =>
      b.Obj? && fields.Keys == b.fields.Keys && forall k :: k in fields ==>
        if k == "$ref" && fields[k].Str?
        then b.fields[k].Str? && SameTarget(fields[k].text, b.fields[k].text, titles)
        else Alike(fields[k], b.fields[k], titles) && !(k == "$ref" && b.fields[k].Str?)
    case _ => a == b
  }

  /** What a reference is to: the title of a definition, or the text itself where there is none. */
  ghost predicate SameTarget(r: string, q: string, titles: Titles) {
    ReferenceTitle(r, titles) == ReferenceTitle(q, titles)
  }

  /** Signatures decide whether two schemas are of one shape. */
  lemma {:induction false} SignatureDecides(a: Json, b: Json, titles: Titles)
    ensures Signature(a, titles) == Signature(b, titles) <==> Alike(a, b, titles)
  {
    match a
    case Arr(items) =>
      if b.Arr? && |items| == |b.items| {
        forall i | 0 <= i < |items|
          ensures Signature(items[i], titles) == Signature(b.items[i], titles) <==> Alike(items[i], b.items[i], titles)
        {
          SignatureDecides(items[i], b.items[i], titles);
        }
        ItemsDecide(items, b.items, titles);
      } else {
        SignatureKind(a, titles);
        SignatureKind(b, titles);
      }
    case Obj(fields) =>
      if b.Obj? && fields.Keys == b.fields.Keys {
        forall k | k in fields
          ensures Signature(fields[k], titles) == Signature(b.fields[k], titles) <==>
                  Alike(fields[k], b.fields[k], titles)
        {
          SignatureDecides(fields[k], b.fields[k], titles);
        }
        FieldsDecide(fields, b.fields, titles);
      } else {
        SignatureKind(a, titles);
        SignatureKind(b, titles);
      }
    case _ =>
      SignatureKind(b, titles);
  }

  lemma SignatureKind(j: Json, titles: Titles)
    ensures Signature(j, titles).Arr? <==> j.Arr?
    ensures Signature(j, titles).Obj? <==> j.Obj?
    ensures j.Arr? ==> |Signature(j, titles).items| == |j.items|
    ensures j.Obj? ==> Signature(j, titles).fields.Keys == j.fields.Keys
    ensures !j.Arr? && !j.Obj? ==> Signature(j, titles) == j
  {}

  lemma ItemsDecide(a: seq<Json>, b: seq<Json>, titles: Titles)
    requires |a| == |b|
    ensures Signature(Arr(a), titles) == Signature(Arr(b), titles) <==>
            forall i :: 0 <= i < |a| ==> Signature(a[i], titles) == Signature(b[i], titles)
  {
    var s, t := Signature(Arr(a), titles).items, Signature(Arr(b), titles).items;
    assert forall i :: 0 <= i < |a| ==> s[i] == Signature(a[i], titles) && t[i] == Signature(b[i], titles);
  }

  lemma FieldsDecide(a: map<string, Json>, b: map<string, Json>, titles: Titles)
    requires a.Keys == b.Keys
    ensures Signature(Obj(a), titles) == Signature(Obj(b), titles) <==>
            forall k :: k in a ==>
              if k == "$ref" && a[k].Str? then b[k].Str? && SameTarget(a[k].text, b[k].text, titles)
              else Signature(a[k], titles) == Signature(b[k], titles) && !(k == "$ref" && b[k].Str?)
  {
    hide Signature, ReferenceTitle;
    SignatureFields(a, titles);
    SignatureFields(b, titles);
    var s, t := SignatureOf(a, titles), SignatureOf(b, titles);
    forall k | k in a
      ensures s[k] == t[k] <==>
              if k == "$ref" && a[k].Str? then b[k].Str? && SameTarget(a[k].text, b[k].text, titles)
              else Signature(a[k], titles) == Signature(b[k], titles) && !(k == "$ref" && b[k].Str?)
    {
      if k == "$ref" && a[k].Str? != b[k].Str? {
        SignatureIsText(a[k], titles);
        SignatureIsText(b[k], titles);
      }
    }
    assert s == t <==> forall k :: k in a ==> s[k] == t[k];
  }

  lemma SignatureIsText(j: Json, titles: Titles)
    ensures Signature(j, titles).Str? <==> j.Str?
  {}

  /** A reference to a definition is resolved to its title, and one to anything else is left. */
  lemma ReferenceIs(key: string, titles: Titles)
    ensures ReferenceTitle("#/components/schemas/" + key, titles) ==
            if key in titles then titles[key] else "#/components/schemas/" + key
  {
    hide KeyOf;
    KeyOfReference(key);
    assert PREFIX + key == "#/components/schemas/" + key;
  }

  ghost predicate IsShapeAt(doc: Document, shape: Json, p: Place) {
    |p| >= 2 && ObjectAt(Obj(doc), p) && !SchemaCollected.Names(Obj(doc), p) &&
    exists content :: SameStructure(FieldsAt(Obj(doc), p), content) &&
                      Alike(Obj(content), shape, DefinitionTitles(doc))
  }

  /** An occurrence of a shape: a schema like it but for documentation, inside no other such schema. */
  ghost predicate ShapeOccurs(doc: Document, shape: Json, o: Occurrence) {
    var root, p := Obj(doc), o.place;
    && IsShapeAt(doc, shape, p) && (forall n :: 2 <= n < |p| ==> !IsShapeAt(doc, shape, p[..n]))
    && o.property == PropertyAt(root, p) && o.owner == OwnerOf(doc[p[0].key], p[0].key)
  }

  lemma ShapeMatches(doc: Document, name: string, shape: Json, fields: map<string, Json>)
    ensures ShapeMatcherOf(doc, name, shape)(fields).Some? <==>
            exists content :: SameStructure(fields, content) && Alike(Obj(content), shape, DefinitionTitles(doc))
    ensures ShapeMatcherOf(doc, name, shape)(fields).Some? ==>
              ShapeMatcherOf(doc, name, shape)(fields) == Some(Str(name))
  {
    hide Signature, Alike;
    StructureIs(fields, Structure(fields));
    SignatureDecides(Obj(Structure(fields)), shape, DefinitionTitles(doc));
    forall content | SameStructure(fields, content) ensures content == Structure(fields) {
      StructureIs(fields, content);
    }
  }

  lemma ShapeAccepted(doc: Document, name: string, shape: Json, p: Place)
    ensures Accepts(Obj(doc), ShapeMatcherOf(doc, name, shape), p) <==> IsShapeAt(doc, shape, p)
  {
    hide SchemaCollected.Names, ShapeMatcherOf, Alike, At, SameStructure;
    if |p| >= 2 && ObjectAt(Obj(doc), p) {
      ShapeMatches(doc, name, shape, FieldsAt(Obj(doc), p));
    }
  }

  /** The group of a shape holds exactly its occurrences. */
  lemma ShapeGroupExactly(doc: Document, name: string, shape: Json, o: Occurrence)
    ensures o in GroupOf(doc, ShapeMatcherOf(doc, name, shape), Str(name)) <==> ShapeOccurs(doc, shape, o)
  {
    hide GroupOf, FoundIn, ShapeMatcherOf, Accepts, IsShapeAt, PropertyAt, OwnerOf, SchemaCollected.Names;
    var root, p, match_ := Obj(doc), o.place, ShapeMatcherOf(doc, name, shape);
    GroupHolds(doc, match_, Str(name), o);
    CollectedExactly(doc, match_, Hit(Str(name), o));
    ShapeAccepted(doc, name, shape, p);
    forall n | 2 <= n < |p| ensures Accepts(root, match_, p[..n]) <==> IsShapeAt(doc, shape, p[..n]) {
      ShapeAccepted(doc, name, shape, p[..n]);
    }
    if IsShapeAt(doc, shape, p) {
      ShapeIsThere(doc, shape, p);
      ShapeMatches(doc, name, shape, FieldsAt(root, p));
      AcceptedMatches(root, match_, p);
    }
  }

  lemma ShapeIsThere(doc: Document, shape: Json, p: Place)
    requires IsShapeAt(doc, shape, p)
    ensures |p| >= 2 && ObjectAt(Obj(doc), p)
  {}

  lemma AcceptedMatches(root: Json, match_: Matcher, p: Place)
    requires Accepts(root, match_, p)
    ensures ObjectAt(root, p) && match_(FieldsAt(root, p)).Some?
  {}

  // What a hoisting writes

  /** A reference to the definition that keeps the documentation of the node it stands for. */
  ghost predicate RefersFor(node: map<string, Json>, name: string, fields: map<string, Json>) {
    && (forall k :: k in node <==> k == "$ref" || (k in fields && Documents(k)))
    && node["$ref"] == Str("#/components/schemas/" + name)
    && (forall k :: k in fields && Documents(k) ==> node[k] == fields[k])
  }

  /** The content under the name as title, unless it has a title of its own. */
  ghost predicate Defines(definition: Json, name: string, content: map<string, Json>) {
    && definition.Obj? && definition.fields.Keys == content.Keys + {"title"}
    && (forall k :: k in content ==> definition.fields[k] == content[k])
    && ("title" !in content ==> definition.fields["title"] == Str(name))
  }

  lemma {:induction false} PutAt(j: Json, places: set<Place>, name: string, p: Place)
    requires p in places && Antichain(places) && ObjectAt(j, p)
    ensures At(Put(j, places, name), p) == Some(Referring(FieldsAt(j, p), name))
    decreases |p|
  {
    if p == [] {
      PutHere(j, places, name);
    } else {
      assert [] !in places by {
        assert forall q :: q in places && q != p ==> Apart(q, p);
        assert !Apart([], p);
      }
      hide Put;
      PutKeepsSteps(j, places, name);
      BelowHolds(places, p[0], p[1..]);
      assert [p[0]] + p[1..] == p;
      BelowAntichain(places, p[0]);
      PutAt(Child(j, p[0]), Below(places, p[0]), name, p[1..]);
    }
  }

  lemma PutHere(j: Json, places: set<Place>, name: string)
    requires [] in places && j.Obj?
    ensures At(Put(j, places, name), []) == Some(Referring(j.fields, name)) && FieldsAt(j, []) == j.fields
  {}

  lemma ReferringIs(fields: map<string, Json>, name: string)
    ensures Referring(fields, name).Obj? && RefersFor(Referring(fields, name).fields, name, fields)
  {
    assert forall k :: k in ANNOTATION_KEYS <==> Documents(k);
  }

  /** A hoisting defines the content under the new name, puts a reference that keeps the documentation in
      every place, and leaves every node apart from these places as it is. */
  lemma HoistedExactly(doc: Document, step: HoistStep)
    requires step.name !in doc && Nodes(doc, step.places) && Antichain(step.places)
    requires forall p: Place :: p in step.places ==> p[0].Key? && p[0].key in doc
    ensures Apply(doc, step).Keys == doc.Keys + {step.name}
    ensures Defines(Apply(doc, step)[step.name], step.name, step.content)
    ensures forall p: Place :: p in step.places ==>
              ObjectAt(Obj(Apply(doc, step)), p) &&
              RefersFor(FieldsAt(Obj(Apply(doc, step)), p), step.name, FieldsAt(Obj(doc), p))
    ensures forall p: Place :: |p| >= 2 && ObjectAt(Obj(doc), p) && (forall q :: q in step.places ==> Apart(p, q)) ==>
              At(Obj(Apply(doc, step)), p) == At(Obj(doc), p)
  {
    hide Put, At, RefersFor, Referring, Antichain, Apart, Apply;
    Applied(doc, step);
    forall p: Place | p in step.places
      ensures ObjectAt(Obj(Apply(doc, step)), p) &&
              RefersFor(FieldsAt(Obj(Apply(doc, step)), p), step.name, FieldsAt(Obj(doc), p))
    {
      NodeIsThere(doc, step.places, p);
      AppliedAt(doc, step, p);
      ReferringIs(FieldsAt(Obj(doc), p), step.name);
    }
    forall p: Place | |p| >= 2 && ObjectAt(Obj(doc), p) && (forall q :: q in step.places ==> Apart(p, q))
      ensures At(Obj(Apply(doc, step)), p) == At(Obj(doc), p)
    {
      FirstIsKey(doc, p);
      ElsewhereStays(doc, step, p);
    }
  }

  lemma NodeIsThere(doc: Document, places: set<Place>, p: Place)
    requires Nodes(doc, places) && p in places
    ensures |p| >= 2 && ObjectAt(Obj(doc), p)
  {}

  lemma FirstIsKey(doc: Document, p: Place)
    requires |p| >= 2 && ObjectAt(Obj(doc), p)
    ensures p[0].Key? && p[0].key in doc
  {}

  lemma AppliedAt(doc: Document, step: HoistStep, p: Place)
    requires step.name !in doc && Nodes(doc, step.places) && Antichain(step.places)
    requires p in step.places && p[0].Key? && p[0].key in doc
    ensures ObjectAt(Obj(doc), p) && At(Obj(Apply(doc, step)), p) == Some(Referring(FieldsAt(Obj(doc), p), step.name))
  {
    hide Antichain, Put, Referring;
    PutAt(Obj(doc), step.places, step.name, p);
    assert [] !in step.places;
    PutKind(Obj(doc), step.places, step.name);
  }
}

/** Inlining a hoisted definition again, and what that gives back. */
module SchemaInline {
  import opened Options
  import opened Schemas

  type Document = map<string, Json>

  /** The text of every reference in a tree. */
  function Refs(j: Json): set<string> {
    match j
    case Arr(items) => set i, r | 0 <= i < |items| && r in Refs(items[i]) :: r
    case Obj(fields) =>
      (if "$ref" in fields && fields["$ref"].Str? then {fields["$ref"].text} else {}) +
      set k, r | k in fields && r in Refs(fields[k]) :: r
    case _ => {}
  }

  ghost predicate Refers(fields: map<string, Json>, target: string) {
    "$ref" in fields && fields["$ref"] == Str(target)
  }

  /** Every node referring to the target replaced by its annotations and the given body. */
  ghost function Inline(j: Json, target: string, body: map<string, Json>): Json {
    match j
    case Arr(items) => Arr(seq(|items|, i requires 0 <= i < |items| => Inline(items[i], target, body)))
    case Obj(fields) =>
      if Refers(fields, target) then Obj(Annotations(fields) + body)
      else Obj(map k | k in fields :: Inline(fields[k], target, body))
    case _ => j
  }

  /** One hoisting: the places a definition is hoisted out of, and the structure they share. */
  datatype HoistStep = HoistStep(name: string, places: set<Place>, content: map<string, Json>)

  function Definition(name: string, content: map<string, Json>): Json {
    Obj(map["title" := Str(name)] + content)
  }

  ghost function Apply(doc: Document, step: HoistStep): Document {
    if Put(Obj(doc), step.places, step.name).Obj? then
      Put(Obj(doc), step.places, step.name).fields[step.name := Definition(step.name, step.content)]
    else doc
  }

  /** The body of a definition without the title its hoisting adds. */
  ghost function Body(definition: Json, name: string): map<string, Json> {
    if !definition.Obj? then map[]
    else if "title" in definition.fields && definition.fields["title"] == Str(name)
    then definition.fields - {"title"}
    else definition.fields
  }

  ghost function Undo(doc: Document, name: string): Document {
    map k | k in doc && k != name :: Inline(doc[k], PREFIX + name, if name in doc then Body(doc[name], name) else map[])
  }

  ghost predicate Nodes(doc: Document, places: set<Place>) {
    forall p :: p in places ==> |p| >= 2 && ObjectAt(Obj(doc), p)
  }

  ghost function FieldsAt(j: Json, p: Place): map<string, Json>
    requires ObjectAt(j, p)
  {
    At(j, p).value.fields
  }

  /** A step hoisting nodes of one and the same structure. */
  ghost predicate ExactStep(doc: Document, step: HoistStep) {
    && step.name !in doc && step.places != {} && Nodes(doc, step.places)
    && forall p :: p in step.places ==> Structure(FieldsAt(Obj(doc), p)) == step.content
  }

  lemma PlacesBelow(j: Json, places: set<Place>, s: Step, q: Place)
    requires s in Steps(j) && q in Below(places, s)
    ensures [s] + q in places && At(j, [s] + q) == At(Child(j, s), q)
  {
    BelowHolds(places, s, q);
    assert ([s] + q)[1..] == q;
  }

  lemma AnnotationsAndStructure(fields: map<string, Json>)
    ensures Annotations(fields) + Structure(fields) == fields
  {}

  lemma ReferringInlines(fields: map<string, Json>, name: string, body: map<string, Json>)
    ensures Inline(Referring(fields, name), PREFIX + name, body) == Obj(Annotations(fields) + body)
  {
    var left := Annotations(fields)["$ref" := Str(PREFIX + name)];
    assert Refers(left, PREFIX + name);
    assert Annotations(left) == Annotations(fields);
  }

  lemma {:induction false} InlinePut(j: Json, places: set<Place>, name: string, body: map<string, Json>)
    requires PREFIX + name !in Refs(j)
    requires forall p :: p in places ==> ObjectAt(j, p) && Structure(FieldsAt(j, p)) == body
    ensures Inline(Put(j, places, name), PREFIX + name, body) == j
  {
    if [] in places {
      ReferringInlines(j.fields, name, body);
      AnnotationsAndStructure(j.fields);
    } else {
      forall s | s in Steps(j)
        ensures Inline(Put(Child(j, s), Below(places, s), name), PREFIX + name, body) == Child(j, s)
      {
        forall q | q in Below(places, s)
          ensures ObjectAt(Child(j, s), q) && Structure(FieldsAt(Child(j, s), q)) == body
        {
          PlacesBelow(j, places, s, q);
        }
        RefsOfChild(j, s);
        InlinePut(Child(j, s), Below(places, s), name, body);
      }
      if j.Arr? {
        InlineItems(j.items, places, name, body);
      } else if j.Obj? {
        InlineFields(j.fields, places, name, body);
      }
    }
  }

  lemma RefsOfChild(j: Json, s: Step)
    requires s in Steps(j)
    ensures Refs(Child(j, s)) <= Refs(j)
  {}

  lemma InlineObject(fields: map<string, Json>, target: string, body: map<string, Json>)
    requires !Refers(fields, target)
    ensures Inline(Obj(fields), target, body) == Obj(map k | k in fields :: Inline(fields[k], target, body))
  {}

  lemma InlineReferring(fields: map<string, Json>, target: string, body: map<string, Json>)
    requires Refers(fields, target)
    ensures Inline(Obj(fields), target, body) == Obj(Annotations(fields) + body)
  {}

  lemma InlineItems(items: seq<Json>, places: set<Place>, name: string, body: map<string, Json>)
    requires forall s :: s in Steps(Arr(items)) ==>
               Inline(Put(Child(Arr(items), s), Below(places, s), name), PREFIX + name, body) == Child(Arr(items), s)
    ensures Inline(Put(Arr(items), places, name), PREFIX + name, body) == Arr(items)
  {
    var inlined := Inline(Put(Arr(items), places, name), PREFIX + name, body).items;
    forall i | 0 <= i < |items| ensures inlined[i] == items[i] {
      assert Index(i) in Steps(Arr(items));
      assert Child(Arr(items), Index(i)) == items[i];
    }
    assert inlined == items;
  }

  lemma InlineFields(fields: map<string, Json>, places: set<Place>, name: string, body: map<string, Json>)
    requires [] !in places && !Refers(fields, PREFIX + name)
    requires forall s :: s in Steps(Obj(fields)) ==>
               Inline(Put(Child(Obj(fields), s), Below(places, s), name), PREFIX + name, body) == Child(Obj(fields), s)
    ensures Inline(Put(Obj(fields), places, name), PREFIX + name, body) == Obj(fields)
  {
    hide Inline, Put, Below, Refers, Steps, Child;
    PutFields(fields, places, name);
    PutRefers(fields, places, name);
    var put := Put(Obj(fields), places, name).fields;
    InlineObject(put, PREFIX + name, body);
    var inlined := map k | k in put :: Inline(put[k], PREFIX + name, body);
    forall k | k in fields ensures inlined[k] == fields[k] {
      FieldStep(fields, k);
    }
    assert Inline(Obj(put), PREFIX + name, body).fields == inlined;
    assert inlined == fields;
  }

  lemma FieldStep(fields: map<string, Json>, k: string)
    requires k in fields
    ensures Key(k) in Steps(Obj(fields)) && Child(Obj(fields), Key(k)) == fields[k]
  {}

  lemma PutFields(fields: map<string, Json>, places: set<Place>, name: string)
    requires [] !in places
    ensures Put(Obj(fields), places, name).Obj? && Put(Obj(fields), places, name).fields.Keys == fields.Keys
    ensures forall k :: k in fields ==>
              Put(Obj(fields), places, name).fields[k] == Put(fields[k], Below(places, Key(k)), name)
  {}

  lemma PutRefers(fields: map<string, Json>, places: set<Place>, name: string)
    requires [] !in places && !Refers(fields, PREFIX + name)
    ensures Put(Obj(fields), places, name).Obj? && !Refers(Put(Obj(fields), places, name).fields, PREFIX + name)
  {}

  /** What hoisting leaves of a definition that was there before. */
  lemma Applied(doc: Document, step: HoistStep)
    requires Nodes(doc, step.places)
    ensures Apply(doc, step).Keys == doc.Keys + {step.name}
    ensures Apply(doc, step)[step.name] == Definition(step.name, step.content)
    ensures forall k :: k in doc && k != step.name ==>
              Apply(doc, step)[k] == Put(doc[k], Below(step.places, Key(k)), step.name)
  {
    assert [] !in step.places;
  }

  lemma BodyOfDefinition(name: string, content: map<string, Json>)
    requires "title" !in content || content["title"] != Str(name)
    ensures Body(Definition(name, content), name) == content
  {
    if "title" !in content {
      assert (map["title" := Str(name)] + content) - {"title"} == content;
    } else {
      assert map["title" := Str(name)] + content == content;
    }
  }

  lemma NodesBelow(doc: Document, places: set<Place>, k: string)
    requires Nodes(doc, places) && k in doc
    ensures forall q :: q in Below(places, Key(k)) ==> q != [] && ObjectAt(doc[k], q)
  {
    forall q | q in Below(places, Key(k)) ensures q != [] && ObjectAt(doc[k], q) {
      assert Key(k) in Steps(Obj(doc)) && Child(Obj(doc), Key(k)) == doc[k];
      PlacesBelow(Obj(doc), places, Key(k), q);
    }
  }

  lemma StructureBelow(doc: Document, step: HoistStep, k: string)
    requires ExactStep(doc, step) && k in doc
    ensures forall q :: q in Below(step.places, Key(k)) ==>
              ObjectAt(doc[k], q) && Structure(FieldsAt(doc[k], q)) == step.content
  {
    NodesBelow(doc, step.places, k);
    forall q | q in Below(step.places, Key(k))
      ensures ObjectAt(doc[k], q) && Structure(FieldsAt(doc[k], q)) == step.content
    {
      assert Key(k) in Steps(Obj(doc)) && Child(Obj(doc), Key(k)) == doc[k];
      PlacesBelow(Obj(doc), step.places, Key(k), q);
    }
  }

  lemma UndoneDefinition(doc: Document, name: string)
    requires name in doc
    ensures Undo(doc, name).Keys == doc.Keys - {name}
    ensures forall k :: k in doc && k != name ==>
            Undo(doc, name)[k] == Inline(doc[k], PREFIX + name, Body(doc[name], name))
  {}

  /** Inlining a definition hoisted out of equal structures gives back the document, in every definition. */
  lemma UndoGivesBack(doc: Document, step: HoistStep)
    requires ExactStep(doc, step)
    requires "title" !in step.content || step.content["title"] != Str(step.name)
    requires forall k :: k in doc ==> PREFIX + step.name !in Refs(doc[k])
    ensures Undo(Apply(doc, step), step.name) == doc
  {
    hide Apply, Undo, Body, Inline, Put, Below, Refs, Definition;
    Applied(doc, step);
    BodyOfDefinition(step.name, step.content);
    UndoneDefinition(Apply(doc, step), step.name);
    var undone := Undo(Apply(doc, step), step.name);
    assert undone.Keys == doc.Keys;
    forall k | k in doc ensures undone[k] == doc[k] {
      StructureBelow(doc, step, k);
      InlinePut(doc[k], Below(step.places, Key(k)), step.name, step.content);
    }
  }

  lemma PutRefersNowhereNew(j: Json, places: set<Place>, name: string)
    requires [] !in places && PREFIX + name !in Refs(j)
    ensures Put(j, places, name).Obj? ==> !Refers(Put(j, places, name).fields, PREFIX + name)
  {}

  lemma AtStep(j: Json, p: Place)
    requires p != [] && p[0] in Steps(j)
    ensures At(j, p) == At(Child(j, p[0]), p[1..])
  {}

  lemma {:induction false} InlinePutAt(j: Json, places: set<Place>, p: Place, name: string, body: map<string, Json>)
    requires p in places && Antichain(places) && ObjectAt(j, p)
    requires PREFIX + name !in Refs(j)
    ensures At(Inline(Put(j, places, name), PREFIX + name, body), p) == Some(Obj(Annotations(FieldsAt(j, p)) + body))
    decreases |p|
  {
    if p == [] {
      ReferringInlines(j.fields, name, body);
    } else {
      InlinePutBelow(j, places, p, name, body);
    }
  }

  lemma {:induction false} InlinePutBelow(j: Json, places: set<Place>, p: Place, name: string, body: map<string, Json>)
    requires p != [] && p in places && Antichain(places) && ObjectAt(j, p)
    requires PREFIX + name !in Refs(j)
    ensures At(Inline(Put(j, places, name), PREFIX + name, body), p) == Some(Obj(Annotations(FieldsAt(j, p)) + body))
    decreases |p|, 0
  {
    var s := p[0];
    assert [] in places ==> [] <= p;
    assert [] !in places && s in Steps(j);
    hide Put, Inline, Refs, Below, Annotations, Refers, Antichain, Apart, At, Steps, Child;
    AtStep(j, p);
    BelowHolds(places, s, p[1..]);
    assert p == [s] + p[1..];
    BelowAntichain(places, s);
    RefsOfChild(j, s);
    InlinePutAt(Child(j, s), Below(places, s), p[1..], name, body);
    PutKeepsSteps(j, places, name);
    PutRefersNowhereNew(j, places, name);
    InlineKeepsStep(Put(j, places, name), s, PREFIX + name, body);
    AtStep(Inline(Put(j, places, name), PREFIX + name, body), p);
  }

  lemma InlineKeepsStep(j: Json, s: Step, target: string, body: map<string, Json>)
    requires s in Steps(j) && (j.Obj? ==> !Refers(j.fields, target))
    ensures s in Steps(Inline(j, target, body)) &&
            Child(Inline(j, target, body), s) == Inline(Child(j, s), target, body)
  {}

  /** A node whose own title is the name it is hoisted under cannot be told from one the hoisting
      titled, so inlining loses that title: this is the only document that is not given back. */
  lemma OwnTitleIsLost(doc: Document, step: HoistStep)
    requires ExactStep(doc, step) && Antichain(step.places)
    requires forall k :: k in doc ==> PREFIX + step.name !in Refs(doc[k])
    ensures Undo(Apply(doc, step), step.name) == doc <==>
            ("title" !in step.content || step.content["title"] != Str(step.name))
  {
    if "title" !in step.content || step.content["title"] != Str(step.name) {
      UndoGivesBack(doc, step);
    } else {
      var p :| p in step.places;
      LosesTitle(doc, step, p);
    }
  }

  lemma UndoneNode(doc: Document, step: HoistStep, p: Place, body: map<string, Json>)
    requires ExactStep(doc, step) && Antichain(step.places) && p in step.places && p[0].Key? && p[0].key in doc
    requires forall k :: k in doc ==> PREFIX + step.name !in Refs(doc[k])
    requires body == Body(Definition(step.name, step.content), step.name)
    ensures At(doc[p[0].key], p[1..]) == At(Obj(doc), p)
    ensures At(Undo(Apply(doc, step), step.name)[p[0].key], p[1..]) ==
            Some(Obj(Annotations(FieldsAt(Obj(doc), p)) + body))
  {
    var k := p[0].key;
    assert Key(k) in Steps(Obj(doc)) && Child(Obj(doc), Key(k)) == doc[k];
    hide Put, Inline, Refs, Below, Annotations, Apply, Undo, Body, Definition, Structure;
    AtStep(Obj(doc), p);
    BelowHolds(step.places, Key(k), p[1..]);
    assert p == [Key(k)] + p[1..];
    BelowAntichain(step.places, Key(k));
    Applied(doc, step);
    UndoneDefinition(Apply(doc, step), step.name);
    InlinePutAt(doc[k], Below(step.places, Key(k)), p[1..], step.name, body);
  }

  lemma LosesTitle(doc: Document, step: HoistStep, p: Place)
    requires ExactStep(doc, step) && Antichain(step.places) && p in step.places
    requires forall k :: k in doc ==> PREFIX + step.name !in Refs(doc[k])
    requires "title" in step.content && step.content["title"] == Str(step.name)
    ensures Undo(Apply(doc, step), step.name) != doc
  {
    hide Undo, Apply, Refs;
    var body := step.content - {"title"};
    assert Body(Definition(step.name, step.content), step.name) == body;
    UndoneNode(doc, step, p, body);
    assert "title" !in Annotations(FieldsAt(Obj(doc), p)) + body;
    assert "title" in Structure(FieldsAt(Obj(doc), p));
  }
}

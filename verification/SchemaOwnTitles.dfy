/** What a run of hoistings of equal structures loses: the titles that nodes have of the name they are
    hoisted under. packages/client/utils/hoist-util.ts */
module SchemaOwnTitles {
  import opened Options
  import opened Schemas
  import opened SchemaInline
  import opened SchemaTitles
  import opened SchemaRoundTrip

  /** The tree without the titles of the nodes at a set of places. */
  function Strip(j: Json, places: set<Place>): Json {
    if [] in places && j.Obj? then Obj(j.fields - {"title"})
    else
      match j
      case Arr(items) => Arr(seq(|items|, i requires 0 <= i < |items| => Strip(items[i], Below(places, Index(i)))))
      case Obj(fields) => Obj(map k | k in fields :: Strip(fields[k], Below(places, Key(k))))
      case _ => j
  }

  lemma {:induction false} StripNowhere(j: Json)
    ensures Strip(j, {}) == j
  {
    match j
    case Arr(items) =>
      forall i | 0 <= i < |items| ensures Strip(items[i], Below({}, Index(i))) == items[i] {
        NothingBelow(Index(i));
        StripNowhere(items[i]);
      }
      assert Strip(j, {}).items == items;
    case Obj(fields) =>
      forall k | k in fields ensures Strip(fields[k], Below({}, Key(k))) == fields[k] {
        NothingBelow(Key(k));
        StripNowhere(fields[k]);
      }
      assert Strip(j, {}).fields == fields;
    case _ =>
  }

  lemma StripKeepsSteps(j: Json, places: set<Place>)
    requires [] !in places || !j.Obj?
    ensures Steps(Strip(j, places)) == Steps(j)
    ensures forall s :: s in Steps(j) ==> Child(Strip(j, places), s) == Strip(Child(j, s), Below(places, s))
    ensures j.Obj? <==> Strip(j, places).Obj?
    ensures j.Arr? <==> Strip(j, places).Arr?
    ensures !j.Obj? && !j.Arr? ==> Strip(j, places) == j
  {
    forall s | s in Steps(j)
      ensures s in Steps(Strip(j, places))
      ensures Child(Strip(j, places), s) == Strip(Child(j, s), Below(places, s))
    {}
  }

  lemma {:induction false} InlineNowhere(j: Json, target: string, body: map<string, Json>)
    requires target !in Refs(j)
    ensures Inline(j, target, body) == j
  {
    match j
    case Arr(items) =>
      forall i | 0 <= i < |items| ensures Inline(items[i], target, body) == items[i] {
        RefsOfItem(items, i);
        InlineNowhere(items[i], target, body);
      }
      assert Inline(j, target, body).items == items;
    case Obj(fields) =>
      forall k | k in fields ensures Inline(fields[k], target, body) == fields[k] {
        RefsOfField(fields, k);
        InlineNowhere(fields[k], target, body);
      }
      InlineObject(fields, target, body);
      assert Inline(j, target, body).fields == fields;
    case _ =>
  }

  lemma BelowBoth(a: set<Place>, b: set<Place>, s: Step)
    ensures Below(a + b, s) == Below(a, s) + Below(b, s)
  {
    forall q ensures q in Below(a + b, s) <==> q in Below(a, s) + Below(b, s) {
      BelowHolds(a + b, s, q);
      BelowHolds(a, s, q);
      BelowHolds(b, s, q);
    }
  }

  ghost predicate AllApart(a: set<Place>, b: set<Place>) {
    forall p, q :: p in a && q in b ==> Apart(p, q)
  }

  lemma BelowApart(a: set<Place>, b: set<Place>, s: Step)
    requires AllApart(a, b)
    ensures AllApart(Below(a, s), Below(b, s))
  {
    forall p, q | p in Below(a, s) && q in Below(b, s) ensures Apart(p, q) {
      BelowHolds(a, s, p);
      BelowHolds(b, s, q);
      assert ([s] + p)[1..] == p && ([s] + q)[1..] == q;
      ApartTails([s] + p, [s] + q);
    }
  }

  /** The body inlined for a node of this content: without the title if that is the hoisted name. */
  function InlinedBody(content: map<string, Json>, own: bool): map<string, Json> {
    if own then content - {"title"} else content
  }

  lemma OwnNode(fields: map<string, Json>, own: bool)
    ensures Annotations(fields) + InlinedBody(Structure(fields), own) == if own then fields - {"title"} else fields
  {}

  /** Nodes hoisted, others stripped, and the hoisted ones inlined again: they are all that is stripped
      if their title is their own name, and else they are as before. */
  lemma {:induction false} InlineStripped(j: Json, hoisted: set<Place>, stripped: set<Place>, name: string,
                                          content: map<string, Json>, own: bool)
    requires PREFIX + name !in Refs(j) && AllApart(hoisted, stripped)
    requires forall p :: p in hoisted ==> ObjectAt(j, p) && Structure(FieldsAt(j, p)) == content
    ensures Inline(Strip(Put(j, hoisted, name), stripped), PREFIX + name, InlinedBody(content, own)) ==
            Strip(j, stripped + if own then hoisted else {})
    decreases j, 1
  {
    hide Put, Inline, Strip, Refs, Below, Steps, Child, At, InlinedBody, Structure;
    var body := InlinedBody(content, own);
    if [] in hoisted {
      AtHere(j);
      assert content == Structure(FieldsAt(j, []));
      InlineStrippedNode(j, hoisted, stripped, name, own);
    } else if [] in stripped && j.Obj? {
      ApartFromAll(hoisted, []);
      PutNowhere(j, name);
      InlineStrippedHere(j, stripped, name, body);
    } else if j.Obj? || j.Arr? {
      InlineStrippedBelow(j, hoisted, stripped, name, content, own);
    } else {
      InlineStrippedLeaf(j, hoisted, stripped, name, content, own);
    }
  }

  lemma InlineStrippedNode(j: Json, hoisted: set<Place>, stripped: set<Place>, name: string, own: bool)
    requires [] in hoisted && AllApart(hoisted, stripped) && j.Obj?
    ensures Inline(Strip(Put(j, hoisted, name), stripped), PREFIX + name, InlinedBody(Structure(j.fields), own)) ==
            Strip(j, stripped + if own then hoisted else {})
  {
    hide Inline, InlinedBody, Structure, Annotations, Put, Strip, Referring;
    ApartFromAll(stripped, []);
    StrippedHere(j, hoisted, name);
    StripNowhere(Referring(j.fields, name));
    StripNowhere(j);
    ReferringInlines(j.fields, name, InlinedBody(Structure(j.fields), own));
    OwnNode(j.fields, own);
    assert stripped + hoisted == hoisted && stripped + {} == {};
  }

  lemma StrippedHere(j: Json, places: set<Place>, name: string)
    requires [] in places && j.Obj?
    ensures Strip(j, places) == Obj(j.fields - {"title"}) && Put(j, places, name) == Referring(j.fields, name)
  {}

  lemma AtHere(j: Json)
    ensures At(j, []) == Some(j)
  {}

  lemma InlineStrippedHere(j: Json, stripped: set<Place>, name: string, body: map<string, Json>)
    requires [] in stripped && j.Obj? && PREFIX + name !in Refs(j)
    ensures Inline(Strip(j, stripped), PREFIX + name, body) == Strip(j, stripped + {})
  {
    hide Inline;
    var less := j.fields - {"title"};
    assert PREFIX + name !in Refs(Obj(less)) by { RefsOfPart(less, j.fields); }
    InlineNowhere(Obj(less), PREFIX + name, body);
  }

  lemma InlineStrippedLeaf(j: Json, hoisted: set<Place>, stripped: set<Place>, name: string, content: map<string, Json>,
                           own: bool)
    requires !j.Obj? && !j.Arr?
    ensures Inline(Strip(Put(j, hoisted, name), stripped), PREFIX + name, InlinedBody(content, own)) ==
            Strip(j, stripped + if own then hoisted else {})
  {}

  lemma {:induction false} InlineStrippedBelow(j: Json, hoisted: set<Place>, stripped: set<Place>, name: string,
                                               content: map<string, Json>, own: bool)
    requires PREFIX + name !in Refs(j) && AllApart(hoisted, stripped) && (j.Obj? || j.Arr?)
    requires [] !in hoisted && ([] !in stripped || !j.Obj?)
    requires forall p :: p in hoisted ==> ObjectAt(j, p) && Structure(FieldsAt(j, p)) == content
    ensures Inline(Strip(Put(j, hoisted, name), stripped), PREFIX + name, InlinedBody(content, own)) ==
            Strip(j, stripped + if own then hoisted else {})
    decreases j, 0
  {
    hide Put, Inline, Strip, Refs, Below, Steps, Child, At, InlinedBody, Structure;
    var all := stripped + if own then hoisted else {};
    var put := Put(j, hoisted, name);
    var body := InlinedBody(content, own);
    var left := Strip(put, stripped);
    PutKeepsSteps(j, hoisted, name);
    PutKind(j, hoisted, name);
    StripKeepsSteps(put, stripped);
    StripKeepsSteps(j, all);
    StripRefers(j, hoisted, stripped, name);
    forall s | s in Steps(j)
      ensures s in Steps(Inline(left, PREFIX + name, body)) &&
              Child(Inline(left, PREFIX + name, body), s) == Child(Strip(j, all), s)
    {
      forall q | q in Below(hoisted, s)
        ensures ObjectAt(Child(j, s), q) && Structure(FieldsAt(Child(j, s), q)) == content
      {
        PlacesBelow(j, hoisted, s, q);
      }
      RefsOfChild(j, s);
      BelowApart(hoisted, stripped, s);
      BelowBoth(stripped, if own then hoisted else {}, s);
      NothingBelow(s);
      ChildIsSmaller(j, s);
      InlineStripped(Child(j, s), Below(hoisted, s), Below(stripped, s), name, content, own);
      InlineKeepsStep(left, s, PREFIX + name, body);
    }
    InlineKind(left, PREFIX + name, body);
    ChildrenDecide(Inline(left, PREFIX + name, body), Strip(j, all), j);
  }

  lemma ChildIsSmaller(j: Json, s: Step)
    requires s in Steps(j)
    ensures Child(j, s) < j
  {}

  lemma PutKind(j: Json, places: set<Place>, name: string)
    requires [] !in places
    ensures (j.Obj? <==> Put(j, places, name).Obj?) && (j.Arr? <==> Put(j, places, name).Arr?)
  {}

  lemma InlineKind(j: Json, target: string, body: map<string, Json>)
    requires (j.Obj? && !Refers(j.fields, target)) || j.Arr?
    ensures Steps(Inline(j, target, body)) == Steps(j)
    ensures (j.Obj? <==> Inline(j, target, body).Obj?) && (j.Arr? <==> Inline(j, target, body).Arr?)
  {}

  lemma StripRefers(j: Json, hoisted: set<Place>, stripped: set<Place>, name: string)
    requires [] !in hoisted && ([] !in stripped || !j.Obj?) && PREFIX + name !in Refs(j)
    ensures
      var left := Strip(Put(j, hoisted, name), stripped);
      left.Obj? ==> !Refers(left.fields, PREFIX + name)
  {
    if j.Obj? && "$ref" in j.fields {
      assert j.fields["$ref"].Str? ==> j.fields["$ref"].text in Refs(j);
    }
  }

  // A run of hoistings at places apart

  /** A node apart from the hoisted ones is left as it was. */
  lemma ElsewhereStays(doc: Document, step: HoistStep, p: Place)
    requires step.name !in doc && Nodes(doc, step.places)
    requires forall q :: q in step.places ==> Apart(p, q)
    requires |p| >= 2 && ObjectAt(Obj(doc), p) && p[0].Key? && p[0].key in doc
    ensures At(Obj(Apply(doc, step)), p) == At(Obj(doc), p)
  {
    hide Put, Write;
    PutElsewhere(Obj(doc), step.places, p, step.name);
    assert [] !in step.places;
    var put := Put(Obj(doc), step.places, step.name);
    StepStays(doc, step, p[0]);
    AtStep(Obj(Apply(doc, step)), p);
    AtStep(put, p);
  }

  lemma StepStays(doc: Document, step: HoistStep, s: Step)
    requires Nodes(doc, step.places) && s.Key? && s.key in doc && s.key != step.name
    ensures s in Steps(Obj(Apply(doc, step))) && s in Steps(Put(Obj(doc), step.places, step.name))
    ensures Child(Obj(Apply(doc, step)), s) == Child(Put(Obj(doc), step.places, step.name), s)
  {
    assert [] !in step.places;
  }

  predicate HasOwnTitle(step: HoistStep) {
    "title" in step.content && step.content["title"] == Str(step.name)
  }

  /** New names, and places of equal structure in the document, none of them inside another. */
  ghost predicate ExactRun(doc: Document, steps: seq<HoistStep>) {
    && NamesApart(steps)
    && (forall i :: 0 <= i < |steps| ==> ExactStep(doc, steps[i]) && Antichain(steps[i].places))
    && forall i, j :: 0 <= i < j < |steps| ==> AllApart(steps[j].places, steps[i].places)
  }

  ghost function OwnPlaces(steps: seq<HoistStep>): set<Place> {
    if steps == [] then {}
    else OwnPlaces(steps[1..]) + if HasOwnTitle(steps[0]) then steps[0].places else {}
  }

  /** The document without the titles of the nodes at a set of places. */
  ghost function Stripped(doc: Document, places: set<Place>): Document {
    map k | k in doc :: Strip(doc[k], Below(places, Key(k)))
  }

  lemma {:induction false} OwnPlacesFind(steps: seq<HoistStep>, p: Place) returns (i: nat)
    requires p in OwnPlaces(steps)
    ensures i < |steps| && p in steps[i].places && HasOwnTitle(steps[i])
  {
    if HasOwnTitle(steps[0]) && p in steps[0].places {
      i := 0;
    } else {
      var j := OwnPlacesFind(steps[1..], p);
      i := j + 1;
    }
  }

  lemma {:induction false} OwnPlacesHold(steps: seq<HoistStep>, i: nat, p: Place)
    requires i < |steps| && p in steps[i].places && HasOwnTitle(steps[i])
    ensures p in OwnPlaces(steps)
  {
    if i > 0 {
      OwnPlacesHold(steps[1..], i - 1, p);
    }
  }

  /** A place of a document begins at one of its definitions. */
  lemma PlaceBegins(doc: Document, p: Place)
    requires |p| >= 2 && ObjectAt(Obj(doc), p)
    ensures p[0].Key? && p[0].key in doc
  {}

  lemma StepStaysExact(doc: Document, first: HoistStep, step: HoistStep)
    requires ExactStep(doc, first) && ExactStep(doc, step) && first.name != step.name
    requires AllApart(step.places, first.places)
    ensures ExactStep(Apply(doc, first), step)
  {
    hide Apply, At, Put, Definition, Structure;
    Applied(doc, first);
    forall p | p in step.places
      ensures |p| >= 2 && ObjectAt(Obj(Apply(doc, first)), p) &&
              Structure(FieldsAt(Obj(Apply(doc, first)), p)) == step.content
    {
      PlaceBegins(doc, p);
      ElsewhereStays(doc, first, p);
    }
  }

  lemma RunStays(doc: Document, steps: seq<HoistStep>)
    requires steps != [] && ExactRun(doc, steps)
    ensures ExactRun(Apply(doc, steps[0]), steps[1..])
  {
    hide Apply, ExactStep, AllApart, Antichain;
    forall i | 0 <= i < |steps[1..]| ensures ExactStep(Apply(doc, steps[0]), steps[1..][i]) {
      StepStaysExact(doc, steps[0], steps[i + 1]);
    }
  }

  lemma {:induction false} RunIsExactSteps(doc: Document, steps: seq<HoistStep>)
    requires ExactRun(doc, steps)
    ensures ExactSteps(doc, steps)
    decreases |steps|
  {
    if steps != [] {
      hide Apply, ExactStep;
      RunStays(doc, steps);
      RunIsExactSteps(Apply(doc, steps[0]), steps[1..]);
    }
  }

  lemma BodyOfHoisted(step: HoistStep)
    ensures Body(Definition(step.name, step.content), step.name) == InlinedBody(step.content, HasOwnTitle(step))
  {
    var fields := map["title" := Str(step.name)] + step.content;
    if HasOwnTitle(step) {
      assert fields == step.content;
    } else if "title" !in step.content {
      assert fields - {"title"} == step.content;
    } else {
      assert fields == step.content;
    }
  }

  /** Undoing the first hoisting of a run, whose later ones have lost some titles. */
  lemma FirstUndone(doc: Document, step: HoistStep, lost: set<Place>)
    requires ExactStep(doc, step) && AllApart(step.places, lost)
    requires forall k :: k in doc ==> PREFIX + step.name !in Refs(doc[k])
    requires forall p: Place :: p in lost ==> p != [] && p[0].Key? && p[0].key != step.name
    ensures Undo(Stripped(Apply(doc, step), lost), step.name) ==
            Stripped(doc, lost + if HasOwnTitle(step) then step.places else {})
  {
    hide Apply, Undo, Body, Inline, Put, Below, Refs, Definition, Strip, InlinedBody, HasOwnTitle;
    var own := HasOwnTitle(step);
    var all := lost + if own then step.places else {};
    var after := Apply(doc, step);
    var lossy := Stripped(after, lost);
    Applied(doc, step);
    NoneBelow(lost, step.name);
    StripNowhere(Definition(step.name, step.content));
    BodyOfHoisted(step);
    UndoneDefinition(lossy, step.name);
    assert lossy.Keys == doc.Keys + {step.name};
    forall k | k in doc ensures Undo(lossy, step.name)[k] == Stripped(doc, all)[k] {
      StructureBelow(doc, step, k);
      BelowApart(step.places, lost, Key(k));
      BelowBoth(lost, if own then step.places else {}, Key(k));
      NothingBelow(Key(k));
      InlineStripped(doc[k], Below(step.places, Key(k)), Below(lost, Key(k)), step.name, step.content, own);
    }
    assert Undo(lossy, step.name).Keys == doc.Keys;
  }

  lemma NoneBelow(places: set<Place>, name: string)
    requires forall p: Place :: p in places ==> p != [] && p[0].Key? && p[0].key != name
    ensures Below(places, Key(name)) == {}
  {}

  lemma LostPlaces(doc: Document, steps: seq<HoistStep>)
    requires steps != [] && ExactRun(doc, steps)
    ensures AllApart(steps[0].places, OwnPlaces(steps[1..]))
    ensures forall p: Place :: p in OwnPlaces(steps[1..]) ==> p != [] && p[0].Key? && p[0].key != steps[0].name
  {
    hide OwnPlaces, HasOwnTitle, At;
    forall p: Place | p in OwnPlaces(steps[1..])
      ensures p != [] && p[0].Key? && p[0].key != steps[0].name
      ensures forall q :: q in steps[0].places ==> Apart(q, p)
    {
      var i := OwnPlacesFind(steps[1..], p);
      assert steps[1..][i] == steps[i + 1];
      assert ExactStep(doc, steps[i + 1]) && ExactStep(doc, steps[0]);
      PlaceBegins(doc, p);
      assert AllApart(steps[i + 1].places, steps[0].places);
    }
  }

  /** Inlining all definitions of a run again gives back the document without exactly the titles that its
      nodes had of the names they were hoisted under. */
  lemma {:induction false} RunUndone(doc: Document, steps: seq<HoistStep>)
    requires ExactRun(doc, steps) && NoneWritten(doc, steps)
    ensures UndoAll(ApplyAll(doc, steps), steps) == Stripped(doc, OwnPlaces(steps))
    decreases |steps|
  {
    if steps == [] {
      forall k | k in doc ensures Strip(doc[k], Below({}, Key(k))) == doc[k] {
        NothingBelow(Key(k));
        StripNowhere(doc[k]);
      }
    } else {
      hide Apply, Undo, Refs, Stripped, HasOwnTitle, Strip;
      RunStays(doc, steps);
      ExactIsFromDocument(doc, steps[0]);
      NoneWrittenStays(doc, steps);
      RunUndone(Apply(doc, steps[0]), steps[1..]);
      LostPlaces(doc, steps);
      FirstUndone(doc, steps[0], OwnPlaces(steps[1..]));
    }
  }

  lemma {:induction false} StripAt(j: Json, places: set<Place>, p: Place)
    requires p in places && Antichain(places) && ObjectAt(j, p)
    ensures At(Strip(j, places), p) == Some(Obj(FieldsAt(j, p) - {"title"}))
    decreases |p|
  {
    if p != [] {
      var s := p[0];
      assert [] in places ==> [] <= p;
      AtStep(j, p);
      StripKeepsSteps(j, places);
      BelowHolds(places, s, p[1..]);
      assert p == [s] + p[1..];
      BelowAntichain(places, s);
      StripAt(Child(j, s), Below(places, s), p[1..]);
      AtStep(Strip(j, places), p);
    }
  }

  lemma OwnPlacesApart(doc: Document, steps: seq<HoistStep>)
    requires ExactRun(doc, steps)
    ensures Antichain(OwnPlaces(steps))
  {
    hide OwnPlaces, HasOwnTitle, ExactStep;
    forall p, q | p in OwnPlaces(steps) && q in OwnPlaces(steps) && p != q ensures Apart(p, q) {
      var i := OwnPlacesFind(steps, p);
      var j := OwnPlacesFind(steps, q);
      assert i < j ==> AllApart(steps[j].places, steps[i].places);
      assert j < i ==> AllApart(steps[i].places, steps[j].places);
      assert i == j ==> Antichain(steps[i].places);
    }
  }

  lemma LostTitle(doc: Document, steps: seq<HoistStep>, p: Place)
    requires ExactRun(doc, steps) && p in OwnPlaces(steps)
    ensures Stripped(doc, OwnPlaces(steps)) != doc
  {
    hide OwnPlaces, Strip, Below;
    var i := OwnPlacesFind(steps, p);
    assert ExactStep(doc, steps[i]);
    PlaceBegins(doc, p);
    var k, places := p[0].key, OwnPlaces(steps);
    OwnPlacesApart(doc, steps);
    BelowAntichain(places, Key(k));
    BelowHolds(places, Key(k), p[1..]);
    assert p == [Key(k)] + p[1..];
    assert Key(k) in Steps(Obj(doc)) && Child(Obj(doc), Key(k)) == doc[k];
    AtStep(Obj(doc), p);
    StripAt(doc[k], Below(places, Key(k)), p[1..]);
    assert "title" in Structure(FieldsAt(Obj(doc), p));
  }

  /** A run gives the document back exactly when no hoisted node has the hoisted name as its own title. */
  lemma RunGivesBackExactly(doc: Document, steps: seq<HoistStep>)
    requires ExactRun(doc, steps) && NoneWritten(doc, steps)
    ensures UndoAll(ApplyAll(doc, steps), steps) == doc <==> NoOwnTitle(steps)
  {
    hide OwnPlaces, Stripped, Apply, Undo, ApplyAll, UndoAll, Refs;
    RunUndone(doc, steps);
    if NoOwnTitle(steps) {
      RunIsExactSteps(doc, steps);
      ExactUndone(doc, steps);
    } else {
      var i :| 0 <= i < |steps| && HasOwnTitle(steps[i]);
      assert ExactStep(doc, steps[i]);
      var p :| p in steps[i].places;
      OwnPlacesHold(steps, i, p);
      LostTitle(doc, steps, p);
    }
  }
}

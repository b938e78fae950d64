/** Hoisting in place: the definitions and the taken names of a document as they change. */
module SchemaHoister {
  import opened Options
  import opened Schemas
  import opened SchemaInline
  import opened SchemaTitles
  import opened SchemaRoundTrip
  import opened SchemaNames
  import opened SchemaOwnTitles
  import opened SchemaHoist

  /** Names a group of enums, or gives it no name. */
  type NameResolver = (map<string, Json>, set<Occurrence>) -> Option<string>

  function Scalar(name: string): Json {
    Obj(map["type" := Str(name)])
  }

  const FILTER_SCALAR :=
    Obj(map["anyOf" := Arr([Scalar("string"), Scalar("number"), Scalar("boolean"), Scalar("null")])])

  const SHARED_SCHEMA_SHAPES: seq<(string, Json)> := [
    ("QueryFilterValue",
     Obj(map["anyOf" := Arr([
       FILTER_SCALAR,
       Obj(map["type" := Str("array"), "items" := FILTER_SCALAR]),
       Obj(map["$ref" := Str("QueryCondition")])])])),
    ("QueryFilterScalar", FILTER_SCALAR)]

  /** A shape is an object without a title, under a name without the separator of references. */
  predicate WellShaped(shape: (string, Json)) {
    '#' !in shape.0 && shape.1.Obj? && "title" !in shape.1.fields
  }

  lemma SharedShapesAreWellShaped()
    ensures forall i :: 0 <= i < |SHARED_SCHEMA_SHAPES| ==> WellShaped(SHARED_SCHEMA_SHAPES[i])
  {}

  function ShapeMatcher(name: string, signature: Json, titles: Titles): Matcher {
    (fields: map<string, Json>) =>
      if Signature(Obj(Structure(fields)), titles) == signature then Some(Str(name)) else None
  }

  function EnumMatcher(): Matcher {
    (fields: map<string, Json>) =>
      if "enum" in fields && fields["enum"].Arr? then Some(Obj(Structure(fields))) else None
  }

  ghost predicate Names(doc: Document, taken: set<string>) {
    doc.Keys <= taken && DefinitionTitles(doc).Values <= taken
  }

  lemma FoundPlaces(doc: Document, match_: Matcher, groups: Groups, group: Json)
    requires forall h :: Records(groups, h) <==> h in FoundIn(doc, match_)
    requires group in groups
    ensures Nodes(doc, PlacesOf(groups[group])) && Antichain(PlacesOf(groups[group]))
    ensures forall p: Place :: p in PlacesOf(groups[group]) ==>
              |p| >= 2 && ObjectAt(Obj(doc), p) && p[0].Key? && p[0].key in doc &&
              match_(FieldsAt(Obj(doc), p)) == Some(group)
  {
    forall p: Place | p in PlacesOf(groups[group])
      ensures |p| >= 2 && ObjectAt(Obj(doc), p)
      ensures p[0].Key? && p[0].key in doc && match_(FieldsAt(Obj(doc), p)) == Some(group)
    {
      var o :| o in groups[group] && o.place == p;
      assert Records(groups, Hit(group, o));
      var _ := FoundInIsPlaced(doc, match_, Hit(group, o));
    }
    forall p: Place, q: Place | p in PlacesOf(groups[group]) && q in PlacesOf(groups[group]) && p != q
      ensures Apart(p, q)
    {
      var o :| o in groups[group] && o.place == p;
      var u :| u in groups[group] && u.place == q;
      assert Records(groups, Hit(group, o)) && Records(groups, Hit(group, u));
      FoundInAreApart(doc, match_, Hit(group, o), Hit(group, u));
    }
  }

  lemma WriteBesideNew(fields: map<string, Json>, name: string, definition: Json, p: Place)
    requires |p| >= 2 && ObjectAt(Obj(fields), p) && p[0].Key? && p[0].key != name
    ensures Write(Obj(fields[name := definition]), p, name) ==
            Obj(Write(Obj(fields), p, name).fields[name := definition])
  {
    var s := p[0];
    assert s in Steps(Obj(fields)) && s in Steps(Obj(fields[name := definition]));
    var child := Write(fields[s.key], p[1..], name);
    assert fields[name := definition][s.key := child] == fields[s.key := child][name := definition];
  }

  ghost function GroupOf(doc: Document, match_: Matcher, group: Json): set<Occurrence> {
    set h | h in FoundIn(doc, match_) && h.group == group :: h.occurrence
  }

  lemma GroupIsRecorded(doc: Document, match_: Matcher, groups: Groups, group: Json)
    requires forall h :: Records(groups, h) <==> h in FoundIn(doc, match_)
    ensures GroupOf(doc, match_, group) == if group in groups then groups[group] else {}
  {
    forall o ensures o in GroupOf(doc, match_, group) <==> group in groups && o in groups[group] {
      assert Records(groups, Hit(group, o)) <==> Hit(group, o) in FoundIn(doc, match_);
    }
  }

  lemma GroupsApart(doc: Document, match_: Matcher, groups: Groups, a: Json, b: Json, p: Place, q: Place)
    requires forall h :: Records(groups, h) <==> h in FoundIn(doc, match_)
    requires a in groups && b in groups && a != b && p in PlacesOf(groups[a]) && q in PlacesOf(groups[b])
    ensures Apart(p, q)
  {
    var o :| o in groups[a] && o.place == p;
    var u :| u in groups[b] && u.place == q;
    assert Records(groups, Hit(a, o)) && Records(groups, Hit(b, u));
    FoundInAreApart(doc, match_, Hit(a, o), Hit(b, u));
  }

  /** The fields of the nodes of a group are still the ones they had when they were collected. */
  ghost predicate Untouched(doc: Document, now: Document, places: set<Place>) {
    forall p: Place :: p in places ==>
      |p| >= 2 && p[0].Key? && p[0].key in now && ObjectAt(Obj(doc), p) && At(Obj(now), p) == At(Obj(doc), p)
  }

  lemma UntouchedStays(doc: Document, now: Document, step: HoistStep, places: set<Place>)
    requires Untouched(doc, now, places) && step.name !in now && Nodes(now, step.places)
    requires forall p: Place, q: Place :: p in places && q in step.places ==> Apart(p, q)
    ensures Untouched(doc, Apply(now, step), places)
  {
    Applied(now, step);
    forall p: Place | p in places ensures At(Obj(Apply(now, step)), p) == At(Obj(doc), p) {
      ElsewhereStays(now, step, p);
    }
  }

  class Hoister {
    var definitions: Document
    var takenNames: set<string>

    constructor (schemas: Document)
      ensures definitions == schemas && Names(definitions, takenNames)
      ensures takenNames <= schemas.Keys + DefinitionTitles(schemas).Values
    {
      definitions := schemas;
      var titles := DefinitionTitles(schemas);
      takenNames := schemas.Keys + set k | k in titles :: titles[k];
    }

    /** Adds the definition of a step and puts references in place of its nodes, one after the other. */
    method Replace(step: HoistStep)
      requires step.name !in definitions && Nodes(definitions, step.places) && Antichain(step.places)
      requires forall p: Place :: p in step.places ==> |p| >= 2 && p[0].Key? && p[0].key in definitions
      modifies this`definitions
      ensures definitions == Apply(old(definitions), step)
    {
      hide Put, Write, Definition, Nodes, ObjectAt, Antichain;
      ghost var doc := definitions;
      var definition := Definition(step.name, step.content);
      definitions := definitions[step.name := definition];
      var pending := step.places;
      ghost var done: set<Place> := {};
      PutNowhere(Obj(doc), step.name);
      while pending != {}
        invariant pending !! done && step.places == pending + done
        invariant Put(Obj(doc), done, step.name).Obj?
        invariant definitions == Put(Obj(doc), done, step.name).fields[step.name := definition]
      {
        var place :| place in pending;
        assert Nodes(doc, step.places) && place in step.places;
        ReplaceOne(doc, step, done, place, definition);
        definitions := Write(Obj(definitions), place, step.name).fields;
        pending := pending - {place};
        done := done + {place};
      }
      assert done == step.places;
    }

    method HoistShape(name: string, shape: Json) returns (hoisted: bool, ghost step: HoistStep)
      requires WellShaped((name, shape)) && Names(definitions, takenNames)
      modifies this
      ensures Names(definitions, takenNames)
      ensures hoisted <==> Hoistable(old(definitions), old(takenNames), (name, shape))
      ensures hoisted ==>
              && step.name == name && ShapeStep(old(definitions), step) && Antichain(step.places)
              && ShapeGroup(old(definitions), (name, shape), step) && name !in old(takenNames)
              && step.places ==
                 PlacesOf(GroupOf(old(definitions), ShapeMatcherOf(old(definitions), name, shape), Str(name)))
              && definitions == Apply(old(definitions), step) && takenNames == old(takenNames) + {name}
      ensures !hoisted ==> definitions == old(definitions) && takenNames == old(takenNames)
    {
      hide FoundIn, GroupOf, ShapeMatcherOf, ShapeStep, Antichain, Nodes, Names, Apply, Records;
      var match_ := ShapeMatcherOf(definitions, name, shape);
      step := HoistStep(name, {}, map[]);
      var groups := CollectOccurrences(definitions, match_);
      GroupIsRecorded(definitions, match_, groups, Str(name));
      if Str(name) !in groups || |groups[Str(name)]| < 2 || name in takenNames {
        return false, step;
      }
      takenNames := takenNames + {name};
      var occurrences: set<Occurrence> := groups[Str(name)];
      var first: Occurrence :| first in occurrences;
      GroupIsShapeStep(definitions, old(takenNames), name, shape, groups, first);
      NotADefinition(definitions, old(takenNames), name);
      var node := At(Obj(definitions), first.place).value;
      var places := PlacesOf(occurrences);
      step := HoistStep(name, places, Structure(node.fields));
      Replace(HoistStep(name, places, Structure(node.fields)));
      NamesAfterShape(old(definitions), step, old(takenNames));
      return true, step;
    }

    method HoistEnums(resolve: NameResolver) returns (names: seq<string>, ghost steps: seq<HoistStep>)
      requires definitions.Keys <= takenNames
      modifies this
      ensures definitions.Keys <= takenNames
      ensures ExactSteps(old(definitions), steps) && definitions == ApplyAll(old(definitions), steps)
      ensures names == NamesOf(steps) && NamesApart(steps)
      ensures forall n :: n in names ==> n !in old(takenNames) && n in takenNames
      ensures AddsNames(old(takenNames), names, takenNames)
      ensures forall i :: 0 <= i < |steps| ==> IsGroup(old(definitions), resolve, steps[i])
      ensures ExactRun(old(definitions), steps)
      ensures GivesEnumsBack(old(definitions), old(takenNames), resolve, definitions, steps)
      ensures AllSettled(old(definitions), resolve, takenNames)
    {
      ghost var doc, taken := definitions, takenNames;
      names, steps := [], [];
      var groups := CollectOccurrences(definitions, EnumMatcher());
      var pending := groups.Keys;
      EnumsStart(doc, taken, groups, resolve);
      hide EnumsInvariant, NamesOf, PlacesOf, LeftInline, Nodes, ExactSteps, ApplyAll, NamesApart, Untouched, FoundIn,
           Records, ExactStep, Antichain, Apply, GroupOf, IsGroup, EnumMatcher, ExactRun, GivesEnumsBack, AllSettled,
           AddsNames;
      AddsNothing(taken);
      while pending != {}
        invariant pending <= groups.Keys
        invariant EnumsInvariant(doc, taken, groups, resolve, pending, definitions, takenNames, steps)
        invariant names == NamesOf(steps) && AddsNames(taken, names, takenNames)
      {
        var content :| content in pending;
        EnumContent(doc, taken, groups, resolve, pending, definitions, takenNames, steps, content);
        var occurrences: set<Occurrence> := groups[content];
        var name := if |occurrences| < 2 then None else resolve(content.fields, occurrences);
        if name.None? || name.value == "" || name.value in takenNames {
          EnumSkipped(doc, taken, groups, resolve, pending, definitions, takenNames, steps, content);
        } else {
          var places := PlacesOf(occurrences);
          var step := HoistStep(name.value, places, content.fields);
          EnumHoisted(doc, taken, groups, resolve, pending, definitions, takenNames, steps, content, step);
          AddsOneMore(taken, names, takenNames, name.value);
          takenNames := takenNames + {name.value};
          Replace(step);
          NamesOneMore(steps, step);
          names := names + [name.value];
          steps := steps + [step];
        }
        pending := pending - {content};
      }
      EnumsEnd(doc, taken, groups, resolve, definitions, takenNames, steps);
      EnumsRun(doc, taken, takenNames, resolve, steps);
    }

    /** Hoists the shapes in their order, then the enums. Inlining every hoisted definition again gives
        back every original definition. */
    method HoistSharedTypes(shapes: seq<(string, Json)>, resolve: NameResolver)
      returns (names: seq<string>, ghost shapeSteps: seq<HoistStep>, ghost enumSteps: seq<HoistStep>)
      requires forall i :: 0 <= i < |shapes| ==> WellShaped(shapes[i])
      requires Names(definitions, takenNames)
      modifies this
      ensures names == NamesOf(shapeSteps + enumSteps) && NamesApart(shapeSteps + enumSteps)
      ensures forall n :: n in names ==> n !in old(takenNames)
      ensures ShapeSteps(old(definitions), shapeSteps) && ExactSteps(ApplyAll(old(definitions), shapeSteps), enumSteps)
      ensures definitions == ApplyAll(ApplyAll(old(definitions), shapeSteps), enumSteps)
      ensures RunOfShapes(old(definitions), old(takenNames), shapes, shapeSteps)
      ensures forall i :: 0 <= i < |enumSteps| ==>
                IsGroup(ApplyAll(old(definitions), shapeSteps), resolve, enumSteps[i])
      ensures AllSettled(ApplyAll(old(definitions), shapeSteps), resolve, takenNames)
      ensures shapeSteps == [] ==>
                GivesEnumsBack(old(definitions), old(takenNames), resolve, definitions, enumSteps)
      ensures NoDangling(old(definitions)) && ResolvesApart(old(definitions), resolve) ==>
                && Same(UndoAll(definitions, shapeSteps + enumSteps), old(definitions),
                   DefinitionTitles(old(definitions)))
                && (shapeSteps == [] ==> UndoAll(definitions, enumSteps) == old(definitions))
    {
      hide Names, ShapeStep, ExactStep, Apply, Antichain, GroupOf, FoundIn, EnumMatcher, ShapeMatcherOf, IsGroup,
           LeftInline, ShapeSteps, ExactSteps, ApplyAll, UndoAll, NamesApart, PlainNames, NoOwnTitle, NoneNamed,
           NoneWritten, Same, WellShaped, GivesEnumsBack,
           RunOfShapes, AllSettled, Hoistable, ShapeGroup;
      ghost var doc, taken := definitions, takenNames;
      names, shapeSteps := [], [];
      ShapesStart(doc, taken);
      assert shapes[..0] == [];
      for i := 0 to |shapes|
        invariant ShapesInvariant(doc, taken, definitions, takenNames, shapeSteps)
        invariant names == NamesOf(shapeSteps)
        invariant shapeSteps == [] ==> definitions == doc && takenNames == taken
        invariant RunOfShapes(doc, taken, shapes[..i], shapeSteps) && takenNames == taken + NamesTaken(shapeSteps)
      {
        ghost var before, takenBefore := definitions, takenNames;
        var hoisted, step := HoistShape(shapes[i].0, shapes[i].1);
        assert shapes[..i + 1] == shapes[..i] + [shapes[i]];
        OneShapeMore(doc, taken, shapes[..i], shapeSteps, shapes[i], hoisted, step);
        if hoisted {
          ShapeHoisted(doc, taken, before, takenBefore, shapeSteps, step, shapes[i]);
          names := names + [shapes[i].0];
          shapeSteps := shapeSteps + [step];
        }
      }
      assert shapes[..|shapes|] == shapes;
      ghost var takenShapes := takenNames;
      NamesKeys(definitions, takenNames);
      var enumNames;
      enumNames, enumSteps := HoistEnums(resolve);
      names := names + enumNames;
      RunApart(taken, takenShapes, shapeSteps, enumSteps);
      if NoDangling(doc) && ResolvesApart(doc, resolve) {
        NamesKeys(doc, taken);
        NewStepNames(doc, taken, shapeSteps + enumSteps);
        NewNamesAreUnused(doc, shapeSteps, enumSteps);
        NoEnumOwnTitle(doc, shapeSteps, resolve, enumSteps);
        HoistingGivesBack(doc, shapeSteps, enumSteps);
      }
    }
  }

  ghost function NamesTaken(steps: seq<HoistStep>): set<string> {
    set i | 0 <= i < |steps| :: steps[i].name
  }

  /** The name of the shape is free, and the shape repeats. */
  ghost predicate Hoistable(doc: Document, taken: set<string>, shape: (string, Json)) {
    shape.0 !in taken && |GroupOf(doc, ShapeMatcherOf(doc, shape.0, shape.1), Str(shape.0))| >= 2
  }

  /** The step takes the shape out of all its places, with the structure of one of them. */
  ghost predicate ShapeGroup(doc: Document, shape: (string, Json), step: HoistStep) {
    && step.name == shape.0
    && step.places == PlacesOf(GroupOf(doc, ShapeMatcherOf(doc, shape.0, shape.1), Str(shape.0)))
    && exists p :: p in step.places && ObjectAt(Obj(doc), p) && step.content == Structure(FieldsAt(Obj(doc), p))
  }

  /** The shapes are tried in their order, each in the document the ones before it leave, and hoisted
      exactly when they can be. */
  ghost predicate RunOfShapes(doc: Document, taken: set<string>, shapes: seq<(string, Json)>, steps: seq<HoistStep>)
    decreases |shapes|
  {
    if shapes == [] then steps == []
    else
      var init, last := shapes[..|shapes| - 1], shapes[|shapes| - 1];
      || (RunOfShapes(doc, taken, init, steps) && !Hoistable(ApplyAll(doc, steps), taken + NamesTaken(steps), last))
      || (steps != [] &&
          var before := steps[..|steps| - 1];
          && RunOfShapes(doc, taken, init, before)
          && Hoistable(ApplyAll(doc, before), taken + NamesTaken(before), last)
          && ShapeGroup(ApplyAll(doc, before), last, steps[|steps| - 1]))
  }

  lemma OneShapeMore(doc: Document, taken: set<string>, shapes: seq<(string, Json)>, steps: seq<HoistStep>,
                     shape: (string, Json), hoisted: bool, step: HoistStep)
    requires RunOfShapes(doc, taken, shapes, steps)
    requires hoisted <==> Hoistable(ApplyAll(doc, steps), taken + NamesTaken(steps), shape)
    requires hoisted ==> ShapeGroup(ApplyAll(doc, steps), shape, step)
    ensures RunOfShapes(doc, taken, shapes + [shape], if hoisted then steps + [step] else steps)
    ensures NamesTaken(steps + [step]) == NamesTaken(steps) + {step.name}
  {
    hide Hoistable, ShapeGroup, ApplyAll;
    var all := shapes + [shape];
    assert all[..|all| - 1] == shapes;
    var more := steps + [step];
    assert more[..|more| - 1] == steps && more[|more| - 1] == step;
    forall n ensures n in NamesTaken(more) <==> n in NamesTaken(steps) + {step.name} {
      if n in NamesTaken(steps) {
        var i :| 0 <= i < |steps| && steps[i].name == n;
        assert more[i].name == n;
      }
    }
  }

  ghost predicate ShapesInvariant(doc: Document, taken: set<string>, now: Document, takenNow: set<string>,
                                  steps: seq<HoistStep>)
  {
    && Names(now, takenNow) && taken <= takenNow
    && ShapeSteps(doc, steps) && now == ApplyAll(doc, steps)
    && NamesApart(steps) && PlainNames(steps)
    && forall i :: 0 <= i < |steps| ==> steps[i].name !in taken && steps[i].name in takenNow
  }

  lemma ShapesStart(doc: Document, taken: set<string>)
    requires Names(doc, taken)
    ensures ShapesInvariant(doc, taken, doc, taken, [])
    ensures RunOfShapes(doc, taken, [], []) && taken == taken + NamesTaken([])
  {}

  lemma ShapeHoisted(doc: Document, taken: set<string>, now: Document, takenNow: set<string>, steps: seq<HoistStep>,
                     step: HoistStep, shape: (string, Json))
    requires ShapesInvariant(doc, taken, now, takenNow, steps) && WellShaped(shape) && step.name == shape.0
    requires step.name !in takenNow && ShapeStep(now, step) && Names(Apply(now, step), takenNow + {step.name})
    ensures ShapesInvariant(doc, taken, Apply(now, step), takenNow + {step.name}, steps + [step])
  {
    hide Names, ShapeStep, Apply, ShapeSteps, ApplyAll, NamesApart;
    ShapeOneMore(doc, steps, step);
    ApplyOneMore(doc, steps, step);
    OneMoreApart(steps, step);
  }

  lemma NamesKeys(doc: Document, taken: set<string>)
    requires Names(doc, taken)
    ensures doc.Keys <= taken
  {}

  lemma RunApart(taken: set<string>, takenShapes: set<string>, shapes: seq<HoistStep>, enums: seq<HoistStep>)
    requires NamesApart(shapes) && NamesApart(enums) && taken <= takenShapes
    requires forall i :: 0 <= i < |shapes| ==> shapes[i].name !in taken && shapes[i].name in takenShapes
    requires forall n :: n in NamesOf(enums) ==> n !in takenShapes
    ensures NamesApart(shapes + enums) && NamesOf(shapes + enums) == NamesOf(shapes) + NamesOf(enums)
    ensures forall n :: n in NamesOf(shapes + enums) ==> n !in taken
  {
    forall i | 0 <= i < |enums| ensures enums[i].name !in takenShapes {
      assert NamesOf(enums)[i] in NamesOf(enums);
    }
  }

  lemma NewStepNames(doc: Document, taken: set<string>, steps: seq<HoistStep>)
    requires doc.Keys <= taken && forall n :: n in NamesOf(steps) ==> n !in taken
    ensures forall i :: 0 <= i < |steps| ==> steps[i].name !in doc
  {
    forall i | 0 <= i < |steps| ensures steps[i].name !in doc {
      assert NamesOf(steps)[i] in NamesOf(steps);
    }
  }

  function NamesOf(steps: seq<HoistStep>): seq<string> {
    seq(|steps|, i requires 0 <= i < |steps| => steps[i].name)
  }

  /** The names are taken as well now, and none is empty. */
  ghost predicate AddsNames(taken: set<string>, names: seq<string>, takenNow: set<string>) {
    takenNow == taken + (set n | n in names) && "" !in names
  }

  /** An enum that gets no name of its own. */
  ghost predicate LeftInline(resolve: NameResolver, content: Json, occurrences: set<Occurrence>) {
    !content.Obj? || resolve(content.fields, occurrences).None? || resolve(content.fields, occurrences).value == ""
  }

  lemma GroupPlaces(doc: Document, content: map<string, Json>)
    ensures
      var places := PlacesOf(GroupOf(doc, EnumMatcher(), Obj(content)));
      Nodes(doc, places) && Antichain(places) &&
      forall p :: p in places ==> Structure(FieldsAt(Obj(doc), p)) == content && IsEnum(FieldsAt(Obj(doc), p))
  {
    var occurrences := GroupOf(doc, EnumMatcher(), Obj(content));
    forall p: Place | p in PlacesOf(occurrences)
      ensures |p| >= 2 && ObjectAt(Obj(doc), p)
      ensures Structure(FieldsAt(Obj(doc), p)) == content && IsEnum(FieldsAt(Obj(doc), p))
    {
      var h :| h in FoundIn(doc, EnumMatcher()) && h.group == Obj(content) && h.occurrence.place == p;
      var _ := FoundInIsPlaced(doc, EnumMatcher(), h);
    }
    forall p, q | p in PlacesOf(occurrences) && q in PlacesOf(occurrences) && p != q ensures Apart(p, q) {
      GroupsArePlacedApart(doc, Obj(content), Obj(content), p, q);
    }
  }

  lemma GroupsArePlacedApart(doc: Document, a: Json, b: Json, p: Place, q: Place)
    requires p in PlacesOf(GroupOf(doc, EnumMatcher(), a)) && q in PlacesOf(GroupOf(doc, EnumMatcher(), b))
    requires a != b || p != q
    ensures Apart(p, q)
  {
    hide FoundIn;
    var g :| g in FoundIn(doc, EnumMatcher()) && g.group == a && g.occurrence.place == p;
    var h :| h in FoundIn(doc, EnumMatcher()) && h.group == b && h.occurrence.place == q;
    FoundInAreApart(doc, EnumMatcher(), g, h);
  }

  /** The enums of a run are hoisted out of places apart. */
  lemma GroupsAreRun(doc: Document, resolve: NameResolver, steps: seq<HoistStep>)
    requires NamesApart(steps)
    requires forall i :: 0 <= i < |steps| ==> IsGroup(doc, resolve, steps[i]) && steps[i].name !in doc
    ensures ExactRun(doc, steps)
  {
    hide GroupOf, EnumMatcher, Nodes, Antichain, Structure, FieldsAt, PlacesOf;
    forall i | 0 <= i < |steps| ensures ExactStep(doc, steps[i]) && Antichain(steps[i].places) {
      GroupPlaces(doc, steps[i].content);
      GroupHasPlaces(GroupOf(doc, EnumMatcher(), Obj(steps[i].content)));
    }
    forall i, j | 0 <= i < j < |steps| ensures AllApart(steps[j].places, steps[i].places) {
      forall p, q | p in steps[j].places && q in steps[i].places ensures Apart(p, q) {
        GroupsArePlacedApart(doc, Obj(steps[j].content), Obj(steps[i].content), p, q);
      }
    }
  }

  lemma GroupHasPlaces(occurrences: set<Occurrence>)
    requires |occurrences| >= 2
    ensures PlacesOf(occurrences) != {}
  {
    var o :| o in occurrences;
    assert o.place in PlacesOf(occurrences);
  }

  /** Every repeated enum gets no name or has one that is taken, by a definition of its own unless it was
      taken before. */
  ghost predicate AllSettled(doc: Document, resolve: NameResolver, takenNow: set<string>) {
    forall c :: |GroupOf(doc, EnumMatcher(), c)| >= 2 ==>
      LeftInline(resolve, c, GroupOf(doc, EnumMatcher(), c)) ||
      resolve(c.fields, GroupOf(doc, EnumMatcher(), c)).value in takenNow
  }

  /** Inlining the hoisted enums gives back a document without dangling references exactly when none was
      hoisted under its own title. With names that tell the enums apart, that is decided by the document. */
  ghost predicate GivesEnumsBack(doc: Document, taken: set<string>, resolve: NameResolver,
                                 now: Document, steps: seq<HoistStep>)
  {
    NoDangling(doc) ==>
      && (UndoAll(now, steps) == doc <==> NoOwnTitle(steps))
      && (NamesGroupsApart(doc, resolve) ==>
            (UndoAll(now, steps) == doc <==> forall c :: !TitledGroup(doc, taken, resolve, c)))
  }

  lemma EnumsRun(doc: Document, taken: set<string>, takenNow: set<string>, resolve: NameResolver, steps: seq<HoistStep>)
    requires NamesApart(steps) && forall i :: 0 <= i < |steps| ==> IsGroup(doc, resolve, steps[i])
    requires doc.Keys <= taken && forall n :: n in NamesOf(steps) ==> n !in taken
    requires AddsNames(taken, NamesOf(steps), takenNow)
    requires AllSettled(doc, resolve, takenNow)
    ensures ExactRun(doc, steps)
    ensures GivesEnumsBack(doc, taken, resolve, ApplyAll(doc, steps), steps)
  {
    hide NamesApart, IsGroup, ExactRun, UndoAll, ApplyAll, NoOwnTitle, NoDangling, NamesGroupsApart, TitledGroup,
         AllSettled, NamesOf, AddsNames;
    NewStepNames(doc, taken, steps);
    GroupsAreRun(doc, resolve, steps);
    if NoDangling(doc) {
      EnumsUndone(doc, steps);
    }
    if NamesGroupsApart(doc, resolve) {
      TitledExactly(doc, taken, takenNow, resolve, steps);
    }
  }

  lemma EnumsUndone(doc: Document, steps: seq<HoistStep>)
    requires ExactRun(doc, steps) && NoDangling(doc)
    ensures UndoAll(ApplyAll(doc, steps), steps) == doc <==> NoOwnTitle(steps)
  {
    hide UndoAll, ApplyAll, NoOwnTitle, NoDangling;
    assert [] + steps == steps;
    forall i | 0 <= i < |steps| ensures steps[i].name !in doc {
      assert ExactStep(doc, steps[i]);
    }
    NewNamesAreUnused(doc, [], steps);
    RunGivesBackExactly(doc, steps);
  }

  /** Different repeated enums are named differently. */
  ghost predicate NamesGroupsApart(doc: Document, resolve: NameResolver) {
    forall c, d :: c != d && Repeats(doc, c) && Repeats(doc, d) && NameFor(doc, resolve, c).Some? ==>
      NameFor(doc, resolve, c) != NameFor(doc, resolve, d)
  }

  ghost predicate Repeats(doc: Document, content: map<string, Json>) {
    |GroupOf(doc, EnumMatcher(), Obj(content))| >= 2
  }

  ghost function NameFor(doc: Document, resolve: NameResolver, content: map<string, Json>): Option<string> {
    resolve(content, GroupOf(doc, EnumMatcher(), Obj(content)))
  }

  /** A repeated enum whose title is the name it gets, where that is free. */
  ghost predicate TitledGroup(doc: Document, taken: set<string>, resolve: NameResolver, content: map<string, Json>) {
    && Repeats(doc, content) && "title" in content && content["title"].Str?
    && NameFor(doc, resolve, content) == Some(content["title"].text)
    && content["title"].text != "" && content["title"].text !in taken
  }

  /** The steps that hoist a node under its own title, in terms of the document. */
  lemma TitledExactly(doc: Document, taken: set<string>, takenNow: set<string>, resolve: NameResolver,
                      steps: seq<HoistStep>)
    requires NamesGroupsApart(doc, resolve)
    requires forall i :: 0 <= i < |steps| ==> IsGroup(doc, resolve, steps[i])
    requires AddsNames(taken, NamesOf(steps), takenNow)
    requires forall n :: n in NamesOf(steps) ==> n !in taken
    requires AllSettled(doc, resolve, takenNow)
    ensures NoOwnTitle(steps) <==> forall c :: !TitledGroup(doc, taken, resolve, c)
  {
    hide GroupOf, EnumMatcher, PlacesOf;
    forall i | 0 <= i < |steps| && HasOwnTitle(steps[i]) ensures TitledGroup(doc, taken, resolve, steps[i].content) {
      assert IsGroup(doc, resolve, steps[i]) && NamesOf(steps)[i] in NamesOf(steps);
    }
    forall c: map<string, Json> | TitledGroup(doc, taken, resolve, c) ensures !NoOwnTitle(steps) {
      var name := c["title"].text;
      assert name in takenNow by {
        assert |GroupOf(doc, EnumMatcher(), Obj(c))| >= 2;
      }
      var i :| 0 <= i < |steps| && NamesOf(steps)[i] == name;
      assert IsGroup(doc, resolve, steps[i]);
      assert Repeats(doc, steps[i].content) && NameFor(doc, resolve, steps[i].content) == NameFor(doc, resolve, c);
      assert steps[i].content == c;
      assert HasOwnTitle(steps[i]);
    }
  }

  /** No name the resolver gives is the title of an enum in the document. */
  ghost predicate ResolvesApart(doc: Document, resolve: NameResolver) {
    forall c, o :: resolve(c, o).Some? ==> resolve(c, o).value !in EnumTitlesIn(doc)
  }

  lemma NoEnumOwnTitle(doc: Document, shapes: seq<HoistStep>, resolve: NameResolver, enums: seq<HoistStep>)
    requires ResolvesApart(doc, resolve) && ShapeSteps(doc, shapes)
    requires forall i :: 0 <= i < |enums| ==> IsGroup(ApplyAll(doc, shapes), resolve, enums[i])
    ensures NoOwnTitle(enums)
  {
    hide GroupOf, EnumMatcher, ApplyAll, EnumTitlesIn, PlacesOf;
    ShapesAddNoTitles(doc, shapes);
    forall i | 0 <= i < |enums| ensures !HasOwnTitle(enums[i]) {
      assert IsGroup(ApplyAll(doc, shapes), resolve, enums[i]);
      if HasOwnTitle(enums[i]) {
        GroupTitle(ApplyAll(doc, shapes), resolve, enums[i]);
      }
    }
  }

  lemma GroupTitle(doc: Document, resolve: NameResolver, step: HoistStep)
    requires IsGroup(doc, resolve, step) && HasOwnTitle(step)
    ensures step.name in EnumTitlesIn(doc)
  {
    hide GroupOf, EnumMatcher, EnumTitlesIn, PlacesOf;
    GroupPlaces(doc, step.content);
    GroupHasPlaces(GroupOf(doc, EnumMatcher(), Obj(step.content)));
    var p :| p in step.places;
    NodeTitles(doc, p);
    var fields := FieldsAt(Obj(doc), p);
    assert fields["title"] == step.content["title"];
    assert OwnEnumTitle(fields) == {step.name};
  }

  /** A step hoists all occurrences of one enum, repeated and named by the resolver. */
  ghost predicate IsGroup(doc: Document, resolve: NameResolver, step: HoistStep) {
    var occurrences := GroupOf(doc, EnumMatcher(), Obj(step.content));
    && |occurrences| >= 2 && step.places == PlacesOf(occurrences)
    && resolve(step.content, occurrences) == Some(step.name)
  }

  ghost predicate Settled(resolve: NameResolver, taken: set<string>, content: Json, occurrences: set<Occurrence>) {
    |occurrences| >= 2 ==>
      LeftInline(resolve, content, occurrences) || resolve(content.fields, occurrences).value in taken
  }

  ghost predicate EnumsInvariant(doc: Document, taken: set<string>, groups: Groups, resolve: NameResolver,
                                 pending: set<Json>, now: Document, takenNow: set<string>, steps: seq<HoistStep>)
  {
    && now.Keys <= takenNow && taken <= takenNow && pending <= groups.Keys
    && (forall h :: Records(groups, h) <==> h in FoundIn(doc, EnumMatcher()))
    && ExactSteps(doc, steps) && now == ApplyAll(doc, steps)
    && NamesApart(steps) && (forall i :: 0 <= i < |steps| ==> steps[i].name !in taken && steps[i].name in takenNow)
    && (forall i :: 0 <= i < |steps| ==> IsGroup(doc, resolve, steps[i]))
    && (forall c :: c in pending ==> Untouched(doc, now, PlacesOf(groups[c])))
    && (forall c :: c in groups && c !in pending ==> Settled(resolve, takenNow, c, groups[c]))
  }

  lemma EnumGroup(doc: Document, groups: Groups, content: Json)
    requires forall h :: Records(groups, h) <==> h in FoundIn(doc, EnumMatcher())
    requires content in groups
    ensures GroupOf(doc, EnumMatcher(), content) == groups[content]
    ensures Untouched(doc, doc, PlacesOf(groups[content])) && Antichain(PlacesOf(groups[content]))
    ensures Nodes(doc, PlacesOf(groups[content]))
    ensures forall p :: p in PlacesOf(groups[content]) ==> content == Obj(Structure(FieldsAt(Obj(doc), p)))
    ensures groups[content] != {} ==> content.Obj?
  {
    GroupIsRecorded(doc, EnumMatcher(), groups, content);
    FoundPlaces(doc, EnumMatcher(), groups, content);
    forall p | p in PlacesOf(groups[content]) ensures content == Obj(Structure(FieldsAt(Obj(doc), p))) {
      assert EnumMatcher()(FieldsAt(Obj(doc), p)) == Some(content);
    }
    if o: Occurrence :| o in groups[content] {
      assert o.place in PlacesOf(groups[content]);
    }
  }

  lemma EnumsStart(doc: Document, taken: set<string>, groups: Groups, resolve: NameResolver)
    requires forall h :: Records(groups, h) <==> h in FoundIn(doc, EnumMatcher())
    requires doc.Keys <= taken
    ensures EnumsInvariant(doc, taken, groups, resolve, groups.Keys, doc, taken, [])
    ensures NamesOf([]) == []
  {
    forall c | c in groups ensures Untouched(doc, doc, PlacesOf(groups[c])) {
      EnumGroup(doc, groups, c);
    }
  }

  lemma EnumSkipped(doc: Document, taken: set<string>, groups: Groups, resolve: NameResolver, pending: set<Json>,
                    now: Document, takenNow: set<string>, steps: seq<HoistStep>, content: Json)
    requires EnumsInvariant(doc, taken, groups, resolve, pending, now, takenNow, steps)
    requires content in pending && Settled(resolve, takenNow, content, groups[content])
    ensures EnumsInvariant(doc, taken, groups, resolve, pending - {content}, now, takenNow, steps)
  {
    hide ExactSteps, ApplyAll, NamesApart, IsGroup, Untouched, Settled, FoundIn, Records;
  }

  lemma EnumStep(doc: Document, groups: Groups, now: Document, content: Json, step: HoistStep)
    requires forall h :: Records(groups, h) <==> h in FoundIn(doc, EnumMatcher())
    requires content in groups && content.Obj? && groups[content] != {}
    requires Untouched(doc, now, PlacesOf(groups[content])) && step.name !in now
    requires step.places == PlacesOf(groups[content]) && step.content == content.fields
    ensures ExactStep(now, step) && Antichain(step.places)
    ensures forall p: Place :: p in step.places ==> |p| >= 2 && p[0].Key? && p[0].key in now
  {
    EnumGroup(doc, groups, content);
    var o: Occurrence :| o in groups[content];
    assert o.place in step.places;
  }

  lemma OtherGroupsStay(doc: Document, groups: Groups, now: Document, content: Json, step: HoistStep, other: Json)
    requires forall h :: Records(groups, h) <==> h in FoundIn(doc, EnumMatcher())
    requires content in groups && other in groups && content != other && step.places == PlacesOf(groups[content])
    requires Untouched(doc, now, PlacesOf(groups[other])) && step.name !in now && Nodes(now, step.places)
    ensures Untouched(doc, Apply(now, step), PlacesOf(groups[other]))
  {
    forall p: Place, q: Place | p in PlacesOf(groups[other]) && q in step.places ensures Apart(p, q) {
      GroupsApart(doc, EnumMatcher(), groups, other, content, p, q);
    }
    UntouchedStays(doc, now, step, PlacesOf(groups[other]));
  }

  function ShapeMatcherOf(doc: Document, name: string, shape: Json): Matcher {
    ShapeMatcher(name, Signature(shape, DefinitionTitles(doc)), DefinitionTitles(doc))
  }

  lemma MatchedShape(doc: Document, name: string, shape: Json, fields: map<string, Json>)
    requires WellShaped((name, shape)) && ShapeMatcherOf(doc, name, shape)(fields) == Some(Str(name))
    ensures SignatureOf(Structure(fields), DefinitionTitles(doc)) == SignatureOf(shape.fields, DefinitionTitles(doc))
  {
    SignatureFields(Structure(fields), DefinitionTitles(doc));
    SignatureFields(shape.fields, DefinitionTitles(doc));
  }

  lemma ShapeIsStep(doc: Document, name: string, shape: Json, places: set<Place>, first: Place)
    requires WellShaped((name, shape)) && name !in doc && name !in DefinitionTitles(doc).Values
    requires Nodes(doc, places) && first in places
    requires forall p: Place :: p in places ==>
             ShapeMatcherOf(doc, name, shape)(FieldsAt(Obj(doc), p)) == Some(Str(name))
    ensures ShapeStep(doc, HoistStep(name, places, Structure(FieldsAt(Obj(doc), first))))
  {
    hide ShapeMatcherOf, Structure, At;
    var titles := DefinitionTitles(doc);
    var content := Structure(FieldsAt(Obj(doc), first));
    forall p: Place | p in places
      ensures SignatureOf(Structure(FieldsAt(Obj(doc), p)), titles) == SignatureOf(shape.fields, titles)
    {
      MatchedShape(doc, name, shape, FieldsAt(Obj(doc), p));
    }
    assert "title" !in SignatureOf(shape.fields, titles);
    assert "title" !in content;
  }

  /** The step a recorded group of a shape makes. */
  lemma GroupIsShapeStep(doc: Document, taken: set<string>, name: string, shape: Json, groups: Groups,
                         first: Occurrence)
    requires WellShaped((name, shape)) && Names(doc, taken) && name !in taken
    requires forall h :: Records(groups, h) <==> h in FoundIn(doc, ShapeMatcherOf(doc, name, shape))
    requires Str(name) in groups && first in groups[Str(name)]
    ensures ObjectAt(Obj(doc), first.place)
    ensures var places := PlacesOf(groups[Str(name)]);
            && ShapeStep(doc, HoistStep(name, places, Structure(FieldsAt(Obj(doc), first.place))))
            && Nodes(doc, places) && Antichain(places)
            && forall p: Place :: p in places ==> |p| >= 2 && p[0].Key? && p[0].key in doc
  {
    hide ShapeMatcherOf, FoundIn, ShapeStep, Antichain, Nodes;
    FoundPlaces(doc, ShapeMatcherOf(doc, name, shape), groups, Str(name));
    assert first.place in PlacesOf(groups[Str(name)]);
    ShapeIsStep(doc, name, shape, PlacesOf(groups[Str(name)]), first.place);
  }

  lemma NotADefinition(doc: Document, taken: set<string>, name: string)
    requires Names(doc, taken) && name !in taken
    ensures name !in doc
  {}

  lemma NamesAfterShape(doc: Document, step: HoistStep, taken: set<string>)
    requires ShapeStep(doc, step) && Names(doc, taken)
    ensures Names(Apply(doc, step), taken + {step.name})
  {
    Applied(doc, step);
    TitlesApplied(doc, step);
  }

  lemma ReplaceOne(doc: Document, step: HoistStep, done: set<Place>, place: Place, definition: Json)
    requires step.name !in doc && Nodes(doc, step.places) && Antichain(step.places)
    requires done <= step.places && place in step.places && place !in done && place[0].Key? && place[0].key in doc
    requires Put(Obj(doc), done, step.name).Obj?
    ensures Put(Obj(doc), done + {place}, step.name).Obj?
    ensures Write(Obj(Put(Obj(doc), done, step.name).fields[step.name := definition]), place, step.name) ==
            Obj(Put(Obj(doc), done + {place}, step.name).fields[step.name := definition])
  {
    forall q | q in done ensures Apart(place, q) {}
    PutElsewhere(Obj(doc), done, place, step.name);
    WriteBesideNew(Put(Obj(doc), done, step.name).fields, step.name, definition, place);
    WriteOneMore(Obj(doc), done, place, step.name);
    assert [] !in done + {place};
  }

  lemma EnumContent(doc: Document, taken: set<string>, groups: Groups, resolve: NameResolver, pending: set<Json>,
                    now: Document, takenNow: set<string>, steps: seq<HoistStep>, content: Json)
    requires EnumsInvariant(doc, taken, groups, resolve, pending, now, takenNow, steps) && content in pending
    ensures content in groups && (groups[content] != {} ==> content.Obj?)
    ensures Settled(resolve, takenNow, content, groups[content]) ||
            (|groups[content]| >= 2 && content.Obj? && resolve(content.fields, groups[content]).Some? &&
             resolve(content.fields, groups[content]).value !in takenNow)
  {
    EnumGroup(doc, groups, content);
  }

  lemma EnumHoisted(doc: Document, taken: set<string>, groups: Groups, resolve: NameResolver, pending: set<Json>,
                    now: Document, takenNow: set<string>, steps: seq<HoistStep>, content: Json, step: HoistStep)
    requires EnumsInvariant(doc, taken, groups, resolve, pending, now, takenNow, steps)
    requires content in pending && |groups[content]| >= 2 && content.Obj?
    requires resolve(content.fields, groups[content]) == Some(step.name) && step.name !in takenNow
    requires step.places == PlacesOf(groups[content]) && step.content == content.fields
    ensures step.name !in now && ExactStep(now, step) && Antichain(step.places)
    ensures forall p: Place :: p in step.places ==> |p| >= 2 && p[0].Key? && p[0].key in now
    ensures EnumsInvariant(doc, taken, groups, resolve, pending - {content}, Apply(now, step),
                           takenNow + {step.name}, steps + [step])
  {
    hide ExactSteps, ApplyAll, NamesApart, Untouched, FoundIn, Records, ExactStep, Antichain, Nodes, Apply, GroupOf,
         PlacesOf, EnumMatcher, Definition, LeftInline, Put, Below, Structure, FieldsAt;
    EnumStep(doc, groups, now, content, step);
    ExactHasNodes(now, step);
    forall c | c in pending - {content} ensures Untouched(doc, Apply(now, step), PlacesOf(groups[c])) {
      OtherGroupsStay(doc, groups, now, content, step, c);
    }
    Applied(now, step);
    ExactOneMore(doc, steps, step);
    ApplyOneMore(doc, steps, step);
    OneMoreApart(steps, step);
    EnumGroup(doc, groups, content);
  }

  lemma NamesOneMore(steps: seq<HoistStep>, step: HoistStep)
    ensures NamesOf(steps + [step]) == NamesOf(steps) + [step.name]
  {}

  lemma AddsOneMore(taken: set<string>, names: seq<string>, takenNow: set<string>, name: string)
    requires AddsNames(taken, names, takenNow) && name != ""
    ensures AddsNames(taken, names + [name], takenNow + {name})
  {}

  lemma AddsNothing(taken: set<string>)
    ensures AddsNames(taken, [], taken)
  {}

  lemma ExactHasNodes(doc: Document, step: HoistStep)
    requires ExactStep(doc, step)
    ensures Nodes(doc, step.places)
  {}

  lemma OneMoreApart(steps: seq<HoistStep>, step: HoistStep)
    requires NamesApart(steps) && forall i :: 0 <= i < |steps| ==> steps[i].name != step.name
    ensures NamesApart(steps + [step])
  {}

  lemma EnumsEnd(doc: Document, taken: set<string>, groups: Groups, resolve: NameResolver,
                 now: Document, takenNow: set<string>, steps: seq<HoistStep>)
    requires EnumsInvariant(doc, taken, groups, resolve, {}, now, takenNow, steps)
    ensures now.Keys <= takenNow && taken <= takenNow
    ensures ExactSteps(doc, steps) && now == ApplyAll(doc, steps) && NamesApart(steps)
    ensures forall n :: n in NamesOf(steps) ==> n !in taken && n in takenNow
    ensures forall i :: 0 <= i < |steps| ==> IsGroup(doc, resolve, steps[i])
    ensures AllSettled(doc, resolve, takenNow)
  {
    forall c | |GroupOf(doc, EnumMatcher(), c)| >= 2
      ensures Settled(resolve, takenNow, c, GroupOf(doc, EnumMatcher(), c))
    {
      GroupIsRecorded(doc, EnumMatcher(), groups, c);
    }
  }
}

/** The hoister of the schemas an OpenAPI document repeats, packages/client/utils/hoist-util.ts. */
module SchemaHoist {
  import opened Options
  import opened Schemas
  import opened SchemaInline
  import opened SchemaTitles
  import opened SchemaRoundTrip

  datatype Occurrence = Occurrence(place: Place, owner: string, property: string)
  datatype Hit = Hit(group: Json, occurrence: Occurrence)

  /** The group a schema node is hoisted in, if any. */
  type Matcher = map<string, Json> -> Option<Json>
  type Groups = map<Json, set<Occurrence>>

  predicate Container(j: Json) {
    j.Arr? || j.Obj?
  }

  predicate Matched(node: Json, match_: Matcher) {
    node.Obj? && match_(node.fields).Some?
  }

  /** The keys of a `properties` object name the schemas below them. */
  predicate Opens(j: Json, s: Step)
    requires s in Steps(j)
  {
    s == Key("properties") && Child(j, s).Obj?
  }

  // What is collected

  ghost function FoundAt(node: Json, at: Place, owner: string, property: string, match_: Matcher): set<Hit>
    decreases node, 2
  {
    if Matched(node, match_) then {Hit(match_(node.fields).value, Occurrence(at, owner, property))}
    else if Container(node) then Found(node, at, owner, property, match_)
    else {}
  }

  ghost function FoundOpen(j: Json, at: Place, owner: string, match_: Matcher): set<Hit>
    requires j.Obj?
    decreases j, 0
  {
    set t, h | t in Steps(j) && h in FoundAt(Child(j, t), at + [t], owner, t.key, match_) :: h
  }

  ghost function FoundBelow(j: Json, s: Step, at: Place, owner: string, property: string, match_: Matcher): set<Hit>
    requires s in Steps(j)
    decreases j, 0
  {
    if !Container(Child(j, s)) then {}
    else if Opens(j, s) then FoundOpen(Child(j, s), at + [s], owner, match_)
    else FoundAt(Child(j, s), at + [s], owner, property, match_)
  }

  /** The outermost matched nodes below a node. */
  ghost function Found(j: Json, at: Place, owner: string, property: string, match_: Matcher): set<Hit>
    decreases j, 1
  {
    set s, h | s in Steps(j) && h in FoundBelow(j, s, at, owner, property, match_) :: h
  }

  ghost function FoundIn(doc: Document, match_: Matcher): set<Hit> {
    set k, h | k in doc && Container(doc[k]) && h in Found(doc[k], [Key(k)], TitleOf(k, doc[k]), "", match_) :: h
  }

  ghost predicate Records(groups: Groups, h: Hit) {
    h.group in groups && h.occurrence in groups[h.group]
  }

  function Recorded(groups: Groups, h: Hit): Groups {
    groups[h.group := (if h.group in groups then groups[h.group] else {}) + {h.occurrence}]
  }

  method CollectOccurrences(doc: Document, match_: Matcher) returns (groups: Groups)
    ensures forall h :: Records(groups, h) <==> h in FoundIn(doc, match_)
  {
    groups := map[];
    var pending := doc.Keys;
    while pending != {}
      invariant pending <= doc.Keys
      invariant forall h :: Records(groups, h) <==>
                  exists k :: k in doc && k !in pending && Container(doc[k]) &&
                              h in Found(doc[k], [Key(k)], TitleOf(k, doc[k]), "", match_)
    {
      var key :| key in pending;
      pending := pending - {key};
      if Container(doc[key]) {
        groups := Collect(doc[key], [Key(key)], TitleOf(key, doc[key]), "", match_, groups);
      }
    }
  }

  method Collect(container: Json, at: Place, owner: string, property: string, match_: Matcher, before: Groups)
    returns (groups: Groups)
    ensures forall h :: Records(groups, h) <==> Records(before, h) || h in Found(container, at, owner, property, match_)
    decreases container, 1
  {
    groups := before;
    var pending := Steps(container);
    while pending != {}
      invariant pending <= Steps(container)
      invariant forall h :: Records(groups, h) <==>
                  (Records(before, h) ||
                   exists s :: s in Steps(container) && s !in pending &&
                               h in FoundBelow(container, s, at, owner, property, match_))
    {
      var s :| s in pending;
      pending := pending - {s};
      if Container(Child(container, s)) {
        if Opens(container, s) {
          groups := CollectProperties(Child(container, s), at + [s], owner, match_, groups);
        } else {
          groups := Visit(Child(container, s), at + [s], owner, property, match_, groups);
        }
      }
    }
  }

  method CollectProperties(properties: Json, at: Place, owner: string, match_: Matcher, before: Groups)
    returns (groups: Groups)
    requires properties.Obj?
    ensures forall h :: Records(groups, h) <==> Records(before, h) || h in FoundOpen(properties, at, owner, match_)
    decreases properties, 0
  {
    groups := before;
    var pending := Steps(properties);
    while pending != {}
      invariant pending <= Steps(properties)
      invariant forall h :: Records(groups, h) <==>
                  (Records(before, h) ||
                   exists t :: t in Steps(properties) && t !in pending &&
                               h in FoundAt(Child(properties, t), at + [t], owner, t.key, match_))
    {
      var t :| t in pending;
      pending := pending - {t};
      groups := Visit(Child(properties, t), at + [t], owner, t.key, match_, groups);
    }
  }

  method Visit(node: Json, at: Place, owner: string, property: string, match_: Matcher, before: Groups)
    returns (groups: Groups)
    ensures forall h :: Records(groups, h) <==> Records(before, h) || h in FoundAt(node, at, owner, property, match_)
    decreases node, 2
  {
    groups := before;
    if Matched(node, match_) {
      groups := Recorded(groups, Hit(match_(node.fields).value, Occurrence(at, owner, property)));
    } else if Container(node) {
      groups := Collect(node, at, owner, property, match_, groups);
    }
  }

  // Where the collected nodes are

  ghost predicate Placed(j: Json, at: Place, match_: Matcher, h: Hit) {
    var p := h.occurrence.place;
    at <= p && ObjectAt(j, p[|at|..]) && match_(FieldsAt(j, p[|at|..])) == Some(h.group)
  }

  lemma PlacedBelow(j: Json, s: Step, at: Place, match_: Matcher, h: Hit)
    requires s in Steps(j) && Placed(Child(j, s), at + [s], match_, h)
    ensures Placed(j, at, match_, h) && |h.occurrence.place| > |at| && h.occurrence.place[|at|] == s
  {
    var p := h.occurrence.place;
    assert p[|at|..][1..] == p[|at + [s]|..];
    assert p[|at|] == (at + [s])[|at|];
    AtStep(j, p[|at|..]);
  }

  lemma {:induction false} FoundArePlaced(j: Json, at: Place, owner: string, property: string, match_: Matcher, h: Hit)
    requires h in Found(j, at, owner, property, match_)
    ensures Placed(j, at, match_, h) && |h.occurrence.place| > |at|
    decreases j, 1
  {
    var s :| s in Steps(j) && h in FoundBelow(j, s, at, owner, property, match_);
    var _ := FoundBelowIsPlaced(j, s, at, owner, property, match_, h);
  }

  lemma {:induction false} FoundBelowIsPlaced(j: Json, s: Step, at: Place, owner: string, property: string,
                                              match_: Matcher, h: Hit)
    returns (child: Json)
    requires s in Steps(j) && h in FoundBelow(j, s, at, owner, property, match_)
    ensures child == Child(j, s) && Placed(child, at + [s], match_, h)
    ensures Placed(j, at, match_, h) && |h.occurrence.place| > |at| && h.occurrence.place[|at|] == s
    decreases j, 0
  {
    child := Child(j, s);
    if Opens(j, s) {
      var t :| t in Steps(child) && h in FoundAt(Child(child, t), at + [s] + [t], owner, t.key, match_);
      FoundAtIsPlaced(Child(child, t), at + [s] + [t], owner, t.key, match_, h);
      PlacedBelow(child, t, at + [s], match_, h);
    } else {
      FoundAtIsPlaced(child, at + [s], owner, property, match_, h);
    }
    PlacedBelow(j, s, at, match_, h);
  }

  lemma {:induction false} FoundAtIsPlaced(node: Json, at: Place, owner: string, property: string, match_: Matcher,
                                           h: Hit)
    requires h in FoundAt(node, at, owner, property, match_)
    ensures Placed(node, at, match_, h)
    decreases node, 2
  {
    if !Matched(node, match_) {
      FoundArePlaced(node, at, owner, property, match_, h);
    }
  }

  /** No collected node lies inside another. */
  lemma {:induction false} FoundAreApart(j: Json, at: Place, owner: string, property: string, match_: Matcher, g: Hit,
                                         h: Hit)
    requires g in Found(j, at, owner, property, match_) && h in Found(j, at, owner, property, match_)
    requires g.occurrence.place <= h.occurrence.place
    ensures g == h
    decreases j, 1
  {
    var s :| s in Steps(j) && g in FoundBelow(j, s, at, owner, property, match_);
    var t :| t in Steps(j) && h in FoundBelow(j, t, at, owner, property, match_);
    var child := FoundBelowIsPlaced(j, s, at, owner, property, match_, g);
    var _ := FoundBelowIsPlaced(j, t, at, owner, property, match_, h);
    assert g.occurrence.place[|at|] == h.occurrence.place[|at|];
    if Opens(j, s) {
      OpenAreApart(child, at + [s], owner, match_, g, h);
    } else {
      FoundAtAreApart(child, at + [s], owner, property, match_, g, h);
    }
  }

  lemma {:induction false} OpenAreApart(j: Json, at: Place, owner: string, match_: Matcher, g: Hit, h: Hit)
    requires j.Obj? && g in FoundOpen(j, at, owner, match_) && h in FoundOpen(j, at, owner, match_)
    requires g.occurrence.place <= h.occurrence.place
    ensures g == h
    decreases j, 0
  {
    var s :| s in Steps(j) && g in FoundAt(Child(j, s), at + [s], owner, s.key, match_);
    var t :| t in Steps(j) && h in FoundAt(Child(j, t), at + [t], owner, t.key, match_);
    FoundAtIsPlaced(Child(j, s), at + [s], owner, s.key, match_, g);
    FoundAtIsPlaced(Child(j, t), at + [t], owner, t.key, match_, h);
    PlacedBelow(j, s, at, match_, g);
    PlacedBelow(j, t, at, match_, h);
    assert g.occurrence.place[|at|] == h.occurrence.place[|at|];
    FoundAtAreApart(Child(j, s), at + [s], owner, s.key, match_, g, h);
  }

  lemma {:induction false} FoundAtAreApart(node: Json, at: Place, owner: string, property: string, match_: Matcher,
                                           g: Hit, h: Hit)
    requires g in FoundAt(node, at, owner, property, match_) && h in FoundAt(node, at, owner, property, match_)
    requires g.occurrence.place <= h.occurrence.place
    ensures g == h
    decreases node, 2
  {
    if !Matched(node, match_) {
      FoundAreApart(node, at, owner, property, match_, g, h);
    }
  }

  function PlacesOf(occurrences: set<Occurrence>): set<Place> {
    set o | o in occurrences :: o.place
  }

  ghost predicate WellPlaced(doc: Document, match_: Matcher, h: Hit) {
    var p := h.occurrence.place;
    && |p| >= 2 && ObjectAt(Obj(doc), p) && p[0].Key? && p[0].key in doc
    && match_(FieldsAt(Obj(doc), p)) == Some(h.group)
  }

  lemma FoundInIsPlaced(doc: Document, match_: Matcher, h: Hit) returns (k: string)
    requires h in FoundIn(doc, match_)
    ensures WellPlaced(doc, match_, h)
    ensures k in doc && h.occurrence.place[0] == Key(k) && h in Found(doc[k], [Key(k)], TitleOf(k, doc[k]), "", match_)
  {
    k :| k in doc && Container(doc[k]) && h in Found(doc[k], [Key(k)], TitleOf(k, doc[k]), "", match_);
    FoundArePlaced(doc[k], [Key(k)], TitleOf(k, doc[k]), "", match_, h);
    assert Key(k) in Steps(Obj(doc)) && Child(Obj(doc), Key(k)) == doc[k];
    var root: Place := [];
    assert root + [Key(k)] == [Key(k)];
    PlacedBelow(Obj(doc), Key(k), root, match_, h);
    assert h.occurrence.place[|root|..] == h.occurrence.place;
  }

  lemma FoundInAreApart(doc: Document, match_: Matcher, g: Hit, h: Hit)
    requires g in FoundIn(doc, match_) && h in FoundIn(doc, match_) && g != h
    ensures Apart(g.occurrence.place, h.occurrence.place)
  {
    var k := FoundInIsPlaced(doc, match_, g);
    var l := FoundInIsPlaced(doc, match_, h);
    var p, q := g.occurrence.place, h.occurrence.place;
    if p <= q {
      FoundAreApart(doc[k], [Key(k)], TitleOf(k, doc[k]), "", match_, g, h);
    } else if q <= p {
      FoundAreApart(doc[k], [Key(k)], TitleOf(k, doc[k]), "", match_, h, g);
    }
  }
}

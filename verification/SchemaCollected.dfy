/** What the hoister collects, told from the places of a document alone. packages/client/utils/hoist-util.ts */
module SchemaCollected {
  import opened Options
  import opened Schemas
  import opened SchemaInline
  import opened SchemaTitles
  import opened SchemaHoist

  /** The place of a `properties` object whose keys name schemas. One directly inside such an object is the
      schema of a property of that name. */
  ghost predicate Names(root: Json, p: Place)
    decreases |p|
  {
    |p| >= 2 && p[|p| - 1] == Key("properties") && ObjectAt(root, p) && !Names(root, p[..|p| - 1])
  }

  /** The property a place lies in, by the last name a `properties` object gives on the way. */
  ghost function PropertyAt(root: Json, p: Place): string
    decreases |p|
  {
    if |p| <= 1 then ""
    else if Names(root, p[..|p| - 1]) && p[|p| - 1].Key? then p[|p| - 1].key
    else PropertyAt(root, p[..|p| - 1])
  }

  ghost predicate Accepts(root: Json, match_: Matcher, p: Place) {
    |p| >= 2 && ObjectAt(root, p) && match_(FieldsAt(root, p)).Some? && !Names(root, p)
  }

  ghost function OwnerOf(definition: Json, key: string): string {
    if definition.Obj? && "title" in definition.fields && definition.fields["title"].Str?
    then definition.fields["title"].text else key
  }

  /** The hit is an accepted node, with its group and property, inside no accepted node that begins at the
      given depth or below it. */
  ghost predicate Outermost(root: Json, match_: Matcher, depth: nat, h: Hit) {
    var p := h.occurrence.place;
    && Accepts(root, match_, p) && match_(FieldsAt(root, p)) == Some(h.group)
    && h.occurrence.property == PropertyAt(root, p)
    && forall n :: depth <= n < |p| ==> !Accepts(root, match_, p[..n])
  }

  lemma {:induction false} AtSplit(j: Json, p: Place, q: Place)
    ensures At(j, p + q) == if At(j, p).Some? then At(At(j, p).value, q) else None
    decreases |p|
  {
    if p == [] {
      assert p + q == q;
    } else {
      assert (p + q)[1..] == p[1..] + q;
      if p[0] in Steps(j) {
        AtSplit(Child(j, p[0]), p[1..], q);
      }
    }
  }

  lemma AtChild(root: Json, at: Place, j: Json, s: Step)
    requires At(root, at) == Some(j) && s in Steps(j)
    ensures At(root, at + [s]) == Some(Child(j, s))
  {
    AtSplit(root, at, [s]);
    assert [s][1..] == [];
    assert At(Child(j, s), []) == Some(Child(j, s));
  }

  /** The next step on the way from a node to a place inside it. */
  lemma NextStep(root: Json, at: Place, j: Json, p: Place)
    requires At(root, at) == Some(j) && at < p && At(root, p).Some?
    ensures p[|at|] in Steps(j) && at + [p[|at|]] <= p
  {
    hide At, Steps;
    var q := NextPrefix(at, p);
    StepAfter(root, at, j, q);
  }

  lemma NextPrefix(at: Place, p: Place) returns (q: Place)
    requires at < p
    ensures p == at + q && q != [] && q[0] == p[|at|] && at + [p[|at|]] <= p
  {
    q := p[|at|..];
    assert at == p[..|at|];
  }

  lemma StepAfter(root: Json, at: Place, j: Json, q: Place)
    requires At(root, at) == Some(j) && q != [] && At(root, at + q).Some?
    ensures q[0] in Steps(j)
  {
    AtSplit(root, at, q);
    FirstStep(j, q);
  }

  lemma FirstStep(j: Json, q: Place)
    requires q != [] && At(j, q).Some?
    ensures q[0] in Steps(j)
  {}

  lemma ChildKind(root: Json, at: Place, j: Json, s: Step)
    requires At(root, at) == Some(j) && s in Steps(j) && |at| >= 1 && !Names(root, at)
    ensures Names(root, at + [s]) <==> Opens(j, s)
    ensures PropertyAt(root, at + [s]) == PropertyAt(root, at)
  {
    AtChild(root, at, j, s);
    assert (at + [s])[..|at|] == at;
  }

  lemma NamedKind(root: Json, at: Place, j: Json, t: Step)
    requires At(root, at) == Some(j) && j.Obj? && t in Steps(j) && |at| >= 2 && Names(root, at)
    ensures !Names(root, at + [t]) && PropertyAt(root, at + [t]) == t.key
  {
    assert (at + [t])[..|at|] == at;
  }

  lemma {:induction false} FoundExactly(root: Json, j: Json, at: Place, owner: string, property: string,
                                        match_: Matcher, h: Hit)
    requires At(root, at) == Some(j) && |at| >= 1 && !Names(root, at) && property == PropertyAt(root, at)
    ensures h in Found(j, at, owner, property, match_) <==>
            at < h.occurrence.place && h.occurrence.owner == owner && Outermost(root, match_, |at| + 1, h)
    decreases j, 1
  {
    hide At, Names, PropertyAt, Outermost, FoundBelow;
    var p := h.occurrence.place;
    forall s | s in Steps(j)
      ensures h in FoundBelow(j, s, at, owner, property, match_) <==>
              at + [s] <= p && h.occurrence.owner == owner && Outermost(root, match_, |at| + 1, h)
    {
      FoundBelowExactly(root, j, s, at, owner, property, match_, h);
    }
    if at < p && Outermost(root, match_, |at| + 1, h) {
      OutermostIsThere(root, match_, |at| + 1, h);
      NextStep(root, at, j, p);
    }
  }

  lemma OutermostIsThere(root: Json, match_: Matcher, depth: nat, h: Hit)
    requires Outermost(root, match_, depth, h)
    ensures At(root, h.occurrence.place).Some? && At(root, h.occurrence.place).value.Obj?
    ensures !Names(root, h.occurrence.place)
  {}

  lemma PrefixCases(at: Place, p: Place)
    requires at <= p
    ensures at == p || at < p
  {}

  /** Nothing lies inside a node that holds no others, and such a node is not collected itself. */
  lemma NoneInLeaf(root: Json, at: Place, j: Json, match_: Matcher, depth: nat, h: Hit)
    requires At(root, at) == Some(j) && !Container(j)
    ensures !(at <= h.occurrence.place && Outermost(root, match_, depth, h))
  {
    hide Names, PropertyAt, Accepts;
    var p := h.occurrence.place;
    if at <= p && Outermost(root, match_, depth, h) {
      OutermostIsThere(root, match_, depth, h);
      PrefixCases(at, p);
      if at != p {
        NextStep(root, at, j, p);
      }
    }
  }

  lemma {:induction false} FoundBelowExactly(root: Json, j: Json, s: Step, at: Place, owner: string, property: string,
                                             match_: Matcher, h: Hit)
    requires At(root, at) == Some(j) && |at| >= 1 && !Names(root, at) && property == PropertyAt(root, at)
    requires s in Steps(j)
    ensures h in FoundBelow(j, s, at, owner, property, match_) <==>
            at + [s] <= h.occurrence.place && h.occurrence.owner == owner && Outermost(root, match_, |at| + 1, h)
    decreases j, 0
  {
    hide At, Names, PropertyAt, Outermost, FoundAt, FoundOpen;
    var child := Child(j, s);
    AtChild(root, at, j, s);
    ChildKind(root, at, j, s);
    if !Container(child) {
      NoneInLeaf(root, at + [s], child, match_, |at| + 1, h);
    } else if Opens(j, s) {
      FoundOpenExactly(root, child, at + [s], owner, match_, h);
    } else {
      FoundAtExactly(root, child, at + [s], owner, property, match_, h);
    }
  }

  lemma NamesIsSkipped(root: Json, match_: Matcher, at: Place, h: Hit)
    requires Names(root, at) && at <= h.occurrence.place
    ensures Outermost(root, match_, |at|, h) <==> Outermost(root, match_, |at| + 1, h)
  {
    hide Names, PropertyAt, At;
    assert h.occurrence.place[..|at|] == at;
  }

  lemma {:induction false} FoundOpenExactly(root: Json, j: Json, at: Place, owner: string, match_: Matcher, h: Hit)
    requires j.Obj? && At(root, at) == Some(j) && |at| >= 2 && Names(root, at)
    ensures h in FoundOpen(j, at, owner, match_) <==>
            at <= h.occurrence.place && h.occurrence.owner == owner && Outermost(root, match_, |at|, h)
    decreases j, 0
  {
    hide At, Names, PropertyAt, Outermost, FoundAt;
    var p := h.occurrence.place;
    forall t | t in Steps(j)
      ensures h in FoundAt(Child(j, t), at + [t], owner, t.key, match_) <==>
              at + [t] <= p && h.occurrence.owner == owner && Outermost(root, match_, |at| + 1, h)
    {
      AtChild(root, at, j, t);
      NamedKind(root, at, j, t);
      FoundAtExactly(root, Child(j, t), at + [t], owner, t.key, match_, h);
    }
    if at <= p {
      NamesIsSkipped(root, match_, at, h);
      if Outermost(root, match_, |at|, h) {
        OutermostIsThere(root, match_, |at|, h);
        assert p != at;
        NextStep(root, at, j, p);
      }
    }
  }

  lemma AcceptedIs(root: Json, at: Place, node: Json, match_: Matcher)
    requires At(root, at) == Some(node) && |at| >= 2 && !Names(root, at)
    ensures Accepts(root, match_, at) <==> Matched(node, match_)
  {}

  lemma {:induction false} FoundAtExactly(root: Json, node: Json, at: Place, owner: string, property: string,
                                          match_: Matcher, h: Hit)
    requires At(root, at) == Some(node) && |at| >= 2 && !Names(root, at) && property == PropertyAt(root, at)
    ensures h in FoundAt(node, at, owner, property, match_) <==>
            at <= h.occurrence.place && h.occurrence.owner == owner && Outermost(root, match_, |at|, h)
    decreases node, 2
  {
    hide Names, PropertyAt, Accepts, Found;
    var p := h.occurrence.place;
    AcceptedIs(root, at, node, match_);
    assert at <= p ==> p[..|at|] == at;
    if Matched(node, match_) {
      AcceptedHit(root, at, node, owner, property, match_, h);
    } else {
      OutermostInside(root, match_, at, h);
      if Container(node) {
        FoundExactly(root, node, at, owner, property, match_, h);
      } else {
        NoneInLeaf(root, at, node, match_, |at|, h);
      }
    }
  }

  lemma AcceptedHit(root: Json, at: Place, node: Json, owner: string, property: string, match_: Matcher, h: Hit)
    requires At(root, at) == Some(node) && |at| >= 2 && !Names(root, at) && property == PropertyAt(root, at)
    requires Matched(node, match_)
    ensures h == Hit(match_(node.fields).value, Occurrence(at, owner, property)) <==>
            at <= h.occurrence.place && h.occurrence.owner == owner && Outermost(root, match_, |at|, h)
  {
    hide Names, PropertyAt;
    var p := h.occurrence.place;
    AcceptedIs(root, at, node, match_);
    if at < p {
      assert p[..|at|] == at;
    }
    if p == at {
      assert h == Hit(h.group, Occurrence(p, h.occurrence.owner, h.occurrence.property));
    }
  }

  lemma OutermostInside(root: Json, match_: Matcher, at: Place, h: Hit)
    requires !Accepts(root, match_, at)
    ensures at <= h.occurrence.place && Outermost(root, match_, |at|, h) <==>
            at < h.occurrence.place && Outermost(root, match_, |at| + 1, h)
  {
    hide Accepts, PropertyAt;
    var p := h.occurrence.place;
    if at < p {
      assert p[..|at|] == at;
    } else if at <= p {
      assert p == at;
    }
  }

  /** What is collected: exactly the accepted nodes below the definitions that lie in no other accepted node,
      each with its group, the title of its definition, and the property it lies in. */
  lemma CollectedExactly(doc: Document, match_: Matcher, h: Hit)
    ensures h in FoundIn(doc, match_) <==>
            && Outermost(Obj(doc), match_, 2, h)
            && h.occurrence.owner == OwnerOf(doc[h.occurrence.place[0].key], h.occurrence.place[0].key)
  {
    hide At, Names, PropertyAt, Outermost, Found;
    var root, p := Obj(doc), h.occurrence.place;
    AtRoot(root);
    forall k | k in doc
      ensures h in Found(doc[k], [Key(k)], TitleOf(k, doc[k]), "", match_) <==>
              [Key(k)] < p && h.occurrence.owner == TitleOf(k, doc[k]) && Outermost(root, match_, 2, h)
    {
      DefinitionAt(doc, k);
      FoundExactly(root, doc[k], [Key(k)], TitleOf(k, doc[k]), "", match_, h);
    }
    forall k | k in doc && !Container(doc[k]) ensures !([Key(k)] < p && Outermost(root, match_, 2, h)) {
      DefinitionAt(doc, k);
      NoneInLeaf(root, [Key(k)], doc[k], match_, 2, h);
    }
    if Outermost(root, match_, 2, h) {
      OutermostIsThere(root, match_, 2, h);
      OutermostIsDeep(root, match_, 2, h);
      NextStep(root, [], root, p);
      assert [Key(p[0].key)] < p;
    }
  }

  lemma OutermostIsDeep(root: Json, match_: Matcher, depth: nat, h: Hit)
    requires Outermost(root, match_, depth, h)
    ensures |h.occurrence.place| >= 2
  {}

  lemma AtRoot(root: Json)
    ensures At(root, []) == Some(root)
  {}

  lemma DefinitionAt(doc: Document, k: string)
    requires k in doc
    ensures At(Obj(doc), [Key(k)]) == Some(doc[k]) && !Names(Obj(doc), [Key(k)]) && PropertyAt(Obj(doc), [Key(k)]) == ""
  {
    assert Key(k) in Steps(Obj(doc)) && Child(Obj(doc), Key(k)) == doc[k];
    assert [Key(k)][1..] == [];
    assert At(doc[k], []) == Some(doc[k]);
  }
}

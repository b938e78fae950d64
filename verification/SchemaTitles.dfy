/** References resolved to the titles of their definitions, and hoisting seen through them. */
module SchemaTitles {
  import opened Options
  import opened Schemas
  import opened SchemaInline

  type Titles = map<string, string>

  /** A reference without the first occurrence of the prefix in it. */
  function KeyOf(reference: string): string {
    if |reference| < |PREFIX| then reference
    else if reference[..|PREFIX|] == PREFIX then reference[|PREFIX|..]
    else [reference[0]] + KeyOf(reference[1..])
  }

  function ReferenceTitle(reference: string, titles: Titles): string {
    if KeyOf(reference) in titles then titles[KeyOf(reference)] else reference
  }

  function TitleOf(key: string, definition: Json): string {
    if definition.Obj? && "title" in definition.fields && definition.fields["title"].Str?
    then definition.fields["title"].text else key
  }

  function DefinitionTitles(doc: Document): Titles {
    map k | k in doc :: TitleOf(k, doc[k])
  }

  /** The value the signature of a schema serializes: the schema with its references resolved. */
  function Signature(j: Json, titles: Titles): Json {
    match j
    case Arr(items) => Arr(seq(|items|, i requires 0 <= i < |items| => Signature(items[i], titles)))
    case Obj(fields) =>
      Obj(map k | k in fields ::
            if k == "$ref" && fields[k].Str? then Str(ReferenceTitle(fields[k].text, titles))
            else Signature(fields[k], titles))
    case _ => j
  }

  function ResolveField(k: string, value: Json, titles: Titles): Json {
    if k == "$ref" && value.Str? then Str(ReferenceTitle(value.text, titles)) else Signature(value, titles)
  }

  function SignatureOf(fields: map<string, Json>, titles: Titles): map<string, Json> {
    map k | k in fields :: ResolveField(k, fields[k], titles)
  }

  ghost predicate Same(a: Document, b: Document, titles: Titles) {
    a.Keys == b.Keys && forall k :: k in a ==> Signature(a[k], titles) == Signature(b[k], titles)
  }

  /** A step hoisting nodes of one shape, which may differ in references to same-titled definitions. */
  ghost predicate ShapeStep(doc: Document, step: HoistStep) {
    var titles := DefinitionTitles(doc);
    && step.name !in doc && step.name !in titles.Values
    && Nodes(doc, step.places)
    && "title" !in step.content
    && (forall p :: p in step.places ==>
          SignatureOf(Structure(FieldsAt(Obj(doc), p)), titles) == SignatureOf(step.content, titles))
    && exists p :: p in step.places && Structure(FieldsAt(Obj(doc), p)) == step.content
  }

  ghost predicate PrefixAt(reference: string, i: nat) {
    i <= |reference| && PREFIX <= reference[i..]
  }

  lemma PrefixIsLater(reference: string, i: nat)
    requires reference != []
    ensures PrefixAt(reference[1..], i) <==> PrefixAt(reference, i + 1)
    ensures PrefixAt(reference, i) ==> i + |PREFIX| <= |reference|
  {
    if i < |reference| {
      assert reference[1..][i..] == reference[i + 1..];
    }
  }

  lemma KeyOfStep(reference: string)
    ensures PrefixAt(reference, 0) ==> |reference| >= |PREFIX| && KeyOf(reference) == reference[|PREFIX|..]
    ensures !PrefixAt(reference, 0) ==>
              KeyOf(reference) == reference ||
              (reference != [] && KeyOf(reference) == [reference[0]] + KeyOf(reference[1..]))
    ensures !PrefixAt(reference, 0) && |reference| >= |PREFIX| ==>
              reference != [] && KeyOf(reference) == [reference[0]] + KeyOf(reference[1..])
  {
    assert reference[0..] == reference;
  }

  /** The first prefix is taken out, wherever it is. */
  lemma {:induction false} KeyWithout(reference: string, at: nat)
    requires PrefixAt(reference, at) && forall i :: 0 <= i < at ==> !PrefixAt(reference, i)
    ensures at + |PREFIX| <= |reference| && KeyOf(reference) == reference[..at] + reference[at + |PREFIX|..]
  {
    hide PrefixAt, KeyOf;
    KeyOfStep(reference);
    PrefixFits(reference, at);
    if at > 0 {
      var rest := reference[1..];
      PrefixIsLater(reference, at - 1);
      forall i | 0 <= i < at - 1 ensures !PrefixAt(rest, i) {
        PrefixIsLater(reference, i);
      }
      KeyWithout(rest, at - 1);
      assert [reference[0]] + rest[..at - 1] == reference[..at];
      assert rest[at - 1 + |PREFIX|..] == reference[at + |PREFIX|..];
    } else {
      assert reference[..0] + reference[|PREFIX|..] == reference[|PREFIX|..];
    }
  }

  lemma PrefixFits(reference: string, at: nat)
    requires PrefixAt(reference, at)
    ensures at + |PREFIX| <= |reference|
  {}

  /** A reference without the prefix stays. */
  lemma {:induction false} KeyStays(reference: string)
    requires forall i :: 0 <= i < |reference| ==> !PrefixAt(reference, i)
    ensures KeyOf(reference) == reference
  {
    if reference != [] {
      forall i | 0 <= i < |reference| - 1 ensures !PrefixAt(reference[1..], i) {
        PrefixIsLater(reference, i);
      }
      KeyStays(reference[1..]);
      KeyOfStep(reference);
      assert [reference[0]] + reference[1..] == reference;
    }
  }

  lemma {:induction false} KeyOfReference(name: string)
    ensures KeyOf(PREFIX + name) == name
  {
    assert (PREFIX + name)[..|PREFIX|] == PREFIX;
    assert (PREFIX + name)[|PREFIX|..] == name;
  }

  lemma {:induction false} SignatureRefs(j: Json, titles: Titles, r: string)
    requires r in Refs(j)
    ensures ReferenceTitle(r, titles) in Refs(Signature(j, titles))
  {
    match j
    case Arr(items) =>
      var i :| 0 <= i < |items| && r in Refs(items[i]);
      SignatureRefs(items[i], titles, r);
      assert Signature(j, titles).items[i] == Signature(items[i], titles);
    case Obj(fields) =>
      if !("$ref" in fields && fields["$ref"] == Str(r)) {
        var k :| k in fields && r in Refs(fields[k]);
        SignatureRefs(fields[k], titles, r);
        assert Signature(j, titles).fields[k] == ResolveField(k, fields[k], titles);
      }
    case _ =>
  }

  /** Resolving references does not see a new definition nothing refers to. */
  lemma {:induction false} SignatureStable(j: Json, titles: Titles, name: string)
    requires name !in titles
    requires forall r :: r in Refs(j) ==> ReferenceTitle(r, titles[name := name]) != name
    ensures Signature(j, titles[name := name]) == Signature(j, titles)
  {
    var wider := titles[name := name];
    match j
    case Arr(items) =>
      forall i | 0 <= i < |items| ensures Signature(items[i], wider) == Signature(items[i], titles) {
        RefsOfItem(items, i);
        SignatureStable(items[i], titles, name);
      }
      assert Signature(j, wider).items == Signature(j, titles).items;
    case Obj(fields) =>
      forall k | k in fields ensures ResolveField(k, fields[k], wider) == ResolveField(k, fields[k], titles) {
        RefsOfField(fields, k);
        if k == "$ref" && fields[k].Str? {
          assert fields[k].text in Refs(j);
        } else {
          SignatureStable(fields[k], titles, name);
        }
      }
      assert Signature(j, wider).fields == Signature(j, titles).fields;
    case _ =>
  }

  lemma RefsOfItem(items: seq<Json>, i: nat)
    requires i < |items|
    ensures Refs(items[i]) <= Refs(Arr(items))
  {}

  lemma RefsOfField(fields: map<string, Json>, k: string)
    requires k in fields
    ensures Refs(fields[k]) <= Refs(Obj(fields))
  {}

  lemma SignatureOfParts(fields: map<string, Json>, body: map<string, Json>, titles: Titles)
    ensures Signature(Obj(Annotations(fields) + body), titles) ==
            Obj(Annotations(SignatureOf(fields, titles)) + SignatureOf(body, titles))
  {
    hide Signature, SignatureOf, Annotations;
    SignatureOfBoth(fields, body, titles);
    SignatureFields(Annotations(fields) + body, titles);
  }

  lemma SignatureParts(fields: map<string, Json>, titles: Titles)
    ensures Annotations(SignatureOf(fields, titles)) + SignatureOf(Structure(fields), titles) ==
            SignatureOf(fields, titles)
  {}

  lemma SignatureFields(fields: map<string, Json>, titles: Titles)
    ensures Signature(Obj(fields), titles) == Obj(SignatureOf(fields, titles))
  {}

  lemma SignatureOfBoth(fields: map<string, Json>, body: map<string, Json>, titles: Titles)
    ensures SignatureOf(Annotations(fields) + body, titles) ==
            Annotations(SignatureOf(fields, titles)) + SignatureOf(body, titles)
  {
    hide ResolveField;
  }

  /** Inlining commutes with resolving when only one reference stands for the title. */
  lemma {:induction false} InlineSignature(j: Json, titles: Titles, name: string, body: map<string, Json>)
    requires ReferenceTitle(PREFIX + name, titles) == name
    requires forall r :: r in Refs(j) && ReferenceTitle(r, titles) == name ==> r == PREFIX + name
    ensures Signature(Inline(j, PREFIX + name, body), titles) ==
            Inline(Signature(j, titles), name, SignatureOf(body, titles))
    decreases j, 1
  {
    hide Signature, Inline, SignatureOf, Refers, ReferenceTitle, Refs, Annotations;
    match j
    case Arr(items) =>
      InlineItemsSignature(items, titles, name, body);
    case Obj(fields) =>
      ReferringAlike(fields, titles, name);
      if Refers(fields, PREFIX + name) {
        SignatureOfParts(fields, body, titles);
        SignatureFields(fields, titles);
        InlineReferring(fields, PREFIX + name, body);
        InlineReferring(SignatureOf(fields, titles), name, SignatureOf(body, titles));
      } else {
        InlineFieldsSignature(fields, titles, name, body);
      }
    case _ =>
      InlineLeafSignature(j, titles, name, body);
  }

  lemma InlineLeafSignature(j: Json, titles: Titles, name: string, body: map<string, Json>)
    requires !j.Arr? && !j.Obj?
    ensures Signature(Inline(j, PREFIX + name, body), titles) ==
            Inline(Signature(j, titles), name, SignatureOf(body, titles))
  {}

  lemma SignatureItems(items: seq<Json>, titles: Titles)
    ensures Signature(Arr(items), titles) ==
            Arr(seq(|items|, i requires 0 <= i < |items| => Signature(items[i], titles)))
  {}

  lemma InlineItemsOf(items: seq<Json>, target: string, body: map<string, Json>)
    ensures Inline(Arr(items), target, body) ==
            Arr(seq(|items|, i requires 0 <= i < |items| => Inline(items[i], target, body)))
  {}

  lemma {:induction false} InlineItemsSignature(items: seq<Json>, titles: Titles, name: string, body: map<string, Json>)
    requires ReferenceTitle(PREFIX + name, titles) == name
    requires forall r :: r in Refs(Arr(items)) && ReferenceTitle(r, titles) == name ==> r == PREFIX + name
    ensures Signature(Inline(Arr(items), PREFIX + name, body), titles) ==
            Inline(Signature(Arr(items), titles), name, SignatureOf(body, titles))
    decreases Arr(items), 0
  {
    hide Signature, Inline, SignatureOf, ReferenceTitle, Refs;
    var inlined := seq(|items|, i requires 0 <= i < |items| => Inline(items[i], PREFIX + name, body));
    var signed := seq(|items|, i requires 0 <= i < |items| => Signature(items[i], titles));
    InlineItemsOf(items, PREFIX + name, body);
    SignatureItems(inlined, titles);
    SignatureItems(items, titles);
    InlineItemsOf(signed, name, SignatureOf(body, titles));
    var left := seq(|inlined|, i requires 0 <= i < |inlined| => Signature(inlined[i], titles));
    var right := seq(|signed|, i requires 0 <= i < |signed| => Inline(signed[i], name, SignatureOf(body, titles)));
    forall i | 0 <= i < |items| ensures left[i] == right[i] {
      RefsOfItem(items, i);
      InlineSignature(items[i], titles, name, body);
    }
    assert left == right;
  }

  lemma TextStaysText(j: Json, titles: Titles, target: string, body: map<string, Json>)
    ensures Signature(j, titles).Str? <==> j.Str?
    ensures Inline(j, target, body).Str? <==> j.Str?
    ensures j.Str? ==> Inline(j, target, body) == j
  {}

  lemma ReferringAlike(fields: map<string, Json>, titles: Titles, name: string)
    requires ReferenceTitle(PREFIX + name, titles) == name
    requires forall r :: r in Refs(Obj(fields)) && ReferenceTitle(r, titles) == name ==> r == PREFIX + name
    ensures Refers(fields, PREFIX + name) <==> Refers(SignatureOf(fields, titles), name)
  {
    if "$ref" in fields {
      TextStaysText(fields["$ref"], titles, name, map[]);
      if fields["$ref"].Str? {
        assert fields["$ref"].text in Refs(Obj(fields));
      }
    }
  }

  lemma {:induction false} InlineFieldsSignature(fields: map<string, Json>, titles: Titles, name: string,
                                                 body: map<string, Json>)
    requires ReferenceTitle(PREFIX + name, titles) == name
    requires forall r :: r in Refs(Obj(fields)) && ReferenceTitle(r, titles) == name ==> r == PREFIX + name
    requires !Refers(fields, PREFIX + name) && !Refers(SignatureOf(fields, titles), name)
    ensures Signature(Inline(Obj(fields), PREFIX + name, body), titles) ==
            Inline(Signature(Obj(fields), titles), name, SignatureOf(body, titles))
    decreases Obj(fields), 0
  {
    hide Signature, Inline, SignatureOf, ReferenceTitle, Refs, Refers, ResolveField;
    var inlined := map k | k in fields :: Inline(fields[k], PREFIX + name, body);
    var signed, content := SignatureOf(fields, titles), SignatureOf(body, titles);
    InlineObject(fields, PREFIX + name, body);
    SignatureFields(inlined, titles);
    SignatureFields(fields, titles);
    InlineObject(signed, name, content);
    SignatureKeys(fields, titles);
    SignatureKeys(inlined, titles);
    var left, right := SignatureOf(inlined, titles), map k | k in signed :: Inline(signed[k], name, content);
    forall k | k in fields ensures left[k] == right[k] {
      RefsOfField(fields, k);
      InlineSignature(fields[k], titles, name, body);
      FieldInlined(k, fields[k], titles, name, body);
    }
    assert Inline(Obj(fields), PREFIX + name, body).fields == inlined;
    assert Inline(Obj(signed), name, content).fields == right;
    assert left == right;
  }

  lemma SignatureKeys(fields: map<string, Json>, titles: Titles)
    ensures SignatureOf(fields, titles).Keys == fields.Keys
    ensures forall k :: k in fields ==> SignatureOf(fields, titles)[k] == ResolveField(k, fields[k], titles)
  {}

  lemma FieldInlined(k: string, value: Json, titles: Titles, name: string, body: map<string, Json>)
    requires Signature(Inline(value, PREFIX + name, body), titles) ==
             Inline(Signature(value, titles), name, SignatureOf(body, titles))
    ensures ResolveField(k, Inline(value, PREFIX + name, body), titles) ==
            Inline(ResolveField(k, value, titles), name, SignatureOf(body, titles))
  {
    TextStaysText(value, titles, PREFIX + name, body);
  }
}

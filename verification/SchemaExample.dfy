/** A document that hoisting and inlining do not give back. packages/client/utils/hoist-util.ts */
module SchemaExample {
  import opened Options
  import opened Schemas
  import opened SchemaInline
  import opened SchemaTitles
  import opened SchemaRoundTrip
  import opened SchemaNames
  import opened SchemaOwnTitles
  import opened SchemaHoist
  import opened SchemaHoister

  const STATUS := map["title" := Str("PostStatus"), "enum" := Arr([Str("draft"), Str("public")])]

  function Declaring(): Json {
    Obj(map["properties" := Obj(map["status" := Obj(STATUS)])])
  }

  /** Names the enum as its title does: by what the names of its owners have in common and the property. */
  function Resolver(): NameResolver {
    (content: map<string, Json>, occurrences: set<Occurrence>) => if content == STATUS then Some("PostStatus") else None
  }

  /** Two definitions that repeat an enum titled as it is to be named: by what their names have in common
      and the property. */
  const POSTS: Document := map["PostCreate" := Declaring(), "PostSingle" := Declaring()]

  function StatusOf(name: string): Place {
    [Key(name), Key("properties"), Key("status")]
  }

  function HoistStatus(): HoistStep {
    HoistStep("PostStatus", {StatusOf("PostCreate"), StatusOf("PostSingle")}, STATUS)
  }

  lemma StatusIsThere(name: string)
    requires name in POSTS
    ensures At(Obj(POSTS), StatusOf(name)) == Some(Obj(STATUS))
  {
    var p := StatusOf(name);
    assert p[1..] == [Key("properties"), Key("status")] && p[1..][1..] == [Key("status")] && p[1..][1..][1..] == [];
    assert At(Obj(STATUS), []) == Some(Obj(STATUS));
    assert At(Obj(map["status" := Obj(STATUS)]), [Key("status")]) == Some(Obj(STATUS));
    assert At(Declaring(), p[1..]) == Some(Obj(STATUS));
    assert Key(name) in Steps(Obj(POSTS)) && Child(Obj(POSTS), Key(name)) == Declaring();
  }

  lemma NoReferences(j: Json)
    requires j == Declaring()
    ensures Refs(j) == {}
  {
    assert Refs(Str("PostStatus")) == {} && Refs(Str("draft")) == {} && Refs(Str("public")) == {};
    assert Refs(STATUS["enum"]) == {};
    assert Refs(Obj(STATUS)) == {};
    assert Refs(Obj(map["status" := Obj(STATUS)])) == {};
  }

  // What the hoister makes of the document

  function StatusAt(at: Place, owner: string): Hit {
    Hit(Obj(STATUS), Occurrence(at + [Key("properties")] + [Key("status")], owner, "status"))
  }

  lemma StatusMatches(at: Place, owner: string)
    ensures FoundAt(Obj(STATUS), at, owner, "status", EnumMatcher()) ==
            {Hit(Obj(STATUS), Occurrence(at, owner, "status"))}
  {
    NoAnnotations();
  }

  lemma StatusIsOpen(at: Place, owner: string)
    ensures var properties := Obj(map["status" := Obj(STATUS)]);
            FoundOpen(properties, at, owner, EnumMatcher()) ==
            {Hit(Obj(STATUS), Occurrence(at + [Key("status")], owner, "status"))}
  {
    hide EnumMatcher, FoundAt;
    var properties := Obj(map["status" := Obj(STATUS)]);
    StatusMatches(at + [Key("status")], owner);
    assert Steps(properties) == {Key("status")};
    assert Child(properties, Key("status")) == Obj(STATUS);
  }

  lemma StatusIsFound(at: Place, owner: string, property: string)
    ensures Found(Declaring(), at, owner, property, EnumMatcher()) == {StatusAt(at, owner)}
  {
    hide EnumMatcher, FoundOpen;
    StatusIsOpen(at + [Key("properties")], owner);
    assert Steps(Declaring()) == {Key("properties")};
    assert Child(Declaring(), Key("properties")) == Obj(map["status" := Obj(STATUS)]);
    assert FoundBelow(Declaring(), Key("properties"), at, owner, property, EnumMatcher()) == {StatusAt(at, owner)};
  }

  lemma PostsAreFound()
    ensures FoundIn(POSTS, EnumMatcher()) ==
            {StatusAt([Key("PostCreate")], "PostCreate"), StatusAt([Key("PostSingle")], "PostSingle")}
  {
    hide EnumMatcher, Found;
    forall k | k in POSTS
      ensures Found(POSTS[k], [Key(k)], TitleOf(k, POSTS[k]), "", EnumMatcher()) == {StatusAt([Key(k)], k)}
    {
      StatusIsFound([Key(k)], k, "");
    }
    assert POSTS.Keys == {"PostCreate", "PostSingle"};
  }

  lemma PlaceIs(name: string)
    ensures [Key(name)] + [Key("properties")] + [Key("status")] == StatusOf(name)
  {}

  /** The step is the one hoisting makes: of all occurrences of the enum, under the name it resolves to. */
  lemma StatusIsGroup()
    ensures IsGroup(POSTS, Resolver(), HoistStatus())
  {
    hide EnumMatcher, FoundIn;
    PostsAreFound();
    var create, single := StatusAt([Key("PostCreate")], "PostCreate"), StatusAt([Key("PostSingle")], "PostSingle");
    var occurrences := GroupOf(POSTS, EnumMatcher(), Obj(STATUS));
    assert occurrences == {create.occurrence, single.occurrence};
    assert create.occurrence != single.occurrence;
    PlaceIs("PostCreate");
    PlaceIs("PostSingle");
    assert PlacesOf(occurrences) == {create.occurrence.place, single.occurrence.place};
  }

  lemma StatusIsTitled(taken: set<string>)
    requires "PostStatus" !in taken
    ensures TitledGroup(POSTS, taken, Resolver(), STATUS) && NamesGroupsApart(POSTS, Resolver())
  {
    hide GroupOf, EnumMatcher, PlacesOf;
    StatusIsGroup();
  }

  /** Hoisting the enums of the document in place, and inlining them again, does not give it back. */
  method HoistPosts() returns (hoister: Hoister, names: seq<string>, ghost steps: seq<HoistStep>)
    ensures fresh(hoister) && names == NamesOf(steps) && UndoAll(hoister.definitions, steps) != POSTS
  {
    hide UndoAll, NoDangling, NamesGroupsApart, TitledGroup;
    hoister := new Hoister(POSTS);
    assert "PostStatus" !in hoister.takenNames by { PostTitles(); }
    PostsRefer();
    StatusIsTitled(hoister.takenNames);
    names, steps := hoister.HoistEnums(Resolver());
  }

  lemma PostTitles()
    ensures "PostStatus" !in POSTS.Keys + DefinitionTitles(POSTS).Values
  {}

  /** Inlining the hoisted enum again leaves out the title that its two nodes had of their own. */
  lemma TitledEnumIsLost()
    ensures IsGroup(POSTS, Resolver(), HoistStatus())
    ensures NoDangling(POSTS) && ExactRun(POSTS, [HoistStatus()])
    ensures UndoAll(ApplyAll(POSTS, [HoistStatus()]), [HoistStatus()]) != POSTS
  {
    hide UndoAll, ApplyAll, ExactRun, NoDangling, NoOwnTitle, IsGroup;
    StatusIsGroup();
    PostsRun();
    PostsRefer();
    assert !NoOwnTitle([HoistStatus()]) by { PostsTitle(); }
    RunGivesBackExactly(POSTS, [HoistStatus()]);
  }

  lemma PostsRun()
    ensures ExactRun(POSTS, [HoistStatus()])
  {
    hide At, Structure;
    StatusIsThere("PostCreate");
    StatusIsThere("PostSingle");
    assert Structure(STATUS) == STATUS by { NoAnnotations(); }
    PlacesAreApart();
    assert ExactStep(POSTS, HoistStatus());
  }

  lemma NoAnnotations()
    ensures Structure(STATUS) == STATUS
  {}

  lemma PlacesAreApart()
    ensures Antichain(HoistStatus().places)
  {
    assert StatusOf("PostCreate")[0] != StatusOf("PostSingle")[0];
  }

  lemma PostsRefer()
    ensures NoDangling(POSTS) && NoneWritten(POSTS, [HoistStatus()])
  {
    hide Refs;
    forall k | k in POSTS ensures Refs(POSTS[k]) == {} {
      NoReferences(POSTS[k]);
    }
  }

  lemma PostsTitle()
    ensures !NoOwnTitle([HoistStatus()])
  {
    assert HasOwnTitle([HoistStatus()][0]);
  }
}

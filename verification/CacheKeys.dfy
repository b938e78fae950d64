/** The keys of cached responses and which of them an invalidation hits.
    packages/core/cache/cache-service.ts, packages/core/cache/cache.ts, packages/core/memory/in-memory.ts */
module CacheKeys {
  import opened Globs
  import opened Names

  datatype KeyData = KeyData(baseKey: string, userPrefix: string, httpMethod: string, url: string, bodyHash: string,
                             allRelations: seq<string>, skipInvalidation: bool)

  function Join(parts: seq<string>, separator: string): string {
    if parts == [] then ""
    else if |parts| == 1 then parts[0]
    else parts[0] + separator + Join(parts[1..], separator)
  }

  function RelationList(relations: seq<string>): string {
    if |relations| > 0 then "!" + Join(relations, "!") + "!" else ""
  }

  function NonEmpty(parts: seq<string>): seq<string> {
    if parts == [] then []
    else (if parts[0] != "" then [parts[0]] else []) + NonEmpty(parts[1..])
  }

  function BuildCacheKey(data: KeyData): string {
    Join(NonEmpty([data.baseKey, data.userPrefix, data.httpMethod, data.url, data.bodyHash,
                   RelationList(Unique(data.allRelations)), if data.skipInvalidation then "" else "inv"]), ":")
  }

  function AddPrefix(prefix: string, key: string): string {
    if prefix <= key then key else prefix + key
  }

  /** The pattern that invalidates a model. */
  function RelatedPattern(modelName: string): string {
    "*!" + modelName + "!*:inv"
  }

  lemma {:induction false} JoinedWith(parts: seq<string>, last: string, separator: string) returns (front: string)
    ensures Join(parts + [last], separator) == front + last
    ensures parts != [] ==> front == Join(parts, separator) + separator
    ensures parts == [] ==> front == ""
  {
    if parts == [] {
      assert parts + [last] == [last];
      front := "";
    } else {
      assert (parts + [last])[1..] == parts[1..] + [last];
      var rest := JoinedWith(parts[1..], last, separator);
      front := parts[0] + separator + rest;
      if |parts| == 1 {
        assert front + last == parts[0] + separator + last;
        assert rest == "";
      } else {
        assert Join(parts + [last], separator) == parts[0] + separator + (rest + last);
        assert front + last == parts[0] + separator + (rest + last);
      }
    }
  }

  lemma RelationListOfMore(names: seq<string>)
    requires |names| > 1
    ensures RelationList(names) == "!" + names[0] + RelationList(names[1..])
    ensures RelationList(names) == "!" + names[0] + "!" + (Join(names[1..], "!") + "!")
  {
    var rest := Join(names[1..], "!");
    assert RelationList(names) == "!" + (names[0] + "!" + rest) + "!";
    assert "!" + (names[0] + "!" + rest) + "!" == "!" + names[0] + ("!" + rest + "!");
  }

  /** Each name in the list stands between marks. */
  lemma {:induction false} ListedBetweenMarks(names: seq<string>, name: string) returns (before: string, after: string)
    requires name in names
    ensures RelationList(names) == before + ("!" + name + "!") + after
  {
    hide RelationList, Join;
    if |names| == 1 {
      before, after := "", "";
      RelationListOfOne(names);
      assert names[0] == name;
    } else if name == names[0] {
      before, after := "", Join(names[1..], "!") + "!";
      RelationListOfMore(names);
    } else {
      var b, a := ListedBetweenMarks(names[1..], name);
      before, after := "!" + names[0] + b, a;
      RelationListOfMore(names);
      assert "!" + names[0] + (b + ("!" + name + "!") + a) == before + ("!" + name + "!") + after;
    }
  }

  lemma RelationListOfOne(names: seq<string>)
    requires |names| == 1
    ensures RelationList(names) == "!" + names[0] + "!"
  {}

  lemma {:induction false} NonEmptyOfBoth(a: seq<string>, b: seq<string>)
    ensures NonEmpty(a + b) == NonEmpty(a) + NonEmpty(b)
  {
    if a == [] {
      assert a + b == b;
    } else {
      assert (a + b)[1..] == a[1..] + b;
      NonEmptyOfBoth(a[1..], b);
    }
  }

  lemma NonEmptyOfOne(part: string)
    ensures NonEmpty([part]) == if part == "" then [] else [part]
  {
    assert [part][1..] == [];
  }

  /** A key with relations ends in their list, and in the suffix unless it opts out of invalidation. */
  lemma KeyEnds(data: KeyData) returns (front: string)
    requires data.allRelations != []
    ensures BuildCacheKey(data) ==
            front + RelationList(Unique(data.allRelations)) + if data.skipInvalidation then "" else ":inv"
  {
    hide NonEmpty, Join, RelationList, Unique;
    var parts := [data.baseKey, data.userPrefix, data.httpMethod, data.url, data.bodyHash];
    var list := RelationList(Unique(data.allRelations));
    var suffix := if data.skipInvalidation then "" else "inv";
    assert [data.baseKey, data.userPrefix, data.httpMethod, data.url, data.bodyHash, list, suffix] ==
           parts + [list] + [suffix];
    NonEmptyOfBoth(parts + [list], [suffix]);
    NonEmptyOfBoth(parts, [list]);
    NonEmptyOfOne(list);
    NonEmptyOfOne(suffix);
    ListIsThere(data);
    front := JoinedWith(NonEmpty(parts), list, ":");
    if data.skipInvalidation {
      assert NonEmpty(parts) + [list] + [] == NonEmpty(parts) + [list];
      assert front + list + "" == front + list;
    } else {
      var before := JoinedWith(NonEmpty(parts) + [list], "inv", ":");
      assert before + "inv" == front + list + ":" + "inv";
      assert front + list + ":" + "inv" == front + list + ":inv";
    }
  }

  lemma ListIsThere(data: KeyData)
    requires data.allRelations != []
    ensures RelationList(Unique(data.allRelations)) != ""
  {
    assert data.allRelations[0] in Unique(data.allRelations);
  }

  /** The key of a response that depends on a model. */
  lemma KeyNamesModel(data: KeyData, modelName: string) returns (before: string, after: string)
    requires modelName in data.allRelations && !data.skipInvalidation
    ensures BuildCacheKey(data) == before + ("!" + modelName + "!" + after + ":inv")
  {
    hide BuildCacheKey, RelationList, Unique;
    var front := KeyEnds(data);
    var b, a := ListedBetweenMarks(Unique(data.allRelations), modelName);
    before, after := front + b, a;
    assert front + (b + ("!" + modelName + "!") + a) + ":inv" == before + ("!" + modelName + "!" + after + ":inv");
  }

  lemma RelatedTextMatches(before: string, modelName: string, after: string)
    requires OneLine(before) && OneLine(modelName) && OneLine(after)
    ensures Matches(RelatedPattern(modelName), before + ("!" + modelName + "!" + after + ":inv"))
  {
    hide Matches;
    assert Matches("", "") by { NothingMatchesNothing(); }
    MatchesItself(":inv", "", "");
    assert ":inv" + "" == ":inv";
    MatchesStar(after, ":inv", ":inv");
    var marked := "!" + modelName + "!";
    assert OneLine(marked);
    MatchesItself(marked, "*" + ":inv", after + ":inv");
    MatchesStar(before, marked + ("*" + ":inv"), marked + (after + ":inv"));
    assert "*" + (marked + ("*" + ":inv")) == RelatedPattern(modelName);
    assert before + (marked + (after + ":inv")) == before + ("!" + modelName + "!" + after + ":inv");
  }

  // Which keys an invalidation hits

  /** The text is in one line but for the name of the model, which stands between marks before the suffix. */
  ghost predicate Marked(text: string, modelName: string) {
    exists before, after ::
      OneLine(before) && OneLine(after) && text == before + ("!" + modelName + "!" + after + ":inv")
  }

  lemma MarkedMatches(text: string, modelName: string)
    requires Plain(modelName) && Marked(text, modelName)
    ensures Matches(RelatedPattern(modelName), text)
  {
    hide Matches, OneLine;
    var before, after :| OneLine(before) && OneLine(after) && text == before + ("!" + modelName + "!" + after + ":inv");
    var marked := "!" + modelName + "!";
    NothingMatchesNothing();
    PlainPrefix(":inv", "", "");
    assert ":inv" + "" == ":inv";
    MatchesStar(after, ":inv", ":inv");
    PlainPrefix(marked, "*" + ":inv", after + ":inv");
    MatchesStar(before, marked + ("*" + ":inv"), marked + (after + ":inv"));
    assert "*" + (marked + ("*" + ":inv")) == RelatedPattern(modelName);
    assert before + (marked + (after + ":inv")) == text;
  }

  lemma MatchesOnlyMarked(text: string, modelName: string)
    requires Plain(modelName) && Matches(RelatedPattern(modelName), text)
    ensures Marked(text, modelName)
  {
    hide Matches, OneLine, Plain;
    var marked := "!" + modelName + "!";
    assert RelatedPattern(modelName) == "*" + (marked + ("*" + ":inv"));
    assert Plain(marked) by { MarkedIsPlain(modelName); }
    var k := StarFirst(marked + ("*" + ":inv"), text);
    var rest := text[k..];
    PlainFirst(marked, "*" + ":inv", rest);
    var after := StarSuffix(rest[|marked|..]);
    MarkedText(text, k, modelName, after);
  }

  lemma MarkedIsPlain(modelName: string)
    requires Plain(modelName)
    ensures Plain("!" + modelName + "!")
  {}

  lemma MarkedText(text: string, k: nat, modelName: string, after: string)
    requires k <= |text| && OneLine(text[..k]) && OneLine(after)
    requires "!" + modelName + "!" <= text[k..] && text[k..][|modelName| + 2..] == after + ":inv"
    ensures Marked(text, modelName)
  {
    hide OneLine;
    var marked, rest := "!" + modelName + "!", text[k..];
    assert rest == marked + rest[|marked|..];
    assert text == text[..k] + rest;
    assert marked + (after + ":inv") == "!" + modelName + "!" + after + ":inv";
  }

  lemma StarSuffix(text: string) returns (before: string)
    requires Matches("*" + ":inv", text)
    ensures OneLine(before) && text == before + ":inv"
  {
    hide Matches, OneLine, Plain;
    assert Plain(":inv") by { SuffixIsPlain(); }
    var k := StarFirst(":inv", text);
    before := text[..k];
    assert ":inv" == ":inv" + "";
    PlainFirst(":inv", "", text[k..]);
    NothingMatchesOnly(text[k..][|":inv"|..]);
    assert text[k..] == ":inv" && text == before + text[k..];
  }

  lemma NothingMatchesOnly(text: string)
    requires Matches("", text)
    ensures text == ""
  {}

  /** What is left of a key behind the prefix that is put before it, or that it is taken to begin with. */
  function Unprefixed(prefix: string, key: string): string {
    if prefix <= key then key[|prefix|..] else key
  }

  lemma PlainPrefixed(prefix: string, pattern: string)
    requires Plain(prefix)
    ensures AddPrefix(prefix, "*" + pattern) == prefix + ("*" + pattern)
  {
    assert ("*" + pattern)[0] == '*';
    assert prefix != "" ==> prefix[0] in prefix;
  }

  /** The invalidation of a model hits a key, as the memory stores and matches them, exactly when the name of
      the model is marked in what is behind the prefix, which is otherwise in one line. */
  lemma InvalidationHitsExactly(prefix: string, key: string, modelName: string)
    requires Plain(prefix) && Plain(modelName)
    ensures Matches(AddPrefix(prefix, RelatedPattern(modelName)), AddPrefix(prefix, key)) <==>
            Marked(Unprefixed(prefix, key), modelName)
  {
    hide Matches, Marked, RelatedPattern, Plain;
    var rest := Unprefixed(prefix, key);
    assert RelatedPattern(modelName) == "*" + ("!" + modelName + "!*:inv") by { RelatedPatternIs(modelName); }
    PlainPrefixed(prefix, "!" + modelName + "!*:inv");
    assert AddPrefix(prefix, key) == prefix + rest;
    PlainPrefix(prefix, RelatedPattern(modelName), rest);
    if Marked(rest, modelName) {
      MarkedMatches(rest, modelName);
    }
    if Matches(RelatedPattern(modelName), rest) {
      MatchesOnlyMarked(rest, modelName);
    }
  }

  lemma RelatedPatternIs(modelName: string)
    ensures RelatedPattern(modelName) == "*" + ("!" + modelName + "!*:inv")
  {}

  /** Some text in one line before the suffix. */
  ghost predicate Suffixed(text: string) {
    exists before :: OneLine(before) && text == before + ":inv"
  }

  /** The invalidation of everything hits a key exactly when the suffix ends what is behind the prefix, which
      is otherwise in one line. */
  lemma SuffixHitsExactly(prefix: string, key: string)
    requires Plain(prefix)
    ensures Matches(AddPrefix(prefix, "*:inv"), AddPrefix(prefix, key)) <==> Suffixed(Unprefixed(prefix, key))
  {
    hide Matches, OneLine, Plain;
    var rest := Unprefixed(prefix, key);
    assert "*:inv" == "*" + ":inv" && ":inv" == ":inv" + "";
    PlainPrefixed(prefix, ":inv");
    assert AddPrefix(prefix, key) == prefix + rest;
    PlainPrefix(prefix, "*:inv", rest);
    assert Plain(":inv") by { SuffixIsPlain(); }
    if Suffixed(rest) {
      var before :| OneLine(before) && rest == before + ":inv";
      NothingMatchesNothing();
      PlainPrefix(":inv", "", "");
      MatchesStar(before, ":inv", ":inv");
    }
    if Matches("*:inv", rest) {
      var before := StarSuffix(rest);
    }
  }

  lemma SuffixIsPlain()
    ensures Plain(":inv")
  {}

  /** The rest of a text after a prefix without a mark still holds what follows the first mark. */
  lemma PrefixEndsBeforeMark(prefix: string, before: string, rest: string)
    requires '!' !in prefix && rest != "" && rest[0] == '!' && prefix <= before + rest
    ensures prefix <= before
  {
    assert (before + rest)[|before|] == '!';
    assert forall i :: 0 <= i < |prefix| ==> prefix[i] in prefix && prefix[i] == (before + rest)[i];
  }

  /** So a key that depends on a model is hit by the invalidation of the model exactly when it holds no line
      terminator, unless it begins with a prefix that holds the mark. The prefix may hold wildcards here. */
  lemma DependentKeyIsHit(prefix: string, data: KeyData, modelName: string)
    requires modelName in data.allRelations && !data.skipInvalidation
    requires OneLine(prefix) && OneLine(modelName)
    requires '!' !in prefix || !(prefix <= BuildCacheKey(data))
    ensures Matches(AddPrefix(prefix, RelatedPattern(modelName)), AddPrefix(prefix, BuildCacheKey(data))) <==>
            OneLine(BuildCacheKey(data))
  {
    hide Matches, BuildCacheKey, OneLine;
    var key, pattern := BuildCacheKey(data), RelatedPattern(modelName);
    PatternInOneLine(prefix, modelName);
    OneLineParts(prefix, key);
    if Matches(AddPrefix(prefix, pattern), AddPrefix(prefix, key)) {
      MatchesInOneLine(AddPrefix(prefix, pattern), AddPrefix(prefix, key));
    }
    if OneLine(key) {
      HitInOneLine(prefix, data, modelName);
    }
  }

  lemma PatternInOneLine(prefix: string, modelName: string)
    requires OneLine(prefix) && OneLine(modelName)
    ensures OneLine(AddPrefix(prefix, RelatedPattern(modelName)))
  {}

  lemma HitInOneLine(prefix: string, data: KeyData, modelName: string)
    requires modelName in data.allRelations && !data.skipInvalidation
    requires OneLine(prefix) && OneLine(BuildCacheKey(data))
    requires '!' !in prefix || !(prefix <= BuildCacheKey(data))
    ensures Matches(AddPrefix(prefix, RelatedPattern(modelName)), AddPrefix(prefix, BuildCacheKey(data)))
  {
    hide Matches, BuildCacheKey, OneLine, RelatedPattern;
    var key, pattern := BuildCacheKey(data), RelatedPattern(modelName);
    var before, after := KeyNamesModel(data, modelName);
    if prefix <= key {
      PrefixEndsBeforeMark(prefix, before, "!" + modelName + "!" + after + ":inv");
      assert before == prefix + before[|prefix|..];
      assert prefix + (before[|prefix|..] + ("!" + modelName + "!" + after + ":inv")) == key;
      OneLineParts(prefix, before[|prefix|..] + ("!" + modelName + "!" + after + ":inv"));
      HitWithPrefix(prefix, before[|prefix|..], modelName, after);
    } else {
      HitWithPrefix(prefix, before, modelName, after);
    }
  }

  lemma HitWithPrefix(prefix: string, skipped: string, modelName: string, after: string)
    requires OneLine(prefix) && OneLine(skipped + ("!" + modelName + "!" + after + ":inv"))
    ensures Matches(AddPrefix(prefix, RelatedPattern(modelName)),
                    prefix + (skipped + ("!" + modelName + "!" + after + ":inv")))
  {
    hide Matches, OneLine, RelatedPattern;
    var rest := "!" + modelName + "!" + after + ":inv";
    PartsInOneLine(skipped, modelName, after);
    if prefix <= RelatedPattern(modelName) {
      OneLineParts(prefix, skipped);
      RelatedTextMatches(prefix + skipped, modelName, after);
      assert prefix + skipped + rest == prefix + (skipped + rest);
    } else {
      RelatedTextMatches(skipped, modelName, after);
      MatchesItself(prefix, RelatedPattern(modelName), skipped + rest);
    }
  }

  lemma PartsInOneLine(skipped: string, modelName: string, after: string)
    requires OneLine(skipped + ("!" + modelName + "!" + after + ":inv"))
    ensures OneLine(skipped) && OneLine(modelName) && OneLine(after)
  {
    hide OneLine;
    OneLineParts(skipped, "!" + modelName + "!" + after + ":inv");
    OneLineParts("!" + modelName + "!" + after, ":inv");
    OneLineParts("!" + modelName + "!", after);
    OneLineParts("!" + modelName, "!");
    OneLineParts("!", modelName);
  }

  /** The pattern that clears the cache hits a stored key exactly when the key holds no line terminator. */
  lemma SweepHitsExactly(prefix: string, rest: string)
    requires OneLine(prefix)
    ensures Matches(AddPrefix(prefix, "*"), prefix + rest) <==> OneLine(prefix + rest)
  {
    hide Matches, OneLine;
    var pattern := AddPrefix(prefix, "*");
    OneLineParts(prefix, rest);
    assert OneLine("*") by { StarInOneLine(); }
    OneLineParts(prefix, "*");
    if Matches(pattern, prefix + rest) {
      MatchesInOneLine(pattern, prefix + rest);
    }
    if OneLine(prefix + rest) {
      NothingMatchesNothing();
      assert "*" + "" == "*" && rest + "" == rest && prefix + rest + "" == prefix + rest;
      if prefix <= "*" {
        MatchesStar(prefix + rest, "", "");
      } else {
        MatchesStar(rest, "", "");
        MatchesItself(prefix, "*", rest);
      }
    }
  }

  lemma StarInOneLine()
    ensures OneLine("*")
  {}

  /** Keys that opt out of invalidation are never hit. */
  lemma SkippedKeysAreNotHit(prefix: string, data: KeyData, modelName: string)
    requires data.allRelations != [] && data.skipInvalidation
    ensures !Matches(AddPrefix(prefix, RelatedPattern(modelName)), AddPrefix(prefix, BuildCacheKey(data)))
  {
    hide Matches, BuildCacheKey;
    var front := KeyEnds(data);
    var list := RelationList(Unique(data.allRelations));
    ListIsThere(data);
    var key, pattern := BuildCacheKey(data), RelatedPattern(modelName);
    assert key == front + list && key[|key| - 1] == list[|list| - 1] == '!';
    var whole := AddPrefix(prefix, pattern);
    assert whole[|whole| - 1] == pattern[|pattern| - 1] == 'v';
    assert whole == whole[..|whole| - 1] + ['v'];
    if Matches(whole, AddPrefix(prefix, key)) {
      MatchesLast(whole[..|whole| - 1], 'v', AddPrefix(prefix, key));
    }
  }

  /** A prefix may hold the mark, and then be mistaken for part of a key that begins alike. */
  lemma MarkedPrefixMisses()
    ensures
      var data := KeyData("", "", "", "", "", ["A"], false);
      BuildCacheKey(data) == "!A!:inv" &&
      !Matches(AddPrefix("!A!:", RelatedPattern("A")), AddPrefix("!A!:", BuildCacheKey(data)))
  {
    hide BuildCacheKey, Matches, Marked, AddPrefix, RelatedPattern;
    MarkedKey();
    assert Unprefixed("!A!:", "!A!:inv") == "inv";
    InvalidationHitsExactly("!A!:", "!A!:inv", "A");
    if Marked("inv", "A") {
      MarkedIsLong("inv", "A");
    }
  }

  lemma MarkedIsLong(text: string, modelName: string)
    requires Marked(text, modelName)
    ensures |text| >= 6
  {}

  lemma MarkedKey()
    ensures BuildCacheKey(KeyData("", "", "", "", "", ["A"], false)) == "!A!:inv"
  {
    hide NonEmpty, Join, RelationList, Unique;
    var list := "!A!";
    var data := KeyData("", "", "", "", "", ["A"], false);
    UniqueOfOne("A");
    RelationListOfOne(["A"]);
    assert RelationList(Unique(data.allRelations)) == list;
    var parts := ["", "", "", "", ""] + [list] + ["inv"];
    assert BuildCacheKey(data) == Join(NonEmpty(parts), ":") by {
      assert [data.baseKey, data.userPrefix, data.httpMethod, data.url, data.bodyHash, list, "inv"] == parts;
    }
    NonEmptyOfBoth(["", "", "", "", ""] + [list], ["inv"]);
    NonEmptyOfBoth(["", "", "", "", ""], [list]);
    NonEmptyOfOne(list);
    NonEmptyOfOne("inv");
    AllEmpty(["", "", "", "", ""]);
    assert NonEmpty(parts) == [list] + ["inv"];
    var front := JoinedWith([list], "inv", ":");
    assert Join([list], ":") == list by { JoinOfOne(list); }
    assert list + ":" + "inv" == "!A!:inv";
  }

  lemma JoinOfOne(part: string)
    ensures Join([part], ":") == part
  {}

  lemma UniqueOfOne(name: string)
    ensures Unique([name]) == [name]
  {
    assert [name][..0] == [];
    assert Unique([]) == [];
  }

  lemma {:induction false} AllEmpty(parts: seq<string>)
    requires forall i :: 0 <= i < |parts| ==> parts[i] == ""
    ensures NonEmpty(parts) == []
  {
    if parts != [] {
      AllEmpty(parts[1..]);
    }
  }
}

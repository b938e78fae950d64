/** The invalidation of a model hits the responses that depend on it and no others.
    packages/core/cache/cache-service.ts */
module CacheDependents {
  import opened Globs
  import opened Names
  import opened CacheKeys

  ghost predicate Unmarked(text: string) {
    '!' !in text
  }

  /** No part of the key but the list of relations holds the mark that the list is made with. */
  ghost predicate UnmarkedParts(data: KeyData) {
    && Unmarked(data.baseKey) && Unmarked(data.userPrefix) && Unmarked(data.httpMethod) && Unmarked(data.url)
    && Unmarked(data.bodyHash) && forall r :: r in data.allRelations ==> Unmarked(r)
  }

  lemma UnmarkedAt(text: string, rest: string)
    requires Unmarked(text)
    ensures forall i :: 0 <= i < |text| ==> (text + rest)[i] != '!'
  {
    forall i | 0 <= i < |text| ensures (text + rest)[i] != '!' {
      assert (text + rest)[i] == text[i];
    }
  }

  /** The first mark of one text, told in two ways. */
  lemma FirstMark(a: string, x: string, b: string, y: string)
    requires Unmarked(a) && Unmarked(b) && a + ("!" + x) == b + ("!" + y)
    ensures a == b && x == y
  {
    var text := a + ("!" + x);
    UnmarkedAt(a, "!" + x);
    UnmarkedAt(b, "!" + y);
    assert text[|a|] == '!' && text[|b|] == '!';
    assert text[..|a|] == a && text[..|b|] == b && text[|a| + 1..] == x && text[|b| + 1..] == y;
  }

  /** What comes before a mark holds all the unmarked text in front of it. */
  lemma UnmarkedFront(front: string, list: string, before: string, rest: string)
    requires Unmarked(front) && front + list == before + ("!" + rest)
    ensures front <= before && list == before[|front|..] + ("!" + rest)
  {
    var text := front + list;
    assert text[|before|] == '!';
    UnmarkedAt(front, list);
    assert text[..|front|] == front && text[|front|..] == list;
    assert before == text[..|before|] && before == front + before[|front|..];
    assert before[|front|..] + ("!" + rest) == text[|front|..];
  }

  /** Between two marks of the list stands one of its names. */
  lemma {:induction false} OnlyNamesAreListed(names: seq<string>, before: string, name: string, after: string)
    requires Unmarked(name) && forall n :: n in names ==> Unmarked(n)
    requires RelationList(names) == before + ("!" + name + "!" + after)
    ensures name in names
  {
    hide RelationList, Join, Unmarked;
    ListIsMarked(names, before, name, after);
    var n, tail := names[0], names[1..];
    var rest := if |names| == 1 then "" else Join(tail, "!") + "!";
    assert RelationList(names) == "!" + (n + ("!" + rest)) by {
      SplitList(names, rest);
    }
    if before == "" {
      assert "!" + (name + ("!" + after)) == "" + ("!" + name + "!" + after);
      assert (n + ("!" + rest)) == RelationList(names)[1..] == name + ("!" + after);
      FirstMark(n, rest, name, after);
    } else {
      var inner := before[1..];
      assert n + ("!" + rest) == RelationList(names)[1..] == inner + ("!" + (name + "!" + after));
      UnmarkedFront(n, "!" + rest, inner, name + "!" + after);
      TooShort(inner[|n|..], name, after);
      assert |"!" + rest| >= 2;
      assert "!" + rest == RelationList(tail) by { TailList(names, rest); }
      assert inner[|n|..] + ("!" + (name + "!" + after)) == inner[|n|..] + ("!" + name + "!" + after);
      OnlyNamesAreListed(tail, inner[|n|..], name, after);
    }
  }

  lemma ListIsMarked(names: seq<string>, before: string, name: string, after: string)
    requires RelationList(names) == before + ("!" + name + "!" + after)
    ensures names != [] && |before| < |RelationList(names)| && RelationList(names)[|before|] == '!'
    ensures before != "" ==> RelationList(names)[0] == before[0]
  {}

  lemma SplitList(names: seq<string>, rest: string)
    requires names != [] && rest == if |names| == 1 then "" else Join(names[1..], "!") + "!"
    ensures RelationList(names) == "!" + (names[0] + ("!" + rest))
  {
    hide RelationList, Join;
    if |names| == 1 {
      RelationListOfOne(names);
      assert "!" + names[0] + "!" == "!" + (names[0] + ("!" + ""));
    } else {
      RelationListOfMore(names);
      assert "!" + names[0] + ("!" + rest) == "!" + (names[0] + ("!" + rest));
    }
  }

  lemma TailList(names: seq<string>, rest: string)
    requires |names| > 1 && rest == Join(names[1..], "!") + "!"
    ensures "!" + rest == RelationList(names[1..])
  {
    assert "!" + (Join(names[1..], "!") + "!") == "!" + Join(names[1..], "!") + "!";
  }

  lemma TooShort(before: string, name: string, after: string)
    ensures |before + ("!" + (name + "!" + after))| >= 2
  {}

  // The parts of a key

  lemma {:induction false} JoinIsUnmarked(parts: seq<string>)
    requires forall p :: p in parts ==> Unmarked(p)
    ensures Unmarked(Join(NonEmpty(parts), ":")) && forall p :: p in NonEmpty(parts) ==> Unmarked(p)
  {
    if parts != [] {
      JoinIsUnmarked(parts[1..]);
      var rest := NonEmpty(parts[1..]);
      if parts[0] != "" {
        assert NonEmpty(parts) == [parts[0]] + rest && ([parts[0]] + rest)[1..] == rest;
        JoinOfMore(parts[0], rest);
      } else {
        assert NonEmpty(parts) == [] + rest;
        assert [] + rest == rest;
      }
    }
  }

  lemma JoinOfMore(part: string, rest: seq<string>)
    requires Unmarked(part) && Unmarked(Join(rest, ":"))
    ensures Unmarked(Join([part] + rest, ":"))
  {
    assert ([part] + rest)[1..] == rest;
  }

  /** Without relations a key holds no mark, and with them it holds the list behind an unmarked text. */
  lemma KeyIsListed(data: KeyData) returns (front: string)
    requires UnmarkedParts(data)
    ensures Unmarked(front)
    ensures data.allRelations == [] ==> BuildCacheKey(data) == front
    ensures data.allRelations != [] ==>
              BuildCacheKey(data) ==
              front + (RelationList(Unique(data.allRelations)) + if data.skipInvalidation then "" else ":inv")
  {
    hide NonEmpty, Join, RelationList, Unique;
    var parts := [data.baseKey, data.userPrefix, data.httpMethod, data.url, data.bodyHash];
    var list := RelationList(Unique(data.allRelations));
    var suffix := if data.skipInvalidation then "" else "inv";
    var all := [data.baseKey, data.userPrefix, data.httpMethod, data.url, data.bodyHash, list, suffix];
    if data.allRelations == [] {
      assert list == "" by { NoList(); }
      JoinIsUnmarked(all);
      front := BuildCacheKey(data);
    } else {
      JoinIsUnmarked(parts);
      front := FrontOf(data, parts, list, suffix);
    }
  }

  lemma NoList()
    ensures Unique([]) == [] && RelationList([]) == ""
  {}

  lemma FrontOf(data: KeyData, parts: seq<string>, list: string, suffix: string) returns (front: string)
    requires data.allRelations != [] && list == RelationList(Unique(data.allRelations))
    requires parts == [data.baseKey, data.userPrefix, data.httpMethod, data.url, data.bodyHash]
    requires suffix == (if data.skipInvalidation then "" else "inv") && Unmarked(Join(NonEmpty(parts), ":"))
    ensures Unmarked(front)
    ensures BuildCacheKey(data) == front + (list + if data.skipInvalidation then "" else ":inv")
  {
    hide NonEmpty, Join, RelationList, Unique;
    assert [data.baseKey, data.userPrefix, data.httpMethod, data.url, data.bodyHash, list, suffix] ==
           parts + [list] + [suffix];
    NonEmptyOfBoth(parts + [list], [suffix]);
    NonEmptyOfBoth(parts, [list]);
    NonEmptyOfOne(list);
    NonEmptyOfOne(suffix);
    ListIsThere(data);
    front := JoinedWith(NonEmpty(parts), list, ":");
    if data.skipInvalidation {
      assert NonEmpty(parts) + [list] + [] == NonEmpty(parts) + [list];
      assert front + (list + "") == front + list;
    } else {
      var before := JoinedWith(NonEmpty(parts) + [list], "inv", ":");
      assert before + "inv" == front + list + ":" + "inv";
      assert front + list + ":" + "inv" == front + (list + ":inv");
    }
  }

  /** A mark, a name and a mark before the suffix are found in the key of a response that depends on it. */
  lemma MarkedIsListed(data: KeyData, before: string, modelName: string, after: string)
    requires UnmarkedParts(data) && Unmarked(modelName) && (data.allRelations != [] ==> !data.skipInvalidation)
    requires BuildCacheKey(data) == before + ("!" + modelName + "!" + after + ":inv")
    ensures modelName in data.allRelations
  {
    hide BuildCacheKey, RelationList, Unique, UnmarkedParts;
    var front := KeyIsListed(data);
    var rest := modelName + "!" + after + ":inv";
    assert "!" + modelName + "!" + after + ":inv" == "!" + rest;
    assert BuildCacheKey(data) == before + ("!" + rest) && BuildCacheKey(data)[|before|] == '!';
    if data.allRelations == [] {
      NoMarkThere(front, before, rest);
    } else {
      var list := RelationList(Unique(data.allRelations));
      UnmarkedFront(front, list + ":inv", before, rest);
      var inner := before[|front|..];
      assert list + ":inv" == inner + ("!" + modelName + "!" + after + ":inv");
      assert list == (list + ":inv")[..|list|];
      assert inner + ("!" + modelName + "!" + after + ":inv") == (inner + ("!" + modelName + "!" + after)) + ":inv";
      assert list == inner + ("!" + modelName + "!" + after);
      NamesAreUnmarked(data);
      OnlyNamesAreListed(Unique(data.allRelations), inner, modelName, after);
      assert modelName in Unique(data.allRelations);
    }
  }

  lemma NoMarkThere(text: string, before: string, rest: string)
    requires Unmarked(text)
    ensures text != before + ("!" + rest)
  {
    var marked := before + ("!" + rest);
    assert marked[|before|] == '!';
  }

  lemma NamesAreUnmarked(data: KeyData)
    requires UnmarkedParts(data)
    ensures forall n :: n in Unique(data.allRelations) ==> Unmarked(n)
  {
    hide Unique, Unmarked;
  }

  /** For parts, prefix and names without marks: the invalidation of a model hits exactly the keys in one line
      of the responses that depend on it and do not opt out. */
  lemma DependentsExactly(prefix: string, data: KeyData, modelName: string)
    requires UnmarkedParts(data) && Unmarked(prefix) && Unmarked(modelName)
    requires Plain(prefix) && Plain(modelName) && OneLine(prefix) && OneLine(modelName)
    ensures Matches(AddPrefix(prefix, RelatedPattern(modelName)), AddPrefix(prefix, BuildCacheKey(data))) <==>
            modelName in data.allRelations && !data.skipInvalidation && OneLine(BuildCacheKey(data))
  {
    hide Matches, BuildCacheKey, OneLine, Plain, RelatedPattern, UnmarkedParts, Marked, Unprefixed, AddPrefix;
    var key := BuildCacheKey(data);
    InvalidationHitsExactly(prefix, key, modelName);
    if data.allRelations != [] && data.skipInvalidation {
      SkippedKeysAreNotHit(prefix, data, modelName);
    } else if Marked(Unprefixed(prefix, key), modelName) {
      var before, after := MarkedBehind(prefix, key, modelName);
      MarkedIsListed(data, before, modelName, after);
      DependentKeyIsHit(prefix, data, modelName);
    }
    if modelName in data.allRelations && !data.skipInvalidation {
      DependentKeyIsHit(prefix, data, modelName);
    }
  }

  lemma MarkedBehind(prefix: string, key: string, modelName: string) returns (before: string, after: string)
    requires Marked(Unprefixed(prefix, key), modelName)
    ensures key == before + ("!" + modelName + "!" + after + ":inv")
  {
    var b, a :| OneLine(b) && OneLine(a) && Unprefixed(prefix, key) == b + ("!" + modelName + "!" + a + ":inv");
    before, after := if prefix <= key then prefix + b else b, a;
    assert prefix <= key ==> key == prefix + key[|prefix|..];
  }
}

/** The keys the partials are cached under, and which requests share one.
    packages/handlebars/handlebars-template-engine.ts */
module TemplateKeys {
  import opened Names
  import opened Options
  import opened TemplateLayers

  function ModeName(mode: Mode): string {
    match mode
    case Escaped => "escaped"
    case Raw => "raw"
  }

  function Joined(parts: seq<string>): string {
    if parts == [] then "" else "|" + parts[0] + Joined(parts[1..])
  }

  function CacheKey(mode: Mode, format: string, locales: seq<string>): string {
    ModeName(mode) + Joined([format] + locales)
  }

  ghost predicate NoBars(parts: seq<string>) {
    forall i :: 0 <= i < |parts| ==> '|' !in parts[i]
  }

  /** The part of a text before its first bar. */
  function BeforeBar(s: string): string {
    if s == "" || s[0] == '|' then "" else [s[0]] + BeforeBar(s[1..])
  }

  lemma {:induction false} BeforeBarIs(a: string, rest: string)
    requires '|' !in a && (rest == "" || rest[0] == '|')
    ensures BeforeBar(a + rest) == a
  {
    if a == "" {
      assert a + rest == rest;
    } else {
      assert (a + rest)[1..] == a[1..] + rest;
      BeforeBarIs(a[1..], rest);
    }
  }

  lemma FirstBar(a: string, b: string, restA: string, restB: string)
    requires '|' !in a && '|' !in b && a + restA == b + restB
    requires restA == "" || restA[0] == '|'
    requires restB == "" || restB[0] == '|'
    ensures a == b && restA == restB
  {
    BeforeBarIs(a, restA);
    BeforeBarIs(b, restB);
    assert restA == (a + restA)[|a|..] && restB == (b + restB)[|b|..];
  }

  // Which keys agree

  /** The second format is the first one with locales appended, which its request does not list. */
  ghost predicate Shifted(format: string, locales: seq<string>, format': string, locales': seq<string>) {
    exists k :: 0 <= k <= |locales| && format' == format + Joined(locales[..k]) && locales' == locales[k..]
  }

  lemma {:induction false} JoinedOfBoth(p: seq<string>, q: seq<string>)
    ensures Joined(p + q) == Joined(p) + Joined(q)
  {
    if p == [] {
      assert p + q == q;
    } else {
      assert (p + q)[1..] == p[1..] + q;
      JoinedOfBoth(p[1..], q);
    }
  }

  lemma KeyIs(mode: Mode, format: string, locales: seq<string>)
    ensures CacheKey(mode, format, locales) == ModeName(mode) + ("|" + (format + Joined(locales)))
  {
    assert ([format] + locales)[1..] == locales;
    assert "|" + format + Joined(locales) == "|" + (format + Joined(locales));
  }

  lemma ModeDecides(mode: Mode, rest: string, mode': Mode, rest': string)
    ensures ModeName(mode) + ("|" + rest) == ModeName(mode') + ("|" + rest') <==> mode == mode' && rest == rest'
  {
    if ModeName(mode) + ("|" + rest) == ModeName(mode') + ("|" + rest') {
      FirstBar(ModeName(mode), ModeName(mode'), "|" + rest, "|" + rest');
      assert ("|" + rest)[1..] == rest && ("|" + rest')[1..] == rest';
    }
  }

  lemma LastBar(a: string, b: string, last: string, last': string)
    requires '|' !in last && '|' !in last' && a + ("|" + last) == b + ("|" + last')
    ensures a == b && last == last'
  {
    var whole := a + ("|" + last);
    assert whole[|a|] == '|' && whole[|b|] == '|';
    forall i | |a| < i < |whole| ensures whole[i] != '|' {
      assert whole[i] == last[i - |a| - 1];
    }
    forall i | |b| < i < |whole| ensures whole[i] != '|' {
      assert whole[i] == last'[i - |b| - 1];
    }
    assert a == whole[..|a|] && b == whole[..|b|];
    assert last == whole[|a| + 1..] && last' == whole[|b| + 1..];
  }

  lemma JoinedLast(format: string, locales: seq<string>)
    requires locales != []
    ensures var init, last := locales[..|locales| - 1], locales[|locales| - 1];
            locales == init + [last] && format + Joined(locales) == (format + Joined(init)) + ("|" + last)
  {
    var init, last := locales[..|locales| - 1], locales[|locales| - 1];
    assert locales == init + [last];
    JoinedOfBoth(init, [last]);
    assert [last][1..] == [];
    assert Joined([last]) == "|" + last;
  }

  lemma ShiftedOneMore(format: string, locales: seq<string>, format': string, locales': seq<string>, last: string)
    requires Shifted(format, locales, format', locales')
    ensures Shifted(format, locales + [last], format', locales' + [last])
  {
    var k :| 0 <= k <= |locales| && format' == format + Joined(locales[..k]) && locales' == locales[k..];
    assert (locales + [last])[..k] == locales[..k] && (locales + [last])[k..] == locales[k..] + [last];
  }

  lemma ShiftedToNone(format: string, locales: seq<string>)
    ensures Shifted(format, locales, format + Joined(locales), [])
  {
    assert locales[..|locales|] == locales && locales[|locales|..] == [];
  }

  lemma {:induction false} SameTextIsShifted(format: string, locales: seq<string>, format': string,
                                             locales': seq<string>)
    requires NoBars(locales) && NoBars(locales')
    requires format + Joined(locales) == format' + Joined(locales')
    ensures Shifted(format, locales, format', locales') || Shifted(format', locales', format, locales)
    decreases |locales|
  {
    hide Shifted;
    if locales' == [] {
      assert format' + Joined([]) == format';
      ShiftedToNone(format, locales);
    } else if locales == [] {
      assert format + Joined([]) == format;
      ShiftedToNone(format', locales');
    } else {
      var init, last := locales[..|locales| - 1], locales[|locales| - 1];
      var init', last' := locales'[..|locales'| - 1], locales'[|locales'| - 1];
      JoinedLast(format, locales);
      JoinedLast(format', locales');
      LastBar(format + Joined(init), format' + Joined(init'), last, last');
      SameTextIsShifted(format, init, format', init');
      if Shifted(format, init, format', init') {
        ShiftedOneMore(format, init, format', init', last);
      } else {
        ShiftedOneMore(format', init', format, init, last);
      }
    }
  }

  lemma ShiftedIsSameText(format: string, locales: seq<string>, format': string, locales': seq<string>)
    requires Shifted(format, locales, format', locales')
    ensures format + Joined(locales) == format' + Joined(locales')
  {
    hide Joined;
    var k :| 0 <= k <= |locales| && format' == format + Joined(locales[..k]) && locales' == locales[k..];
    var first := locales[..k];
    assert locales == first + locales';
    JoinedOfBoth(first, locales');
    assert format + (Joined(first) + Joined(locales')) == (format + Joined(first)) + Joined(locales');
  }

  /** Two requests share a key exactly when they have one mode, and the format of one is that of the other
      with the first of its locales appended. */
  lemma KeysAgreeExactly(mode: Mode, format: string, locales: seq<string>, mode': Mode, format': string,
                         locales': seq<string>)
    requires NoBars(locales) && NoBars(locales')
    ensures CacheKey(mode, format, locales) == CacheKey(mode', format', locales') <==>
            mode == mode' &&
            (Shifted(format, locales, format', locales') || Shifted(format', locales', format, locales))
  {
    hide Shifted, CacheKey, ModeName, Joined;
    KeyIs(mode, format, locales);
    KeyIs(mode', format', locales');
    ModeDecides(mode, format + Joined(locales), mode', format' + Joined(locales'));
    if format + Joined(locales) == format' + Joined(locales') {
      SameTextIsShifted(format, locales, format', locales');
    }
    if Shifted(format, locales, format', locales') {
      ShiftedIsSameText(format, locales, format', locales');
    }
    if Shifted(format', locales', format, locales) {
      ShiftedIsSameText(format', locales', format, locales);
    }
  }

  lemma BarIsThere(format: string, locales: seq<string>)
    requires locales != []
    ensures '|' in format + Joined(locales)
  {
    assert (format + Joined(locales))[|format|] == '|';
  }

  lemma NoneJoined(format: string)
    ensures format + Joined([]) == format
  {}

  lemma ShiftedWithoutBars(format: string, locales: seq<string>, format': string, locales': seq<string>)
    requires '|' !in format' && Shifted(format, locales, format', locales')
    ensures format == format' && locales == locales'
  {
    hide Joined;
    var k :| 0 <= k <= |locales| && format' == format + Joined(locales[..k]) && locales' == locales[k..];
    NoneJoined(format);
    if locales[..k] != [] {
      BarIsThere(format, locales[..k]);
    } else {
      assert locales[k..] == locales;
    }
  }

  /** Formats and locales without a bar make a key of their own. */
  lemma KeyIsInjective(mode: Mode, format: string, locales: seq<string>, mode': Mode, format': string,
                       locales': seq<string>)
    requires NoBars([format] + locales) && NoBars([format'] + locales')
    requires CacheKey(mode, format, locales) == CacheKey(mode', format', locales')
    ensures mode == mode' && format == format' && locales == locales'
  {
    hide CacheKey, Shifted;
    assert NoBars(locales) && '|' !in format by { FirstPart(format, locales); }
    assert NoBars(locales') && '|' !in format' by { FirstPart(format', locales'); }
    KeysAgreeExactly(mode, format, locales, mode', format', locales');
    if Shifted(format, locales, format', locales') {
      ShiftedWithoutBars(format, locales, format', locales');
    } else {
      ShiftedWithoutBars(format', locales', format, locales);
    }
  }

  lemma FirstPart(part: string, parts: seq<string>)
    requires NoBars([part] + parts)
    ensures '|' !in part && NoBars(parts)
  {
    var all := [part] + parts;
    assert all[0] == part && forall i :: 0 <= i < |parts| ==> parts[i] == all[i + 1];
  }

  // Which formats clash

  /** A format as it is asked for, in its mode. */
  datatype Ask = Ask(mode: Mode, format: string)

  ghost predicate Within(locales: seq<string>, kept: set<string>) {
    forall l :: l in locales ==> l in kept
  }

  /** The first format with one or more of these locales appended is the second one. */
  ghost predicate Extends(kept: set<string>, format: string, longer: string) {
    exists locales :: locales != [] && Within(locales, kept) && longer == format + Joined(locales)
  }

  ghost predicate Clash(kept: set<string>, a: Ask, b: Ask) {
    a.mode == b.mode && (Extends(kept, a.format, b.format) || Extends(kept, b.format, a.format))
  }

  ghost predicate NoBarsIn(texts: set<string>) {
    forall s :: s in texts ==> '|' !in s
  }

  lemma WithinHasNoBars(locales: seq<string>, kept: set<string>)
    requires NoBarsIn(kept) && Within(locales, kept)
    ensures NoBars(locales)
  {}

  lemma ExtendsIsLonger(kept: set<string>, format: string, longer: string)
    requires Extends(kept, format, longer)
    ensures |format| < |longer|
  {
    var locales :| locales != [] && Within(locales, kept) && longer == format + Joined(locales);
    assert |Joined(locales)| > 0;
  }

  lemma ShiftedExtends(kept: set<string>, format: string, locales: seq<string>, format': string, locales': seq<string>)
    requires Within(locales, kept) && Shifted(format, locales, format', locales')
    ensures (format == format' && locales == locales') || Extends(kept, format, format')
  {
    var k :| 0 <= k <= |locales| && format' == format + Joined(locales[..k]) && locales' == locales[k..];
    if k > 0 {
      assert Within(locales[..k], kept);
    } else {
      assert locales[..0] == [] && format + Joined([]) == format && locales[0..] == locales;
    }
  }

  /** Requests in these formats, for some of the locales each, have one key. */
  ghost predicate ShareKey(kept: set<string>, a: Ask, b: Ask) {
    exists locales, locales' :: Within(locales, kept) && Within(locales', kept) &&
                                CacheKey(a.mode, a.format, locales) == CacheKey(b.mode, b.format, locales')
  }

  /** Two different formats share a key for some of the locales exactly when they clash. */
  lemma ClashExactly(kept: set<string>, a: Ask, b: Ask)
    requires NoBarsIn(kept)
    ensures Clash(kept, a, b) <==> a.format != b.format && ShareKey(kept, a, b)
  {
    hide CacheKey, Shifted, Extends, Within, NoBars, NoBarsIn;
    if Clash(kept, a, b) {
      if Extends(kept, a.format, b.format) {
        ExtendsIsLonger(kept, a.format, b.format);
        var locales := ExtendedShares(kept, a.mode, a.format, b.format);
      } else {
        ExtendsIsLonger(kept, b.format, a.format);
        var locales := ExtendedShares(kept, a.mode, b.format, a.format);
      }
      NoneIsWithin(kept);
    }
    if a.format != b.format && ShareKey(kept, a, b) {
      var locales, locales' :| Within(locales, kept) && Within(locales', kept) &&
                               CacheKey(a.mode, a.format, locales) == CacheKey(b.mode, b.format, locales');
      SharingClashes(kept, a, locales, b, locales');
    }
  }

  lemma NoneIsWithin(kept: set<string>)
    ensures Within([], kept)
  {}

  /** The request that a longer format without locales shares its key with. */
  lemma ExtendedShares(kept: set<string>, mode: Mode, format: string, longer: string) returns (locales: seq<string>)
    requires Extends(kept, format, longer)
    ensures locales != [] && Within(locales, kept) && CacheKey(mode, format, locales) == CacheKey(mode, longer, [])
  {
    locales :| locales != [] && Within(locales, kept) && longer == format + Joined(locales);
    KeyIs(mode, format, locales);
    KeyIs(mode, longer, []);
    assert longer + Joined([]) == longer;
  }

  /** Requests that share a key are the same, or their formats clash. */
  lemma SharingClashes(kept: set<string>, a: Ask, locales: seq<string>, b: Ask, locales': seq<string>)
    requires NoBarsIn(kept) && Within(locales, kept) && Within(locales', kept)
    requires CacheKey(a.mode, a.format, locales) == CacheKey(b.mode, b.format, locales')
    ensures (a == b && locales == locales') || Clash(kept, a, b)
  {
    hide CacheKey, Shifted, Extends, Within, NoBars, NoBarsIn;
    WithinHasNoBars(locales, kept);
    WithinHasNoBars(locales', kept);
    KeysAgreeExactly(a.mode, a.format, locales, b.mode, b.format, locales');
    if Shifted(a.format, locales, b.format, locales') {
      ShiftedExtends(kept, a.format, locales, b.format, locales');
    } else {
      ShiftedExtends(kept, b.format, locales', a.format, locales);
    }
  }

  // Formats in the mode they are rendered in

  /** The format is another one of its mode with locales appended. */
  ghost predicate Ambiguous(kept: set<string>, format: string) {
    exists g :: ModeOf(g) == ModeOf(format) && Extends(kept, g, format)
  }

  /** How the engine asks for a format. */
  ghost function AskFor(format: string): Ask {
    Ask(ModeOf(format), format)
  }

  ghost predicate NoneClash(kept: set<string>, asked: set<Ask>) {
    forall a, b :: a in asked && b in asked ==> !Clash(kept, a, b)
  }

  /** As long as the engine asks for no ambiguous format, no formats clash. */
  lemma UnambiguousNeverClash(kept: set<string>, asked: set<Ask>)
    requires forall a :: a in asked ==> a == AskFor(a.format) && !Ambiguous(kept, a.format)
    ensures NoneClash(kept, asked)
  {
    hide ModeOf, Extends;
  }

  /** An ambiguous format, asked for without locales, shares its key with a request for another format. */
  lemma AmbiguousShares(kept: set<string>, format: string) returns (g: string, locales: seq<string>)
    requires Ambiguous(kept, format)
    ensures g != format && locales != [] && Within(locales, kept)
    ensures CacheKey(ModeOf(g), g, locales) == CacheKey(ModeOf(format), format, [])
  {
    hide ModeOf, CacheKey, Extends;
    g :| ModeOf(g) == ModeOf(format) && Extends(kept, g, format);
    ExtendsIsLonger(kept, g, format);
    locales := ExtendedShares(kept, ModeOf(g), g, format);
  }

  /** An unambiguous one shares its key with no request for a format that is unambiguous, either. */
  lemma UnambiguousIsAlone(kept: set<string>, f: string, locales: seq<string>, g: string, locales': seq<string>)
    requires NoBarsIn(kept) && Within(locales, kept) && Within(locales', kept)
    requires !Ambiguous(kept, f) && !Ambiguous(kept, g)
    requires CacheKey(ModeOf(f), f, locales) == CacheKey(ModeOf(g), g, locales')
    ensures f == g && locales == locales'
  {
    hide ModeOf, CacheKey, Extends;
    SharingClashes(kept, Ask(ModeOf(f), f), locales, Ask(ModeOf(g), g), locales');
  }

  /** A bar alone makes no format ambiguous: `html|de` is raw, and `html` is not. */
  lemma OtherModeIsUnambiguous(kept: set<string>, format: string, locale: string)
    requires NoBarsIn(kept) && '|' !in format && '|' !in locale
    requires ModeOf(format) != ModeOf(format + ("|" + locale))
    ensures !Ambiguous(kept, format + ("|" + locale))
  {
    hide ModeOf, Joined, NoBarsIn;
    var longer := format + ("|" + locale);
    forall g | Extends(kept, g, longer) ensures g == format {
      var locales :| locales != [] && Within(locales, kept) && longer == g + Joined(locales);
      WithinHasNoBars(locales, kept);
      JoinedLast(g, locales);
      LastBar(format, g + Joined(locales[..|locales| - 1]), locale, locales[|locales| - 1]);
      NoneJoined(g);
      if locales[..|locales| - 1] != [] {
        BarIsThere(g, locales[..|locales| - 1]);
      }
    }
  }

  // Two formats that clash

  const GERMAN_TOO := Layer(["a.txt"], map["a.txt" := map["" := Entry("A", "txt"), "de" := Entry("B", "txt")]])

  /** A format may hold the bar that separates it from a locale: two requests for different partials then
      share their key. */
  lemma KeysCollide()
    ensures
      var kept := VariantLocales(NO_TEMPLATES, GERMAN_TOO);
      ModeOf("txt") == Raw && ModeOf("txt|de") == Raw &&
      CacheKey(Raw, "txt", Restricted(["de"], kept)) == CacheKey(Raw, "txt|de", Restricted([], kept)) &&
      Partials(NO_TEMPLATES, GERMAN_TOO, Raw, "txt", ["de"]) != Partials(NO_TEMPLATES, GERMAN_TOO, Raw, "txt|de", [])
  {
    hide Partials, CacheKey, ModeOf, Restricted;
    RawFormats();
    CollidingKeys();
    NameIsListed(GERMAN_TOO);
    PartialOfName(NO_TEMPLATES, GERMAN_TOO, Raw, "txt", ["de"], "a.txt");
    PartialOfName(NO_TEMPLATES, GERMAN_TOO, Raw, "txt|de", [], "a.txt");
  }

  lemma RawFormats()
    ensures ModeOf("txt") == Raw && ModeOf("txt|de") == Raw
  {
    assert Lower("txt")[0] == 't' && Lower("txt|de")[0] == 't';
  }

  lemma CollidingKeys()
    ensures
      var kept := VariantLocales(NO_TEMPLATES, GERMAN_TOO);
      CacheKey(Raw, "txt", Restricted(["de"], kept)) == CacheKey(Raw, "txt|de", Restricted([], kept))
  {
    var kept := VariantLocales(NO_TEMPLATES, GERMAN_TOO);
    assert "de" in kept by {
      assert "a.txt" in GERMAN_TOO.variants && "de" in GERMAN_TOO.variants["a.txt"];
    }
    hide VariantLocales;
    JoinedPair("txt", "de");
    assert ["txt"] + ["de"] == ["txt", "de"] && ["txt|de"] + [] == ["txt|de"];
    assert Restricted(["de"], kept) == ["de"];
  }

  /** A template found is a partial by its name. */
  lemma PartialOfName(registered: Layer, files: Layer, mode: Mode, format: string, locales: seq<string>, name: string)
    requires name in AllNames(registered, files) && Found(registered, files, name, locales).Some?
    ensures
      var partials := Partials(registered, files, mode, format, locales);
      name in partials && partials[name] == Compile(Found(registered, files, name, locales).value, mode)
  {
    hide Found, Aliases, AllNames, Compile;
  }

  /** A bar within a part cannot be told from one between parts. */
  lemma JoinedPair(a: string, b: string)
    ensures Joined([a, b]) == Joined([a + "|" + b])
  {
    assert [a, b][1..] == [b] && [b][1..] == [] && [a + "|" + b][1..] == [];
    assert Joined([b]) == "|" + b;
  }

  lemma NameIsListed(files: Layer)
    requires |files.names| == 1
    ensures AllNames(NO_TEMPLATES, files) == files.names
  {
    assert files.names + [] == files.names;
    assert files.names[..0] == [];
    assert Unique(files.names[..0]) == [];
  }
}

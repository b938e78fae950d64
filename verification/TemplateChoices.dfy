/** Which template is found, and which partials it may include, told by what the layers hold.
    packages/handlebars/handlebars-template-engine.ts */
module TemplateChoices {
  import opened Names
  import opened Options
  import opened TemplateLayers

  ghost predicate HasVariant(layer: Layer, name: string, locale: string) {
    name in layer.variants && locale in layer.variants[name]
  }

  /** A registered template takes precedence over a file. */
  ghost predicate VariantIs(registered: Layer, files: Layer, name: string, locale: string, entry: Entry) {
    if HasVariant(registered, name, locale) then entry == registered.variants[name][locale]
    else HasVariant(files, name, locale) && entry == files.variants[name][locale]
  }

  ghost predicate NoVariant(registered: Layer, files: Layer, name: string, locales: seq<string>) {
    forall l :: l in locales ==> !HasVariant(registered, name, l) && !HasVariant(files, name, l)
  }

  /** The variant of the first locale that either layer has one for, the empty locale asked last. */
  ghost predicate IsFound(registered: Layer, files: Layer, name: string, locales: seq<string>, found: Option<Entry>) {
    var asked := locales + [""];
    match found
    case None => NoVariant(registered, files, name, asked)
    case Some(entry) =>
      exists i :: 0 <= i < |asked| && VariantIs(registered, files, name, asked[i], entry) &&
                  NoVariant(registered, files, name, asked[..i])
  }

  lemma FoundAtOnce(registered: Layer, files: Layer, name: string, locales: seq<string>, entry: Entry)
    requires VariantIs(registered, files, name, (locales + [""])[0], entry)
    ensures IsFound(registered, files, name, locales, Some(entry))
  {
    var asked := locales + [""];
    assert asked[..0] == [] && NoVariant(registered, files, name, asked[..0]);
  }

  lemma FoundLater(registered: Layer, files: Layer, name: string, locales: seq<string>, found: Option<Entry>)
    requires locales != [] && NoVariant(registered, files, name, locales[..1])
    requires IsFound(registered, files, name, locales[1..], found)
    ensures IsFound(registered, files, name, locales, found)
  {
    hide VariantIs;
    var asked, rest := locales + [""], locales[1..] + [""];
    assert locales[0] in locales[..1];
    assert asked == [locales[0]] + rest;
    if found.Some? {
      var i :| 0 <= i < |rest| && VariantIs(registered, files, name, rest[i], found.value) &&
               NoVariant(registered, files, name, rest[..i]);
      assert asked[i + 1] == rest[i] && asked[..i + 1] == [locales[0]] + rest[..i];
    }
  }

  lemma {:induction false} FoundIsFound(registered: Layer, files: Layer, name: string, locales: seq<string>)
    ensures IsFound(registered, files, name, locales, Found(registered, files, name, locales))
  {
    hide IsFound;
    var first := (locales + [""])[0];
    var entry := LookupBoth(registered, files, name, first);
    if entry.Some? {
      FoundAtOnce(registered, files, name, locales, entry.value);
    } else if locales != [] {
      FoundIsFound(registered, files, name, locales[1..]);
      assert locales[..1] == [first];
      FoundLater(registered, files, name, locales, Found(registered, files, name, locales[1..]));
    } else {
      assert locales + [""] == [""];
      NoneFound(registered, files, name, locales);
    }
  }

  lemma NoneFound(registered: Layer, files: Layer, name: string, locales: seq<string>)
    requires NoVariant(registered, files, name, locales + [""])
    ensures IsFound(registered, files, name, locales, None)
  {}

  lemma FoundIsUnique(registered: Layer, files: Layer, name: string, locales: seq<string>,
                      found: Option<Entry>, found': Option<Entry>)
    requires IsFound(registered, files, name, locales, found) && IsFound(registered, files, name, locales, found')
    ensures found == found'
  {
    hide VariantIs;
    var asked := locales + [""];
    if found.Some? && found'.Some? {
      var i :| 0 <= i < |asked| && VariantIs(registered, files, name, asked[i], found.value) &&
               NoVariant(registered, files, name, asked[..i]);
      var j :| 0 <= j < |asked| && VariantIs(registered, files, name, asked[j], found'.value) &&
               NoVariant(registered, files, name, asked[..j]);
      NoneEarlier(registered, files, name, asked, i);
      NoneEarlier(registered, files, name, asked, j);
      assert i == j;
      OneVariant(registered, files, name, asked[i]);
    } else if found.Some? || found'.Some? {
      var entry := if found.Some? then found.value else found'.value;
      var i :| 0 <= i < |asked| && VariantIs(registered, files, name, asked[i], entry);
      NoneEarlier(registered, files, name, asked, |asked|);
    }
  }

  lemma NoneEarlier(registered: Layer, files: Layer, name: string, asked: seq<string>, n: nat)
    requires n <= |asked| && NoVariant(registered, files, name, asked[..n])
    ensures forall i, entry :: 0 <= i < n ==> !VariantIs(registered, files, name, asked[i], entry)
  {
    forall i | 0 <= i < n ensures !HasVariant(registered, name, asked[i]) && !HasVariant(files, name, asked[i]) {
      assert asked[i] in asked[..n];
    }
  }

  lemma OneVariant(registered: Layer, files: Layer, name: string, locale: string)
    ensures forall e, e' ::
              VariantIs(registered, files, name, locale, e) && VariantIs(registered, files, name, locale, e') ==>
                e == e'
  {}

  /** What is found is exactly the variant of the first locale that has one, and nothing when none has. */
  lemma FoundExactly(registered: Layer, files: Layer, name: string, locales: seq<string>, found: Option<Entry>)
    ensures found == Found(registered, files, name, locales) <==> IsFound(registered, files, name, locales, found)
  {
    hide IsFound, Found;
    FoundIsFound(registered, files, name, locales);
    if IsFound(registered, files, name, locales, found) {
      FoundIsUnique(registered, files, name, locales, found, Found(registered, files, name, locales));
    }
  }

  // Formats

  /** A name is its alias, a dot and an extension, which holds no dot and is not all of the file name. */
  ghost predicate Splits(name: string, stem: string, extension: string) {
    && name == stem + "." + extension && extension != "" && '.' !in extension && '/' !in extension
    && stem != "" && stem[|stem| - 1] != '/'
  }

  lemma LastAt(s: string, c: char, i: nat)
    requires i < |s| && s[i] == c && c !in s[i + 1..]
    ensures LastIndexOf(s, c) == i
  {
    forall j | i < j < |s| ensures s[j] != c {
      assert s[j] == s[i + 1..][j - i - 1];
    }
  }

  /** The dot before the extension is the last one, behind the last slash and not right behind it. */
  ghost predicate DotAt(name: string, k: nat) {
    && 0 < k < |name| && name[k] == '.' && name[k - 1] != '/'
    && forall j :: k < j < |name| ==> name[j] != '.' && name[j] != '/'
  }

  lemma FormatAt(name: string, k: nat)
    requires DotAt(name, k)
    ensures TemplateFormat(name) == Lower(name[k + 1..])
  {
    hide LastIndexOf, Lower;
    var slash := LastIndexOf(name, '/');
    assert slash < k - 1;
    SuffixAt(name, slash + 1, k);
    LastAt(name[slash + 1..], '.', k - (slash + 1));
  }

  lemma SuffixAt(name: string, start: nat, k: nat)
    requires start <= k && DotAt(name, k)
    ensures name[start..][k - start] == '.' && name[start..][k - start + 1..] == name[k + 1..]
    ensures '.' !in name[start..][k - start + 1..]
  {
    assert name[start..][k - start + 1..] == name[k + 1..];
    var rest := name[k + 1..];
    forall j | 0 <= j < |rest| ensures rest[j] != '.' {
      assert rest[j] == name[k + 1 + j];
    }
  }

  lemma DotOfFile(name: string, start: nat, dot: nat)
    requires start <= |name| && 0 < dot < |name| - start - 1 && name[start..][dot] == '.'
    requires forall j :: dot < j < |name| - start ==> name[start..][j] != '.'
    requires forall j :: start <= j < |name| ==> name[j] != '/'
    ensures DotAt(name, start + dot)
  {
    forall j | start + dot < j < |name| ensures name[j] != '.' {
      assert name[j] == name[start..][j - start];
    }
  }

  lemma FormatHasDot(name: string)
    requires TemplateFormat(name) != ""
    ensures exists k: nat :: k < |name| - 1 && DotAt(name, k)
  {
    hide LastIndexOf, Lower, DotAt;
    var start := LastIndexOf(name, '/') + 1;
    var dot := LastIndexOf(name[start..], '.');
    assert dot > 0 && |name[start..][dot + 1..]| > 0;
    DotOfFile(name, start, dot);
  }

  lemma SplitIsAt(name: string, stem: string, extension: string)
    requires Splits(name, stem, extension)
    ensures DotAt(name, |stem|) && stem == name[..|stem|] && extension == name[|stem| + 1..]
  {
    forall j | |stem| < j < |name| ensures name[j] != '.' && name[j] != '/' {
      assert name[j] == extension[j - |stem| - 1];
    }
  }

  lemma SplitAt(name: string, k: nat)
    requires DotAt(name, k) && k < |name| - 1
    ensures Splits(name, name[..k], name[k + 1..])
  {}

  lemma AliasAt(name: string, k: nat)
    requires DotAt(name, k) && k < |name| - 1
    ensures TemplateFormat(name) == Lower(name[k + 1..]) && TemplateFormat(name) != "" && AliasOf(name) == name[..k]
  {
    hide TemplateFormat, Lower;
    FormatAt(name, k);
  }

  lemma SplitIsFormat(name: string, stem: string, extension: string)
    requires Splits(name, stem, extension)
    ensures TemplateFormat(name) == Lower(extension) && TemplateFormat(name) != "" && AliasOf(name) == stem
  {
    hide TemplateFormat, Lower, AliasOf, DotAt;
    SplitIsAt(name, stem, extension);
    AliasAt(name, |stem|);
  }

  lemma FormatSplits(name: string)
    requires TemplateFormat(name) != ""
    ensures exists extension :: Splits(name, AliasOf(name), extension) && TemplateFormat(name) == Lower(extension)
  {
    hide TemplateFormat, Lower, AliasOf, DotAt, Splits;
    FormatHasDot(name);
    var k: nat :| k < |name| - 1 && DotAt(name, k);
    SplitAt(name, k);
    AliasAt(name, k);
  }

  /** A name has the format and the alias exactly when it splits into them. */
  lemma FormatExactly(name: string, stem: string, format: string)
    requires format != ""
    ensures TemplateFormat(name) == format && AliasOf(name) == stem <==>
            exists extension :: Splits(name, stem, extension) && format == Lower(extension)
  {
    hide TemplateFormat, AliasOf, Lower, Splits;
    if TemplateFormat(name) != "" {
      FormatSplits(name);
    }
    if extension :| Splits(name, stem, extension) && format == Lower(extension) {
      SplitIsFormat(name, stem, extension);
    }
  }

  lemma LowerIs(s: string, i: nat)
    requires i < |s|
    ensures 'A' <= s[i] <= 'Z' ==> Lower(s)[i] as int == s[i] as int + 32
    ensures !('A' <= s[i] <= 'Z') ==> Lower(s)[i] == s[i]
  {}

  /** Formats are in lower case, and those of markup are escaped. */
  lemma UpperCaseFormat()
    ensures TemplateFormat("exports/products.XML") == "xml" && ModeOf("xml") == Escaped && ModeOf("XML") == Escaped
  {
    hide TemplateFormat, AliasOf;
    SplitAt("exports/products.XML", 16);
    SplitIsFormat("exports/products.XML", "exports/products.XML"[..16], "exports/products.XML"[17..]);
    assert "exports/products.XML"[17..] == "XML";
    assert Lower("XML") == "xml" && Lower("xml") == "xml";
  }

  /** A dot in a directory is not one before an extension. */
  lemma NoFormat()
    ensures TemplateFormat("v1.0/readme") == ""
  {
    LastAt("v1.0/readme", '/', 4);
    assert "v1.0/readme"[5..] == "readme";
    assert '.' !in "readme";
  }

  lemma RawFormat()
    ensures ModeOf("subject") == Raw
  {
    assert Lower("subject")[0] == 's' && |Lower("subject")| == 7;
  }

  // Partials

  lemma {:induction false} UniqueKeepsFirst(names: seq<string>, i: nat) returns (k: nat)
    requires i < |Unique(names)|
    ensures k < |names| && names[k] == Unique(names)[i]
    ensures forall n :: n in names[..k] ==> n in Unique(names)[..i]
  {
    var init := names[..|names| - 1];
    assert names == init + [names[|names| - 1]] && Unique(init) <= Unique(names);
    if i < |Unique(init)| {
      k := UniqueKeepsFirst(init, i);
      assert Unique(names)[..i] == Unique(init)[..i];
      assert names[..k] == init[..k];
    } else {
      k := |init|;
      assert Unique(names)[..i] == Unique(init);
      assert names[..k] == init;
    }
  }

  lemma ChosenOfAll(registered: Layer, files: Layer, format: string, locales: seq<string>, names: seq<string>,
                    a: string, chosen: string)
    requires Chosen(registered, files, format, locales, Unique(names), a, chosen)
    ensures Chosen(registered, files, format, locales, names, a, chosen)
  {
    hide Answers, TemplateFormat, Unique;
    if TemplateFormat(chosen) != format {
      var i: nat :| i < |Unique(names)| && Unique(names)[i] == chosen &&
                    NoneAnswers(registered, files, locales, Unique(names)[..i], a);
      var k := UniqueKeepsFirst(names, i);
      assert NoneAnswers(registered, files, locales, names[..k], a);
    }
  }

  /** The partial of a key: the template found under that name, and otherwise the chosen one of the
      templates that answer to it, those of the files before the registered ones. */
  ghost predicate IsPartial(registered: Layer, files: Layer, mode: Mode, format: string, locales: seq<string>,
                            key: string, partial: Option<Delegate>) {
    var names := files.names + registered.names;
    if key in names && Found(registered, files, key, locales).Some? then
      partial == Some(Compiled(Found(registered, files, key, locales).value.source, mode))
    else match partial
         case None => NoneAnswers(registered, files, locales, names, key)
         case Some(delegate) =>
           exists chosen :: Chosen(registered, files, format, locales, names, key, chosen) &&
                            Found(registered, files, chosen, locales).Some? &&
                            delegate == Compiled(Found(registered, files, chosen, locales).value.source, mode)
  }

  lemma PartialsExactly(registered: Layer, files: Layer, mode: Mode, format: string, locales: seq<string>,
                        key: string)
    ensures
      var partials := Partials(registered, files, mode, format, locales);
      IsPartial(registered, files, mode, format, locales, key, if key in partials then Some(partials[key]) else None)
  {
    hide Found, Aliases, TemplateFormat, AliasOf, Chosen, NoneAnswers, Unique;
    var names := files.names + registered.names;
    var all := AllNames(registered, files);
    var aliases := Aliases(registered, files, format, locales, all);
    assert all == Unique(names);
    AliasChoice(registered, files, format, locales, all, key);
    if key in aliases {
      ChosenOfAll(registered, files, format, locales, names, key, aliases[key]);
    } else {
      NoneOfAll(registered, files, locales, names, key);
    }
  }

  lemma NoneOfAll(registered: Layer, files: Layer, locales: seq<string>, names: seq<string>, a: string)
    requires NoneAnswers(registered, files, locales, Unique(names), a)
    ensures NoneAnswers(registered, files, locales, names, a)
  {
    hide Answers;
  }
}

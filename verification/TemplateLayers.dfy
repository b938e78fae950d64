/** Templates, their variants per locale, and the partials a template may include.
    packages/handlebars/handlebars-template-engine.ts */
module TemplateLayers {
  import opened Names
  import opened Options

  datatype Mode = Escaped | Raw

  datatype Entry = Entry(source: string, format: string)

  /** A compiled template. Compiling is taken to depend on the source and the mode only. */
  datatype Delegate = Compiled(source: string, mode: Mode)

  /** Templates by name, in the order the names were added, and by locale. The empty locale holds the
      template without one. */
  datatype Layer = Layer(names: seq<string>, variants: map<string, map<string, Entry>>)

  const NO_TEMPLATES := Layer([], map[])

  ghost predicate IsLayer(layer: Layer) {
    && (forall n :: n in layer.names <==> n in layer.variants)
    && (forall n, l :: n in layer.variants && l in layer.variants[n] ==> '|' !in l)
  }

  function LastIndexOf(s: string, c: char): (i: int)
    ensures -1 <= i < |s| && (i >= 0 ==> s[i] == c) && forall j :: i < j < |s| ==> s[j] != c
  {
    if s == "" then -1
    else if s[|s| - 1] == c then |s| - 1
    else LastIndexOf(s[..|s| - 1], c)
  }

  function Lower(s: string): (r: string)
    ensures |r| == |s|
  {
    seq(|s|, i requires 0 <= i < |s| => if 'A' <= s[i] <= 'Z' then s[i] - 'A' + 'a' else s[i])
  }

  /** The last extension of a name, in lower case. */
  function TemplateFormat(name: string): (format: string)
    ensures |format| + 1 < |name| || format == ""
  {
    var fileName := name[LastIndexOf(name, '/') + 1..];
    var dot := LastIndexOf(fileName, '.');
    if dot > 0 then Lower(fileName[dot + 1..]) else ""
  }

  const ESCAPED_FORMATS := {"html", "htm", "xhtml", "xml", "rss", "atom", "svg"}

  function ModeOf(format: string): Mode {
    if Lower(format) in ESCAPED_FORMATS then Escaped else Raw
  }

  function Compile(entry: Entry, mode: Mode): Delegate {
    Compiled(entry.source, mode)
  }

  function Lookup(layer: Layer, name: string, locale: string): Option<Entry> {
    if name in layer.variants && locale in layer.variants[name] then Some(layer.variants[name][locale]) else None
  }

  function LookupBoth(registered: Layer, files: Layer, name: string, locale: string): Option<Entry> {
    if Lookup(registered, name, locale).Some? then Lookup(registered, name, locale) else Lookup(files, name, locale)
  }

  /** The variant of the first locale that has one, a registered template winning over a file. */
  function Found(registered: Layer, files: Layer, name: string, locales: seq<string>): Option<Entry> {
    if locales == [] then LookupBoth(registered, files, name, "")
    else if LookupBoth(registered, files, name, locales[0]).Some?
    then LookupBoth(registered, files, name, locales[0])
    else Found(registered, files, name, locales[1..])
  }

  function VariantLocalesIn(layer: Layer): set<string> {
    set n, l | n in layer.variants && l in layer.variants[n] :: l
  }

  function VariantLocales(registered: Layer, files: Layer): set<string> {
    VariantLocalesIn(registered) + VariantLocalesIn(files)
  }

  function Restricted(locales: seq<string>, kept: set<string>): seq<string> {
    if locales == [] then []
    else if locales[0] in kept then [locales[0]] + Restricted(locales[1..], kept)
    else Restricted(locales[1..], kept)
  }

  /** Locales without any variant do not matter. */
  lemma {:induction false} FoundByVariantLocales(registered: Layer, files: Layer, name: string, locales: seq<string>)
    ensures Found(registered, files, name, locales) ==
            Found(registered, files, name, Restricted(locales, VariantLocales(registered, files)))
  {
    if locales != [] {
      FoundByVariantLocales(registered, files, name, locales[1..]);
      var kept := VariantLocales(registered, files);
      if locales[0] in kept {
        assert Restricted(locales, kept)[1..] == Restricted(locales[1..], kept);
      }
    }
  }

  // Partials

  function AllNames(registered: Layer, files: Layer): seq<string> {
    Unique(files.names + registered.names)
  }

  function ByName(registered: Layer, files: Layer, mode: Mode, locales: seq<string>,
                  names: seq<string>): map<string, Delegate>
  {
    map n | n in names && Found(registered, files, n, locales).Some? ::
      Compile(Found(registered, files, n, locales).value, mode)
  }

  /** The name without its format. */
  function AliasOf(name: string): string
    requires TemplateFormat(name) != ""
  {
    name[..|name| - (|TemplateFormat(name)| + 1)]
  }

  function Aliases(registered: Layer, files: Layer, format: string, locales: seq<string>,
                   names: seq<string>): (r: map<string, string>)
    ensures forall a :: a in r ==> r[a] in names && Found(registered, files, r[a], locales).Some?
  {
    if names == [] then map[]
    else
      var last := names[|names| - 1];
      var init := Aliases(registered, files, format, locales, names[..|names| - 1]);
      if Found(registered, files, last, locales).None? || TemplateFormat(last) == "" then init
      else if AliasOf(last) !in init || TemplateFormat(last) == format then init[AliasOf(last) := last]
      else init
  }

  /** The partials computed afresh. */
  function Partials(registered: Layer, files: Layer, mode: Mode, format: string,
                    locales: seq<string>): map<string, Delegate>
  {
    var names := AllNames(registered, files);
    var byName := ByName(registered, files, mode, locales, names);
    var aliases := Aliases(registered, files, format, locales, names);
    (map a | a in aliases :: byName[aliases[a]]) + byName
  }

  lemma {:induction false} AliasesByVariantLocales(registered: Layer, files: Layer, format: string,
                                                   locales: seq<string>, names: seq<string>)
    ensures Aliases(registered, files, format, locales, names) ==
            Aliases(registered, files, format, Restricted(locales, VariantLocales(registered, files)), names)
  {
    hide Found, Restricted, VariantLocales, TemplateFormat, AliasOf;
    if names != [] {
      AliasesByVariantLocales(registered, files, format, locales, names[..|names| - 1]);
      FoundByVariantLocales(registered, files, names[|names| - 1], locales);
    }
  }

  /** The partials depend on the locales that have variants only. */
  lemma PartialsByVariantLocales(registered: Layer, files: Layer, mode: Mode, format: string, locales: seq<string>)
    ensures Partials(registered, files, mode, format, locales) ==
            Partials(registered, files, mode, format, Restricted(locales, VariantLocales(registered, files)))
  {
    hide Found, Restricted, VariantLocales, Aliases, AllNames;
    var names := AllNames(registered, files);
    AliasesByVariantLocales(registered, files, format, locales, names);
    forall n ensures Found(registered, files, n, locales) ==
                     Found(registered, files, n, Restricted(locales, VariantLocales(registered, files))) {
      FoundByVariantLocales(registered, files, n, locales);
    }
  }

  /** The name answers to the alias. */
  ghost predicate Answers(registered: Layer, files: Layer, locales: seq<string>, name: string, a: string) {
    Found(registered, files, name, locales).Some? && TemplateFormat(name) != "" && AliasOf(name) == a
  }

  lemma AnswersMeans(registered: Layer, files: Layer, locales: seq<string>, name: string, a: string)
    ensures Answers(registered, files, locales, name, a) <==>
            Found(registered, files, name, locales).Some? && TemplateFormat(name) != "" && AliasOf(name) == a
  {
    hide Found, TemplateFormat, AliasOf;
  }

  ghost predicate NoneAnswers(registered: Layer, files: Layer, locales: seq<string>, names: seq<string>, a: string) {
    forall n :: n in names ==> !Answers(registered, files, locales, n, a)
  }

  lemma OneMoreName(registered: Layer, files: Layer, mode: Mode, format: string, locales: seq<string>,
                    names: seq<string>, name: string)
    ensures
      var found := Found(registered, files, name, locales);
      var byName := ByName(registered, files, mode, locales, names);
      ByName(registered, files, mode, locales, names + [name]) ==
      if found.Some? then byName[name := Compile(found.value, mode)] else byName
    ensures
      var found := Found(registered, files, name, locales);
      var aliases := Aliases(registered, files, format, locales, names);
      Aliases(registered, files, format, locales, names + [name]) ==
      if found.Some? && TemplateFormat(name) != "" && (AliasOf(name) !in aliases || TemplateFormat(name) == format)
      then aliases[AliasOf(name) := name] else aliases
  {
    hide Found, TemplateFormat, AliasOf, Compile;
    assert (names + [name])[..|names|] == names;
  }

  /** An alias stands for a name of the including format when there is one, and otherwise for the first
      name answering to it. */
  ghost predicate Chosen(registered: Layer, files: Layer, format: string, locales: seq<string>, names: seq<string>,
                         a: string, chosen: string) {
    chosen in names && Answers(registered, files, locales, chosen, a) &&
    (TemplateFormat(chosen) == format ||
     ((forall n :: n in names && Answers(registered, files, locales, n, a) ==> TemplateFormat(n) != format) &&
      exists i :: 0 <= i < |names| && names[i] == chosen && NoneAnswers(registered, files, locales, names[..i], a)))
  }

  lemma ChosenStays(registered: Layer, files: Layer, format: string, locales: seq<string>, names: seq<string>,
                    name: string, a: string, chosen: string)
    requires Chosen(registered, files, format, locales, names, a, chosen)
    requires !(Answers(registered, files, locales, name, a) && TemplateFormat(name) == format)
    ensures Chosen(registered, files, format, locales, names + [name], a, chosen)
  {
    hide Found, TemplateFormat, AliasOf, Answers, NoneAnswers;
    var more := names + [name];
    if TemplateFormat(chosen) != format {
      var i :| 0 <= i < |names| && names[i] == chosen && NoneAnswers(registered, files, locales, names[..i], a);
      assert more[i] == chosen && more[..i] == names[..i];
    }
  }

  lemma ChosenNew(registered: Layer, files: Layer, format: string, locales: seq<string>, names: seq<string>,
                  name: string, a: string)
    requires Answers(registered, files, locales, name, a)
    requires TemplateFormat(name) == format || NoneAnswers(registered, files, locales, names, a)
    ensures Chosen(registered, files, format, locales, names + [name], a, name)
  {
    hide Found, TemplateFormat, AliasOf, Answers;
    var more := names + [name];
    assert more[|names|] == name && more[..|names|] == names;
  }

  /** The alias of the partials: none when no name answers to it, and otherwise the chosen name. */
  lemma {:induction false} AliasChoice(registered: Layer, files: Layer, format: string, locales: seq<string>,
                                       names: seq<string>, a: string)
    ensures
      var aliases := Aliases(registered, files, format, locales, names);
      if a in aliases then Chosen(registered, files, format, locales, names, a, aliases[a])
      else NoneAnswers(registered, files, locales, names, a)
  {
    hide Found, TemplateFormat, AliasOf, Answers, Chosen, Aliases;
    if names == [] {
      assert a !in Aliases(registered, files, format, locales, names) by {
        NoAliases(registered, files, format, locales);
      }
    } else {
      var init, last := names[..|names| - 1], names[|names| - 1];
      AliasChoice(registered, files, format, locales, init, a);
      assert names == init + [last];
      OneMoreName(registered, files, Raw, format, locales, init, last);
      AnswersMeans(registered, files, locales, last, a);
      var before := Aliases(registered, files, format, locales, init);
      if Answers(registered, files, locales, last, a) && (a !in before || TemplateFormat(last) == format) {
        ChosenNew(registered, files, format, locales, init, last, a);
      } else if a in before {
        ChosenStays(registered, files, format, locales, init, last, a, before[a]);
      }
    }
  }

  lemma NoAliases(registered: Layer, files: Layer, format: string, locales: seq<string>)
    ensures Aliases(registered, files, format, locales, []) == map[]
  {}
}

/** The template engine and its cache of partials. packages/handlebars/handlebars-template-engine.ts */
module TemplateEngine {
  import opened Names
  import opened Options
  import opened TemplateLayers
  import opened TemplateKeys
  import opened TemplateChoices

  // Requests

  datatype Request = Request(mode: Mode, format: string, locales: seq<string>)
  {
    function Ask(): Ask {
      TemplateKeys.Ask(mode, format)
    }

    /** The key, for the locales that have variants. */
    function Key(kept: set<string>): string {
      CacheKey(mode, format, Restricted(locales, kept))
    }
  }

  lemma {:induction false} RestrictedIsWithin(locales: seq<string>, kept: set<string>)
    ensures Within(Restricted(locales, kept), kept)
  {
    if locales != [] {
      RestrictedIsWithin(locales[1..], kept);
    }
  }

  /** Requests with one key are for the same partials, unless their formats clash. */
  lemma SameKeySamePartials(registered: Layer, files: Layer, r: Request, q: Request)
    requires IsLayer(registered) && IsLayer(files)
    requires !Clash(VariantLocales(registered, files), r.Ask(), q.Ask())
    requires r.Key(VariantLocales(registered, files)) == q.Key(VariantLocales(registered, files))
    ensures Partials(registered, files, r.mode, r.format, r.locales) ==
            Partials(registered, files, q.mode, q.format, q.locales)
  {
    hide CacheKey, Partials, Restricted, Clash;
    var kept := VariantLocales(registered, files);
    RestrictedIsWithin(r.locales, kept);
    RestrictedIsWithin(q.locales, kept);
    SharingClashes(kept, r.Ask(), Restricted(r.locales, kept), q.Ask(), Restricted(q.locales, kept));
    PartialsByVariantLocales(registered, files, r.mode, r.format, r.locales);
    PartialsByVariantLocales(registered, files, q.mode, q.format, q.locales);
  }

  // The layers

  function Slashed(name: string): string {
    seq(|name|, i requires 0 <= i < |name| => if name[i] == '\\' then '/' else name[i])
  }

  /** The name with forward slashes only and without a leading one. */
  function TemplateName(name: string): string {
    var slashed := Slashed(name);
    if "/" <= slashed then slashed[1..] else if "./" <= slashed then slashed[2..] else slashed
  }

  /** A template file, its path parsed into a name and a canonical locale tag. */
  datatype File = File(name: string, source: string, tag: string)

  function Added(layer: Layer, file: File): Layer {
    var name := TemplateName(file.name);
    var variants := if name in layer.variants then layer.variants[name] else map[];
    Layer(if name in layer.variants then layer.names else layer.names + [name],
          layer.variants[name := variants[file.tag := Entry(file.source, TemplateFormat(name))]])
  }

  function Loaded(disk: seq<File>): Layer {
    if disk == [] then NO_TEMPLATES else Added(Loaded(disk[..|disk| - 1]), disk[|disk| - 1])
  }

  lemma AddedIsLayer(layer: Layer, file: File)
    requires IsLayer(layer) && '|' !in file.tag
    ensures IsLayer(Added(layer, file))
  {
    hide TemplateName, TemplateFormat;
  }

  lemma {:induction false} LoadedIsLayer(disk: seq<File>)
    requires forall f :: f in disk ==> '|' !in f.tag
    ensures IsLayer(Loaded(disk))
  {
    if disk != [] {
      LoadedIsLayer(disk[..|disk| - 1]);
      AddedIsLayer(Loaded(disk[..|disk| - 1]), disk[|disk| - 1]);
    }
  }

  /** Adding a template gives its name and locale this source, and leaves every other variant as it was. */
  lemma AddedExactly(layer: Layer, file: File, name: string, locale: string)
    ensures
      var added := Added(layer, file);
      if name == TemplateName(file.name) && locale == file.tag then
        HasVariant(added, name, locale) &&
        added.variants[name][locale] == Entry(file.source, TemplateFormat(name))
      else
        (HasVariant(added, name, locale) <==> HasVariant(layer, name, locale)) &&
        (HasVariant(layer, name, locale) ==> added.variants[name][locale] == layer.variants[name][locale])
  {
    hide TemplateName, TemplateFormat;
  }

  /** A registered template is what is found of its name, whatever the files hold, when its locale is the
      first one asked for that has a variant. */
  lemma RegisteredIsFound(registered: Layer, files: Layer, template: File, locales: seq<string>, i: nat)
    requires i <= |locales| && (locales + [""])[i] == template.tag && template.tag !in locales[..i]
    requires NoVariant(registered, files, TemplateName(template.name), locales[..i])
    ensures
      var name := TemplateName(template.name);
      IsFound(Added(registered, template), files, name, locales, Some(Entry(template.source, TemplateFormat(name))))
  {
    hide TemplateName, TemplateFormat, Added, HasVariant;
    var name, added, asked := TemplateName(template.name), Added(registered, template), locales + [""];
    AddedExactly(registered, template, name, template.tag);
    forall l | l in asked[..i] ensures !HasVariant(added, name, l) && !HasVariant(files, name, l) {
      assert asked[..i] == locales[..i];
      AddedExactly(registered, template, name, l);
    }
    assert VariantIs(added, files, name, asked[i], Entry(template.source, TemplateFormat(name)));
    assert NoVariant(added, files, name, asked[..i]);
  }

  /** Both are one path, but for the slashes. */
  ghost predicate SamePath(raw: string, path: string) {
    |raw| == |path| && '\\' !in path &&
    forall i :: 0 <= i < |raw| ==> raw[i] == path[i] || (raw[i] == '\\' && path[i] == '/')
  }

  /** However a path is written, its name has forward slashes and begins with neither a slash nor a dot and
      a slash, unless it did behind one. */
  lemma TemplateNameIs(raw: string, lead: string, name: string)
    requires lead in {"", "/", "./"} && SamePath(raw, lead + name)
    requires lead == "" ==> !("/" <= name) && !("./" <= name)
    ensures TemplateName(raw) == name
  {
    assert Slashed(raw) == lead + name;
    if lead == "/" {
      assert "/" <= Slashed(raw) && Slashed(raw)[1..] == name;
    } else if lead == "./" {
      assert Slashed(raw)[0] == '.' && "./" <= Slashed(raw) && Slashed(raw)[2..] == name;
    } else {
      assert lead + name == name;
    }
  }

  /** A file replaces those of the same name and locale read before it, so the templates of the
      application, read last, override those of the modules. */
  lemma {:induction false} LastFileWins(disk: seq<File>, i: nat)
    requires i < |disk|
    requires forall j :: i < j < |disk| ==>
               TemplateName(disk[j].name) != TemplateName(disk[i].name) || disk[j].tag != disk[i].tag
    ensures Lookup(Loaded(disk), TemplateName(disk[i].name), disk[i].tag) ==
            Some(Entry(disk[i].source, TemplateFormat(TemplateName(disk[i].name))))
  {
    hide TemplateName, TemplateFormat;
    if i < |disk| - 1 {
      LastFileWins(disk[..|disk| - 1], i);
    }
  }

  /** The files hold a variant exactly when some file was read for it. */
  lemma {:induction false} LoadedExactly(disk: seq<File>, name: string, locale: string)
    ensures HasVariant(Loaded(disk), name, locale) <==>
            exists i :: 0 <= i < |disk| && TemplateName(disk[i].name) == name && disk[i].tag == locale
  {
    hide TemplateName, TemplateFormat, Added;
    if disk != [] {
      var init, last := disk[..|disk| - 1], disk[|disk| - 1];
      assert disk == init + [last];
      LoadedExactly(init, name, locale);
      AddedExactly(Loaded(init), last, name, locale);
    }
  }

  // The engine

  /** The partials are those of the request, computed afresh. */
  ghost predicate Explains(registered: Layer, files: Layer, r: Request, key: string, result: map<string, Delegate>) {
    key == r.Key(VariantLocales(registered, files)) &&
    result == Partials(registered, files, r.mode, r.format, r.locales)
  }

  ghost predicate Explained(registered: Layer, files: Layer, asked: set<Ask>,
                            partials: map<string, map<string, Delegate>>) {
    forall key :: key in partials ==>
      exists r: Request :: r.Ask() in asked && Explains(registered, files, r, key, partials[key])
  }

  datatype Outcome = LoadFailed | NotFound | Rendered(template: Delegate, partials: map<string, Delegate>)

  lemma ExplainedAnswers(registered: Layer, files: Layer, asked: set<Ask>,
                         partials: map<string, map<string, Delegate>>, request: Request)
    requires IsLayer(registered) && IsLayer(files) && Explained(registered, files, asked, partials)
    requires request.Key(VariantLocales(registered, files)) in partials
    ensures
      var result := partials[request.Key(VariantLocales(registered, files))];
      (exists r: Request :: r.Ask() in asked + {request.Ask()} &&
        Explains(registered, files, r, request.Key(VariantLocales(registered, files)), result)) &&
      (NoneClash(VariantLocales(registered, files), asked + {request.Ask()}) ==>
        result == Partials(registered, files, request.mode, request.format, request.locales))
  {
    hide Partials, VariantLocales, CacheKey, IsLayer;
    var key := request.Key(VariantLocales(registered, files));
    var r: Request :| r.Ask() in asked && Explains(registered, files, r, key, partials[key]);
    if NoneClash(VariantLocales(registered, files), asked + {request.Ask()}) {
      SameKeySamePartials(registered, files, r, request);
    }
  }

  lemma ExplainedOneMore(registered: Layer, files: Layer, asked: set<Ask>,
                         partials: map<string, map<string, Delegate>>, request: Request)
    requires Explained(registered, files, asked, partials)
    ensures
      var key := request.Key(VariantLocales(registered, files));
      var result := Partials(registered, files, request.mode, request.format, request.locales);
      Explained(registered, files, asked + {request.Ask()}, partials[key := result]) &&
      Explains(registered, files, request, key, result)
  {
    hide Partials, VariantLocales, CacheKey;
    var key := request.Key(VariantLocales(registered, files));
    var result := Partials(registered, files, request.mode, request.format, request.locales);
    assert Explains(registered, files, request, key, result);
    assert request.Ask() in asked + {request.Ask()};
  }

  lemma MoreFormats(registered: Layer, files: Layer, asked: set<Ask>, more: set<Ask>,
                    partials: map<string, map<string, Delegate>>)
    requires asked <= more
    ensures Explained(registered, files, asked, partials) ==> Explained(registered, files, more, partials)
  {
    hide Explains;
  }

  lemma NoNames(registered: Layer, files: Layer, mode: Mode, format: string, locales: seq<string>)
    ensures ByName(registered, files, mode, locales, []) == map[]
    ensures Aliases(registered, files, format, locales, []) == map[]
  {}

  lemma NamedAliases(registered: Layer, files: Layer, mode: Mode, format: string, locales: seq<string>,
                     names: seq<string>)
    ensures
      var aliases := Aliases(registered, files, format, locales, names);
      forall a :: a in aliases ==> aliases[a] in ByName(registered, files, mode, locales, names)
  {
    hide Found, TemplateFormat, AliasOf, Compile, Aliases;
  }

  class HandlebarsTemplateEngine {
    var registered: Layer
    var files: Layer
    var loading: bool
    var partials: map<string, map<string, Delegate>>
    var variantLocales: Option<set<string>>
    /** The formats, with their modes, that partials were asked for since a layer last changed. */
    ghost var asked: set<Ask>

    ghost predicate Valid()
      reads this
    {
      && IsLayer(registered) && IsLayer(files)
      && (variantLocales.Some? ==> variantLocales.value == VariantLocales(registered, files))
      && Explained(registered, files, asked, partials)
    }

    constructor ()
      ensures Valid() && registered == NO_TEMPLATES && files == NO_TEMPLATES && !loading && asked == {}
    {
      registered, files, loading := NO_TEMPLATES, NO_TEMPLATES, false;
      partials, variantLocales, asked := map[], None, {};
    }

    method ClearPartials()
      modifies this
      ensures partials == map[] && variantLocales == None && asked == {}
      ensures registered == old(registered) && files == old(files) && loading == old(loading)
    {
      partials, variantLocales, asked := map[], None, {};
    }

    /** Adds a template unless its locale or syntax is invalid. */
    method RegisterTemplate(template: File, accepted: bool) returns (ok: bool)
      requires Valid() && '|' !in template.tag
      modifies this
      ensures Valid() && ok == accepted
      ensures registered == if accepted then Added(old(registered), template) else old(registered)
      ensures files == old(files) && loading == old(loading)
      ensures asked == if accepted then {} else old(asked)
    {
      hide IsLayer, Added;
      if !accepted {
        return false;
      }
      AddedIsLayer(registered, template);
      registered := Added(registered, template);
      ClearPartials();
      ok := true;
    }

    /** Reads the files unless one of them cannot be read or parsed. */
    method LoadFiles(disk: Option<seq<File>>) returns (ok: bool)
      requires Valid() && (disk.Some? ==> forall f :: f in disk.value ==> '|' !in f.tag)
      modifies this
      ensures Valid() && ok == disk.Some?
      ensures registered == old(registered) && loading == old(loading)
      ensures files == if disk.Some? then Loaded(disk.value) else old(files)
      ensures asked == if disk.Some? then {} else old(asked)
    {
      hide IsLayer, Added;
      if disk.None? {
        return false;
      }
      var loaded := NO_TEMPLATES;
      for i := 0 to |disk.value|
        invariant loaded == Loaded(disk.value[..i])
      {
        assert disk.value[..i + 1][..i] == disk.value[..i];
        loaded := Added(loaded, disk.value[i]);
      }
      assert disk.value[..|disk.value|] == disk.value;
      LoadedIsLayer(disk.value);
      files := loaded;
      ClearPartials();
      ok := true;
    }

    /** Reads the files at the first use, and at each use when caching is off. */
    method Load(disk: Option<seq<File>>, cache: bool) returns (ok: bool)
      requires Valid() && (disk.Some? ==> forall f :: f in disk.value ==> '|' !in f.tag)
      modifies this
      ensures Valid() && registered == old(registered)
      ensures ok == ((old(loading) && cache) || disk.Some?) && loading == ok
      ensures files == if (old(loading) && cache) || disk.None? then old(files) else Loaded(disk.value)
      ensures asked == if (old(loading) && cache) || disk.None? then old(asked) else {}
    {
      ok := true;
      if !loading || !cache {
        loading := true;
        ok := LoadFiles(disk);
        loading := ok;
      }
    }

    method FindTemplate(name: string, locales: seq<string>) returns (entry: Option<Entry>)
      ensures entry == Found(registered, files, name, locales)
      ensures IsFound(registered, files, name, locales, entry)
    {
      FoundIsFound(registered, files, name, locales);
      var all := locales + [""];
      assert Found(registered, files, name, locales) == Found(registered, files, name, locales[0..]);
      for i := 0 to |all|
        invariant i <= |locales| ==>
                  Found(registered, files, name, locales) == Found(registered, files, name, locales[i..])
        invariant i > |locales| ==> Found(registered, files, name, locales) == None
      {
        entry := Lookup(registered, name, all[i]);
        if entry.Some? {
          return;
        }
        entry := Lookup(files, name, all[i]);
        if entry.Some? {
          return;
        }
        assert i < |locales| ==> locales[i..][1..] == locales[i + 1..];
      }
      entry := None;
    }

    method VariantLocalesNow() returns (kept: set<string>)
      requires Valid()
      modifies `variantLocales
      ensures Valid() && kept == VariantLocales(registered, files)
    {
      if variantLocales.None? {
        var inRegistered := LocalesOf(registered);
        var inFiles := LocalesOf(files);
        variantLocales := Some(inRegistered + inFiles);
      }
      kept := variantLocales.value;
    }

    static method LocalesOf(layer: Layer) returns (locales: set<string>)
      requires IsLayer(layer)
      ensures locales == VariantLocalesIn(layer)
    {
      locales := {};
      for i := 0 to |layer.names|
        invariant locales == set n, l | n in layer.names[..i] && l in layer.variants[n] :: l
      {
        assert layer.names[i] in layer.variants;
        assert layer.names[..i + 1] == layer.names[..i] + [layer.names[i]];
        locales := locales + layer.variants[layer.names[i]].Keys;
      }
      assert layer.names[..|layer.names|] == layer.names;
    }

    /** The partials of a request, cached. They are the ones computed afresh, for this request or another
        one with its key, and so for this one while no formats asked for clash. */
    method PartialsFor(mode: Mode, format: string, locales: seq<string>) returns (result: map<string, Delegate>)
      requires Valid()
      modifies `variantLocales, `partials, `asked
      ensures Valid() && asked == old(asked) + {Ask(mode, format)}
      ensures exists r: Request :: r.Ask() in asked &&
                Explains(registered, files, r, Request(mode, format, locales).Key(VariantLocales(registered, files)),
                         result)
      ensures NoneClash(VariantLocales(registered, files), asked) ==>
                result == Partials(registered, files, mode, format, locales)
    {
      hide IsLayer, Partials, VariantLocales, CacheKey, Explains, Explained, NoneClash;
      ghost var request := Request(mode, format, locales);
      var kept := VariantLocalesNow();
      var key := CacheKey(mode, format, Restricted(locales, kept));
      assert key == request.Key(kept);
      asked := asked + {Ask(mode, format)};
      if key in partials {
        result := partials[key];
        ExplainedAnswers(registered, files, old(asked), partials, request);
      } else {
        result := ComputePartials(mode, format, locales);
        ExplainedOneMore(registered, files, old(asked), partials, request);
        partials := partials[key := result];
      }
      MoreFormats(registered, files, old(asked), asked, partials);
    }

    method ComputePartials(mode: Mode, format: string, locales: seq<string>) returns (result: map<string, Delegate>)
      ensures result == Partials(registered, files, mode, format, locales)
    {
      hide Found, TemplateFormat, AliasOf, ByName, Aliases, Compile;
      var names := Unique(files.names + registered.names);
      result := map[];
      var aliases: map<string, string> := map[];
      NoNames(registered, files, mode, format, locales);
      for i := 0 to |names|
        invariant result == ByName(registered, files, mode, locales, names[..i])
        invariant aliases == Aliases(registered, files, format, locales, names[..i])
      {
        var name := names[i];
        assert names[..i + 1] == names[..i] + [name];
        OneMoreName(registered, files, mode, format, locales, names[..i], name);
        var entry := FindTemplate(name, locales);
        if entry.Some? {
          result := result[name := Compile(entry.value, mode)];
          var nameFormat := TemplateFormat(name);
          if nameFormat != "" {
            var a := AliasOf(name);
            if a !in aliases || nameFormat == format {
              aliases := aliases[a := name];
            }
          }
        }
      }
      assert names[..|names|] == names;
      assert forall a :: a in aliases ==> aliases[a] in result by {
        NamedAliases(registered, files, mode, format, locales, names);
      }
      result := AddAliases(result, aliases);
    }

    static method AddAliases(byName: map<string, Delegate>, aliases: map<string, string>)
      returns (result: map<string, Delegate>)
      requires forall a :: a in aliases ==> aliases[a] in byName
      ensures result == (map a | a in aliases :: byName[aliases[a]]) + byName
    {
      result := byName;
      var rest := aliases.Keys;
      while rest != {}
        invariant rest <= aliases.Keys
        invariant result == (map a | a in aliases && a !in rest :: byName[aliases[a]]) + byName
      {
        var a :| a in rest;
        if a !in result {
          result := result[a := result[aliases[a]]];
        }
        rest := rest - {a};
      }
    }

    /** Renders a template, which is found and given its partials in the layers as they are then. */
    method Render(name: string, locales: seq<string>, disk: Option<seq<File>>, cache: bool) returns (outcome: Outcome)
      requires Valid() && (disk.Some? ==> forall f :: f in disk.value ==> '|' !in f.tag)
      modifies this
      ensures Valid() && registered == old(registered)
      ensures files == if (old(loading) && cache) || disk.None? then old(files) else Loaded(disk.value)
      ensures outcome == LoadFailed <==> (!old(loading) || !cache) && disk.None?
      ensures outcome == NotFound ==> IsFound(registered, files, name, locales, None)
      ensures outcome.Rendered? ==>
                var entry := Found(registered, files, name, locales);
                entry.Some? && IsFound(registered, files, name, locales, entry) &&
                outcome.template == Compiled(entry.value.source, ModeOf(entry.value.format)) &&
                (NoneClash(VariantLocales(registered, files), asked) ==>
                  outcome.partials ==
                  Partials(registered, files, ModeOf(entry.value.format), entry.value.format, locales))
      ensures asked == (if (old(loading) && cache) || disk.None? then old(asked) else {}) +
                       if outcome.Rendered? then {AskFor(Found(registered, files, name, locales).value.format)} else {}
    {
      hide IsLayer, Partials, VariantLocales, CacheKey, Found, IsFound, Loaded, ModeOf;
      var loaded := Load(disk, cache);
      if !loaded {
        return LoadFailed;
      }
      var entry := FindTemplate(name, locales);
      if entry.None? {
        return NotFound;
      }
      outcome := Execute(entry.value, locales);
    }

    /** Renders the text of a template, for which any format may be given. */
    method RenderString(source: string, format: Option<string>, locales: seq<string>, disk: Option<seq<File>>,
                        cache: bool)
      returns (outcome: Outcome)
      requires Valid() && (disk.Some? ==> forall f :: f in disk.value ==> '|' !in f.tag)
      modifies this
      ensures Valid() && registered == old(registered)
      ensures files == if (old(loading) && cache) || disk.None? then old(files) else Loaded(disk.value)
      ensures outcome == LoadFailed <==> (!old(loading) || !cache) && disk.None?
      ensures asked == (if (old(loading) && cache) || disk.None? then old(asked) else {}) +
                       if outcome.Rendered? then {AskFor(if format.Some? then Lower(format.value) else "html")} else {}
      ensures outcome.Rendered? ==>
                var used := if format.Some? then Lower(format.value) else "html";
                outcome.template == Compiled(source, ModeOf(used)) &&
                (NoneClash(VariantLocales(registered, files), asked) ==>
                  outcome.partials == Partials(registered, files, ModeOf(used), used, locales))
      ensures outcome != NotFound
    {
      hide IsLayer, Partials, VariantLocales, CacheKey, Found, Loaded, ModeOf;
      var loaded := Load(disk, cache);
      if !loaded {
        return LoadFailed;
      }
      outcome := Execute(Entry(source, if format.Some? then Lower(format.value) else "html"), locales);
    }

    method Execute(entry: Entry, locales: seq<string>) returns (outcome: Outcome)
      requires Valid()
      modifies `variantLocales, `partials, `asked
      ensures Valid() && outcome.Rendered? && asked == old(asked) + {AskFor(entry.format)}
      ensures outcome.template == Compile(entry, ModeOf(entry.format))
      ensures NoneClash(VariantLocales(registered, files), asked) ==>
                outcome.partials == Partials(registered, files, ModeOf(entry.format), entry.format, locales)
    {
      hide IsLayer, Partials, VariantLocales, CacheKey, ModeOf;
      var mode := ModeOf(entry.format);
      var included := PartialsFor(mode, entry.format, locales);
      outcome := Rendered(Compile(entry, mode), included);
    }
  }
}

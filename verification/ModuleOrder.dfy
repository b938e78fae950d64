/** The order modules are loaded in. packages/core/app/discover-modules.ts */
module ModuleOrder {
  import opened Options

  datatype Manifest = Manifest(name: string, requirements: seq<string>)

  /** The module `requiredBy` requires `name`, which is not enabled. */
  datatype Missing = Missing(name: string, requiredBy: string)

  datatype Outcome = Ordered(modules: seq<Manifest>) | Failed(missing: Missing)

  ghost predicate UniqueNames(modules: seq<Manifest>) {
    forall i, j :: 0 <= i < j < |modules| ==> modules[i].name != modules[j].name
  }

  ghost function Names(modules: seq<Manifest>): set<string> {
    set m | m in modules :: m.name
  }

  ghost predicate IsMissing(modules: seq<Manifest>, missing: Missing) {
    missing.name !in Names(modules) && Requires(modules, missing.requiredBy, missing.name)
  }

  ghost predicate Requires(modules: seq<Manifest>, a: string, b: string) {
    exists m :: m in modules && m.name == a && b in m.requirements
  }

  /** Each module of p requires the next one. */
  ghost predicate Chain(modules: seq<Manifest>, p: seq<string>) {
    forall i :: 0 < i < |p| ==> Requires(modules, p[i - 1], p[i])
  }

  ghost predicate Leads(modules: seq<Manifest>, a: string, b: string) {
    exists p: seq<string> :: p != [] && p[0] == a && p[|p| - 1] == b && Chain(modules, p)
  }

  /** No module requires one that leads back to it. */
  ghost predicate Acyclic(modules: seq<Manifest>) {
    forall m, r :: m in modules && r in m.requirements ==> !Leads(modules, r, m.name)
  }

  /** Each module comes after those it requires, except for the ones that lead back to it. */
  ghost predicate Placed(modules: seq<Manifest>, ordered: seq<Manifest>) {
    forall i, r :: 0 <= i < |ordered| && r in ordered[i].requirements ==>
      r in Names(ordered[..i]) || Leads(modules, r, ordered[i].name)
  }

  ghost predicate RequiredFirst(ordered: seq<Manifest>) {
    forall i, r :: 0 <= i < |ordered| && r in ordered[i].requirements ==> r in Names(ordered[..i])
  }

  lemma LeadsToItself(modules: seq<Manifest>, a: string)
    ensures Leads(modules, a, a)
  {
    assert [a][0] == a && Chain(modules, [a]);
  }

  lemma LeadsOneFurther(modules: seq<Manifest>, a: string, b: string, r: string)
    requires Leads(modules, a, b) && Requires(modules, b, r)
    ensures Leads(modules, a, r)
  {
    hide Requires;
    var p :| p != [] && p[0] == a && p[|p| - 1] == b && Chain(modules, p);
    var q := p + [r];
    forall i | 0 < i < |q| ensures Requires(modules, q[i - 1], q[i]) {
      if i < |p| {
        assert p[i] == q[i] && p[i - 1] == q[i - 1];
      }
    }
    assert q[0] == a && q[|q| - 1] == r;
  }

  lemma {:induction false} CountInUnique(modules: seq<Manifest>, m: Manifest)
    requires UniqueNames(modules)
    ensures multiset(modules)[m] == if m in modules then 1 else 0
  {
    if modules != [] {
      var init, last := modules[..|modules| - 1], modules[|modules| - 1];
      CountInUnique(init, m);
      assert modules == init + [last];
    }
  }

  lemma SameModules(a: seq<Manifest>, b: seq<Manifest>)
    requires UniqueNames(a) && UniqueNames(b) && Names(a) == Names(b) && forall m :: m in a ==> m in b
    ensures multiset(a) == multiset(b)
  {
    forall m ensures multiset(a)[m] == multiset(b)[m] {
      CountInUnique(a, m);
      CountInUnique(b, m);
      if m in b {
        assert m.name in Names(a);
        var n :| n in a && n.name == m.name;
      }
    }
  }

  lemma NamesOneMore(modules: seq<Manifest>, m: Manifest)
    ensures Names(modules + [m]) == Names(modules) + {m.name}
  {}

  /** What holds between any two steps of the walk. */
  ghost predicate Walking(modules: seq<Manifest>, ordered: seq<Manifest>, visited: set<string>) {
    && UniqueNames(ordered) && Names(ordered) <= visited <= Names(modules)
    && (forall m :: m in ordered ==> m in modules)
    && (forall m, r :: m in ordered && r in m.requirements ==> r in Names(modules))
    && Placed(modules, ordered)
  }

  /** The modules whose visit has begun and not ended. */
  ghost function Open(ordered: seq<Manifest>, visited: set<string>): set<string> {
    visited - Names(ordered)
  }

  lemma Begun(modules: seq<Manifest>, ordered: seq<Manifest>, visited: set<string>, entry: Manifest)
    requires Walking(modules, ordered, visited) && entry in modules && entry.name !in visited
    ensures Walking(modules, ordered, visited + {entry.name})
    ensures Open(ordered, visited + {entry.name}) == Open(ordered, visited) + {entry.name}
    ensures visited < visited + {entry.name} <= Names(modules)
    ensures entry.name !in Open(ordered, visited)
  {}

  lemma OpenLead(modules: seq<Manifest>, before: set<string>, entry: Manifest, r: string)
    requires entry in modules && r in entry.requirements
    requires forall g :: g in before ==> Leads(modules, g, entry.name)
    ensures forall g :: g in before + {entry.name} ==> Leads(modules, g, r)
  {
    LeadsToItself(modules, entry.name);
    forall g | g in before + {entry.name} ensures Leads(modules, g, r) {
      LeadsOneFurther(modules, g, entry.name, r);
    }
  }

  lemma Ended(modules: seq<Manifest>, ordered: seq<Manifest>, visited: set<string>, entry: Manifest,
              before: set<string>)
    requires Walking(modules, ordered, visited) && entry in modules
    requires Open(ordered, visited) == before + {entry.name} && entry.name !in before
    requires forall r :: r in entry.requirements ==> r in visited
    requires forall g :: g in before ==> Leads(modules, g, entry.name)
    ensures Walking(modules, ordered + [entry], visited)
    ensures Open(ordered + [entry], visited) == before
  {
    hide Leads, UniqueNames;
    NamesOneMore(ordered, entry);
    LeadsToItself(modules, entry.name);
    EndedIsUnique(ordered, entry);
    var more := ordered + [entry];
    forall i, r | 0 <= i < |more| && r in more[i].requirements
      ensures r in Names(more[..i]) || Leads(modules, r, more[i].name)
    {
      assert more[..i] == ordered[..i];
      if i == |ordered| {
        assert more[..i] == ordered && r in visited;
      } else {
        assert more[i] == ordered[i];
      }
    }
  }

  lemma EndedIsUnique(ordered: seq<Manifest>, entry: Manifest)
    requires UniqueNames(ordered) && entry.name !in Names(ordered)
    ensures UniqueNames(ordered + [entry])
  {
    forall i | 0 <= i < |ordered| ensures ordered[i].name != entry.name {
      assert ordered[i] in ordered;
    }
  }

  /** The depth-first walk over the requirements. */
  class Walk {
    const modules: seq<Manifest>
    const byName: map<string, Manifest>
    var ordered: seq<Manifest>
    var visited: set<string>

    ghost predicate Valid()
      reads this
    {
      && UniqueNames(modules) && byName.Keys == Names(modules)
      && (forall n :: n in byName ==> byName[n] in modules && byName[n].name == n)
      && Walking(modules, ordered, visited)
    }

    constructor (modules: seq<Manifest>)
      requires UniqueNames(modules)
      ensures Valid() && this.modules == modules && ordered == [] && visited == {}
    {
      this.modules := modules;
      byName := map m | m in modules :: m.name := m;
      ordered, visited := [], {};
    }

    /** The open modules all lead to the visited one. A visit that does not fail leaves the same ones open. */
    method Visit(entry: Manifest) returns (missing: Option<Missing>)
      requires Valid() && entry in modules
      requires forall g :: g in Open(ordered, visited) ==> Leads(modules, g, entry.name)
      modifies this
      ensures missing.Some? ==> IsMissing(modules, missing.value)
      ensures missing.None? ==> Valid() && old(visited) + {entry.name} <= visited
      ensures missing.None? ==> Open(ordered, visited) == old(Open(ordered, visited))
      ensures entry.name in old(visited) ==> missing.None? && ordered == old(ordered) && visited == old(visited)
      ensures missing.None? && entry.name !in old(visited) &&
              (forall r :: r in entry.requirements ==> r in old(visited)) ==>
                ordered == old(ordered) + [entry]
      decreases Names(modules) - visited
    {
      hide Walking, Names, Open, UniqueNames, Leads;
      if entry.name in visited {
        return None;
      }
      ghost var before := Open(ordered, visited);
      Begun(modules, ordered, visited, entry);
      visited := visited + {entry.name};
      ghost var begun := visited;
      for i := 0 to |entry.requirements|
        invariant Valid() && begun <= visited
        invariant Open(ordered, visited) == before + {entry.name}
        invariant forall k :: 0 <= k < i ==> entry.requirements[k] in visited
        invariant (forall r :: r in entry.requirements ==> r in old(visited)) ==> ordered == old(ordered)
      {
        var required := entry.requirements[i];
        if required !in byName {
          return Some(Missing(required, entry.name));
        }
        OpenLead(modules, before, entry, required);
        missing := Visit(byName[required]);
        if missing.Some? {
          return;
        }
      }
      Ended(modules, ordered, visited, entry, before);
      ordered := ordered + [entry];
      missing := None;
    }
  }

  /** Orders the modules, or fails exactly when one of them requires a name that is not enabled. The order
      holds every module once, each after those it requires unless they lead back to it, and keeps a list
      that is in order already. */
  method OrderByRequires(modules: seq<Manifest>) returns (outcome: Outcome)
    requires UniqueNames(modules)
    ensures outcome.Failed? <==> exists missing :: IsMissing(modules, missing)
    ensures outcome.Failed? ==> IsMissing(modules, outcome.missing)
    ensures outcome.Ordered? ==> multiset(outcome.modules) == multiset(modules) && Placed(modules, outcome.modules)
    ensures RequiredFirst(modules) ==> outcome == Ordered(modules)
  {
    hide Walking, Names, Open, UniqueNames, Leads, IsMissing, Placed, RequiredFirst;
    var walk := new Walk(modules);
    NothingOpen(modules);
    for i := 0 to |modules|
      invariant walk.Valid() && walk.modules == modules && Open(walk.ordered, walk.visited) == {}
      invariant Names(modules[..i]) <= walk.visited
      invariant RequiredFirst(modules) ==> walk.ordered == modules[..i]
    {
      assert modules[..i + 1] == modules[..i] + [modules[i]];
      NamesOneMore(modules[..i], modules[i]);
      NotYetVisited(walk, i);
      var missing := walk.Visit(modules[i]);
      if missing.Some? {
        NothingMissing(modules, missing.value);
        return Failed(missing.value);
      }
    }
    assert modules[..|modules|] == modules;
    AllOrdered(modules, walk.ordered, walk.visited);
    outcome := Ordered(walk.ordered);
  }

  lemma NothingOpen(modules: seq<Manifest>)
    ensures Open([], {}) == {} && Names([]) == {}
  {}

  lemma NotYetVisited(walk: Walk, i: nat)
    requires walk.Valid() && Open(walk.ordered, walk.visited) == {} && i < |walk.modules|
    ensures RequiredFirst(walk.modules) && walk.ordered == walk.modules[..i] ==>
              walk.modules[i].name !in walk.visited &&
              forall r :: r in walk.modules[i].requirements ==> r in walk.visited
  {
    var modules := walk.modules;
    assert modules[i].name !in Names(modules[..i]);
    forall n | n in walk.visited ensures n in Names(walk.ordered) {
      assert n !in Open(walk.ordered, walk.visited);
    }
  }

  lemma NothingMissing(modules: seq<Manifest>, missing: Missing)
    requires IsMissing(modules, missing)
    ensures !RequiredFirst(modules)
  {
    var m :| m in modules && m.name == missing.requiredBy && missing.name in m.requirements;
    var i :| 0 <= i < |modules| && modules[i] == m;
    assert Names(modules[..i]) <= Names(modules);
    assert missing.name in modules[i].requirements && missing.name !in Names(modules[..i]);
  }

  lemma AllOrdered(modules: seq<Manifest>, ordered: seq<Manifest>, visited: set<string>)
    requires UniqueNames(modules) && Walking(modules, ordered, visited)
    requires Open(ordered, visited) == {} && Names(modules) <= visited
    ensures multiset(ordered) == multiset(modules) && Placed(modules, ordered)
    ensures forall missing :: !IsMissing(modules, missing)
  {
    forall n | n in visited ensures n in Names(ordered) {
      assert n !in Open(ordered, visited);
    }
    SameModules(ordered, modules);
    forall missing ensures !IsMissing(modules, missing) {
      if m :| m in modules && m.name == missing.requiredBy && missing.name in m.requirements {
        assert m in multiset(ordered);
        assert m in ordered;
      }
    }
  }

  /** When no module requires one that leads back to it, every module comes after those it requires. */
  lemma AcyclicIsRequiredFirst(modules: seq<Manifest>, ordered: seq<Manifest>)
    requires multiset(ordered) == multiset(modules) && Placed(modules, ordered) && Acyclic(modules)
    ensures RequiredFirst(ordered)
  {
    forall i, r | 0 <= i < |ordered| && r in ordered[i].requirements ensures r in Names(ordered[..i]) {
      assert ordered[i] in multiset(modules);
      assert ordered[i] in modules;
    }
  }
}

/** The released packages a sample needs. tools/lock-samples.js */
module NeededReleases {
  /** The released packages, each with the names its manifest depends on. */
  type Releases = map<string, seq<string>>

  /** Released packages, each depending on the next one. */
  ghost predicate Chain(releases: Releases, p: seq<string>) {
    && (forall i :: 0 <= i < |p| ==> p[i] in releases)
    && (forall i :: 0 < i < |p| ==> p[i] in releases[p[i - 1]])
  }

  /** A chain of released packages leads from one of the roots to the package. */
  ghost predicate Needed(releases: Releases, roots: seq<string>, name: string) {
    exists p: seq<string> :: p != [] && p[0] in roots && Chain(releases, p) && p[|p| - 1] == name
  }

  /** The sample or a needed package asks for the name, released or not. */
  ghost predicate Asked(releases: Releases, roots: seq<string>, name: string) {
    name in roots || exists m :: Needed(releases, roots, m) && name in releases && m in releases && name in releases[m]
  }

  lemma AskedIsNeeded(releases: Releases, roots: seq<string>, name: string)
    requires name in releases && Asked(releases, roots, name)
    ensures Needed(releases, roots, name)
  {
    if name in roots {
      assert [name][0] == name && Chain(releases, [name]);
    } else {
      var m :| Needed(releases, roots, m) && m in releases && name in releases[m];
      var p :| p != [] && p[0] in roots && Chain(releases, p) && p[|p| - 1] == m;
      var q := p + [name];
      assert q[0] == p[0] && Chain(releases, q) && q[|q| - 1] == name;
    }
  }

  /** Packages that hold the released roots, and whatever released packages they depend on, hold all
      that is needed. */
  lemma {:induction false} ClosedHoldsNeeded(releases: Releases, roots: seq<string>, held: set<string>, p: seq<string>)
    requires forall r :: r in roots && r in releases ==> r in held
    requires forall m, n :: m in held && m in releases && n in releases[m] && n in releases ==> n in held
    requires p != [] && p[0] in roots && Chain(releases, p)
    ensures p[|p| - 1] in held
  {
    if |p| > 1 {
      var q := p[..|p| - 1];
      assert q[0] == p[0];
      forall i | 0 < i < |q| ensures q[i] in releases[q[i - 1]] {
        assert p[i] in releases[p[i - 1]];
      }
      ClosedHoldsNeeded(releases, roots, held, q);
    }
  }

  function Flagged(names: seq<string>, dev: bool): (r: seq<(string, bool)>)
    ensures |r| == |names|
    ensures forall i :: 0 <= i < |r| ==> r[i] == (names[i], dev)
  {
    seq(|names|, i requires 0 <= i < |names| => (names[i], dev))
  }

  ghost function NonDev(needed: map<string, bool>): set<string> {
    set n | n in needed && !needed[n]
  }

  /** The name, with at most this flag, is done or still to do. */
  ghost predicate Covered(releases: Releases, needed: map<string, bool>, pending: seq<(string, bool)>, name: string,
                          dev: bool)
  {
    name in releases ==> (name in needed && (dev || !needed[name])) || (name, dev) in pending
  }

  /** Nothing in hand that the sample does not ask for. */
  ghost predicate Sound(releases: Releases, roots: seq<string>, devRoots: seq<string>,
                        needed: map<string, bool>, pending: seq<(string, bool)>) {
    && (forall n :: n in needed ==> Needed(releases, if needed[n] then roots + devRoots else roots, n))
    && (forall t :: t in pending && t.0 in releases ==> Asked(releases, if t.1 then roots + devRoots else roots, t.0))
  }

  /** Nothing forgotten. */
  ghost predicate Complete(releases: Releases, roots: seq<string>, devRoots: seq<string>,
                           needed: map<string, bool>, pending: seq<(string, bool)>) {
    && (forall n :: n in roots ==> Covered(releases, needed, pending, n, false))
    && (forall n :: n in devRoots ==> Covered(releases, needed, pending, n, true))
    && (forall m, n :: m in needed && m in releases && n in releases[m] ==>
          Covered(releases, needed, pending, n, needed[m]))
  }

  lemma DrainedIsExact(releases: Releases, roots: seq<string>, devRoots: seq<string>, needed: map<string, bool>)
    requires Sound(releases, roots, devRoots, needed, []) && Complete(releases, roots, devRoots, needed, [])
    ensures forall n :: n in needed <==> Needed(releases, roots + devRoots, n)
    ensures forall n :: n in needed ==> (!needed[n] <==> Needed(releases, roots, n))
  {
    forall n | Needed(releases, roots + devRoots, n) ensures n in needed {
      var p :| p != [] && p[0] in roots + devRoots && Chain(releases, p) && p[|p| - 1] == n;
      ClosedHoldsNeeded(releases, roots + devRoots, needed.Keys, p);
    }
    forall n | Needed(releases, roots, n) ensures n in needed && !needed[n] {
      var p :| p != [] && p[0] in roots && Chain(releases, p) && p[|p| - 1] == n;
      ClosedHoldsNeeded(releases, roots, NonDev(needed), p);
    }
    forall n | n in needed ensures Needed(releases, roots + devRoots, n) {
      NeededByMore(releases, roots, devRoots, n);
    }
  }

  lemma NeededByMore(releases: Releases, roots: seq<string>, devRoots: seq<string>, n: string)
    requires Needed(releases, roots, n)|| Needed(releases, roots + devRoots, n)
    ensures Needed(releases, roots + devRoots, n)
  {
    if Needed(releases, roots, n) {
      var p :| p != [] && p[0] in roots && Chain(releases, p) && p[|p| - 1] == n;
      assert p[0] in roots + devRoots;
    }
  }

  /** The released packages reachable through released packages from the dependencies of the sample, of
      either kind, each flagged as dev unless the plain dependencies lead to it. */
  method NeededReleases(dependencies: seq<string>, devDependencies: seq<string>, releases: Releases)
    returns (needed: map<string, bool>)
    ensures forall n :: n in needed <==> Needed(releases, dependencies + devDependencies, n)
    ensures forall n :: n in needed ==> (needed[n] <==> !Needed(releases, dependencies, n))
  {
    hide *;
    needed := map[];
    var pending := Flagged(dependencies, false) + Flagged(devDependencies, true);
    StartIsSound(releases, dependencies, devDependencies);
    while |pending| > 0
      invariant needed.Keys <= releases.Keys
      invariant Sound(releases, dependencies, devDependencies, needed, pending)
      invariant Complete(releases, dependencies, devDependencies, needed, pending)
      decreases releases.Keys - needed.Keys, releases.Keys - NonDev(needed), |pending|
    {
      var name, dev := pending[0].0, pending[0].1;
      ghost var before := pending;
      pending := pending[1..];
      if name !in releases || (name in needed && (dev || !needed[name])) {
        Skipped(releases, dependencies, devDependencies, needed, before);
      } else {
        Taken(releases, dependencies, devDependencies, needed, before);
        Progress(releases, needed, name, dev);
        needed := needed[name := dev];
        pending := pending + Flagged(releases[name], dev);
      }
    }
    assert pending == [];
    DrainedIsExact(releases, dependencies, devDependencies, needed);
  }

  /** A name moves from absent to dev to non-dev only. */
  lemma Progress(releases: Releases, needed: map<string, bool>, name: string, dev: bool)
    requires name in releases && (name in needed ==> !dev && needed[name])
    ensures
      var next := needed[name := dev];
      if name !in needed then releases.Keys - next.Keys < releases.Keys - needed.Keys
      else releases.Keys - next.Keys == releases.Keys - needed.Keys &&
           releases.Keys - NonDev(next) < releases.Keys - NonDev(needed)
  {
    if name in needed {
      assert name in releases.Keys - NonDev(needed);
    } else {
      assert name in releases.Keys - needed.Keys;
    }
  }

  lemma StartIsSound(releases: Releases, roots: seq<string>, devRoots: seq<string>)
    ensures Sound(releases, roots, devRoots, map[], Flagged(roots, false) + Flagged(devRoots, true))
    ensures Complete(releases, roots, devRoots, map[], Flagged(roots, false) + Flagged(devRoots, true))
  {
    var a, b := Flagged(roots, false), Flagged(devRoots, true);
    forall t: (string, bool) | t in a + b ensures Asked(releases, if t.1 then roots + devRoots else roots, t.0) {
      assert t in a || t in b;
    }
    forall n | n in roots ensures (n, false) in a + b {
      var i :| 0 <= i < |roots| && roots[i] == n;
      assert a[i] in a + b;
    }
    forall n | n in devRoots ensures (n, true) in a + b {
      var i :| 0 <= i < |devRoots| && devRoots[i] == n;
      assert b[i] in a + b;
    }
  }

  lemma Skipped(releases: Releases, roots: seq<string>, devRoots: seq<string>,
                needed: map<string, bool>, pending: seq<(string, bool)>)
    requires pending != [] && Sound(releases, roots, devRoots, needed, pending)
    requires Complete(releases, roots, devRoots, needed, pending)
    requires pending[0].0 !in releases || (pending[0].0 in needed && (pending[0].1 || !needed[pending[0].0]))
    ensures Sound(releases, roots, devRoots, needed, pending[1..])
    ensures Complete(releases, roots, devRoots, needed, pending[1..])
  {
    forall n: string, dev: bool | Covered(releases, needed, pending, n, dev)
      ensures Covered(releases, needed, pending[1..], n, dev)
    {
      assert pending == [pending[0]] + pending[1..];
    }
  }

  lemma Taken(releases: Releases, roots: seq<string>, devRoots: seq<string>,
              needed: map<string, bool>, pending: seq<(string, bool)>)
    requires pending != [] && Sound(releases, roots, devRoots, needed, pending)
    requires Complete(releases, roots, devRoots, needed, pending)
    requires pending[0].0 in releases && (pending[0].0 in needed ==> !pending[0].1 && needed[pending[0].0])
    ensures var (name, dev) := pending[0];
            var more := pending[1..] + Flagged(releases[name], dev);
            Sound(releases, roots, devRoots, needed[name := dev], more) &&
            Complete(releases, roots, devRoots, needed[name := dev], more)
  {
    hide *;
    TakenIsSound(releases, roots, devRoots, needed, pending);
    TakenIsComplete(releases, roots, devRoots, needed, pending);
  }

  lemma TakenIsSound(releases: Releases, roots: seq<string>, devRoots: seq<string>,
                     needed: map<string, bool>, pending: seq<(string, bool)>)
    requires pending != [] && Sound(releases, roots, devRoots, needed, pending)
    requires pending[0].0 in releases
    ensures Sound(releases, roots, devRoots, needed[pending[0].0 := pending[0].1],
                  pending[1..] + Flagged(releases[pending[0].0], pending[0].1))
  {
    hide Needed;
    var (name, dev) := pending[0];
    var added := Flagged(releases[name], dev);
    assert pending[0] in pending;
    AskedIsNeeded(releases, if dev then roots + devRoots else roots, name);
    forall t: (string, bool) | t in pending[1..] + added && t.0 in releases
      ensures Asked(releases, if t.1 then roots + devRoots else roots, t.0)
    {
      if t in added {
        assert t.0 in releases[name];
      } else {
        assert t in pending;
      }
    }
  }

  lemma StillCovered(releases: Releases, needed: map<string, bool>, pending: seq<(string, bool)>,
                     added: seq<(string, bool)>, n: string, d: bool)
    requires pending != [] && Covered(releases, needed, pending, n, d)
    requires pending[0].0 in needed ==> !pending[0].1
    ensures Covered(releases, needed[pending[0].0 := pending[0].1], pending[1..] + added, n, d)
  {
    assert pending == [pending[0]] + pending[1..];
  }

  lemma TakenIsComplete(releases: Releases, roots: seq<string>, devRoots: seq<string>,
                        needed: map<string, bool>, pending: seq<(string, bool)>)
    requires pending != [] && Complete(releases, roots, devRoots, needed, pending)
    requires pending[0].0 in releases && (pending[0].0 in needed ==> !pending[0].1)
    ensures Complete(releases, roots, devRoots, needed[pending[0].0 := pending[0].1],
                     pending[1..] + Flagged(releases[pending[0].0], pending[0].1))
  {
    var (name, dev) := pending[0];
    var added := Flagged(releases[name], dev);
    forall n | n in releases[name] ensures Covered(releases, needed[name := dev], pending[1..] + added, n, dev) {
      var i :| 0 <= i < |releases[name]| && releases[name][i] == n;
      assert added[i] in pending[1..] + added;
    }
    hide Covered;
    forall n: string, d: bool | Covered(releases, needed, pending, n, d)
      ensures Covered(releases, needed[name := dev], pending[1..] + added, n, d)
    {
      StillCovered(releases, needed, pending, added, n, d);
    }
  }
}

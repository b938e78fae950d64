/** Walks in a directed multigraph given as a list of edges. A walk is the list of the positions of
    the edges it takes, so two parallel edges make two different walks. */
module Walks {

  datatype Edge = Edge(from: string, to: string)

  ghost predicate Walk(edges: seq<Edge>, u: string, p: seq<int>, v: string)
    decreases |p|
  {
    if p == [] then u == v
    else 0 <= p[0] < |edges| && edges[p[0]].from == u && Walk(edges, edges[p[0]].to, p[1..], v)
  }

  ghost predicate Linked(edges: seq<Edge>, u: string, v: string) {
    exists p :: Walk(edges, u, p, v)
  }

  /** One or more edges lead from u to v. */
  ghost predicate Reaches(edges: seq<Edge>, u: string, v: string) {
    exists p :: p != [] && Walk(edges, u, p, v)
  }

  ghost predicate Acyclic(edges: seq<Edge>) {
    forall u, p :: Walk(edges, u, p, u) ==> p == []
  }

  ghost predicate SinglePath(edges: seq<Edge>) {
    forall u, v, p, q :: Walk(edges, u, p, v) && Walk(edges, u, q, v) ==> p == q
  }

  /** The shape SQL Server demands of the referential actions. */
  ghost predicate Admissible(edges: seq<Edge>) {
    Acyclic(edges) && SinglePath(edges)
  }

  lemma {:induction false} Join(edges: seq<Edge>, u: string, p: seq<int>, w: string, q: seq<int>, v: string)
    requires Walk(edges, u, p, w) && Walk(edges, w, q, v)
    ensures Walk(edges, u, p + q, v)
    decreases |p|
  {
    if p == [] {
      assert p + q == q;
    } else {
      assert (p + q)[1..] == p[1..] + q;
      Join(edges, edges[p[0]].to, p[1..], w, q, v);
    }
  }

  lemma {:induction false} Split(edges: seq<Edge>, u: string, p: seq<int>, q: seq<int>, v: string) returns (w: string)
    requires Walk(edges, u, p + q, v)
    ensures Walk(edges, u, p, w) && Walk(edges, w, q, v)
    decreases |p|
  {
    if p == [] {
      assert p + q == q;
      w := u;
    } else {
      assert (p + q)[1..] == p[1..] + q;
      w := Split(edges, edges[p[0]].to, p[1..], q, v);
    }
  }

  lemma {:induction false} EndUnique(edges: seq<Edge>, u: string, p: seq<int>, v: string, w: string)
    requires Walk(edges, u, p, v) && Walk(edges, u, p, w)
    ensures v == w
    decreases |p|
  {
    if p != [] {
      EndUnique(edges, edges[p[0]].to, p[1..], v, w);
    }
  }

  lemma {:induction false} Extend(edges: seq<Edge>, more: seq<Edge>, u: string, p: seq<int>, v: string)
    requires Walk(edges, u, p, v)
    ensures Walk(edges + more, u, p, v)
    decreases |p|
  {
    if p != [] {
      Extend(edges, more, edges[p[0]].to, p[1..], v);
    }
  }

  /** A walk that never takes the last edge is a walk without it. */
  lemma {:induction false} Restrict(edges: seq<Edge>, e: Edge, u: string, p: seq<int>, v: string)
    requires Walk(edges + [e], u, p, v)
    requires |edges| !in p
    ensures Walk(edges, u, p, v)
    decreases |p|
  {
    if p != [] {
      assert p[0] in p;
      Restrict(edges, e, (edges + [e])[p[0]].to, p[1..], v);
    }
  }

  lemma {:induction false} FirstUse(n: int, p: seq<int>) returns (before: seq<int>, after: seq<int>)
    requires n in p
    ensures p == before + ([n] + after) && n !in before
    decreases |p|
  {
    if p[0] == n {
      before, after := [], p[1..];
    } else {
      before, after := FirstUse(n, p[1..]);
      before := [p[0]] + before;
    }
  }

  /** Some table leading to `from` already leads to a table `to` leads to (or is one). */
  ghost predicate Blocked(edges: seq<Edge>, from: string, to: string) {
    exists s, t :: Linked(edges, s, from) && Linked(edges, to, t) && Linked(edges, s, t)
  }

  /** A walk through the last edge, cut where it first takes it. */
  lemma CutAtFirstUse(edges: seq<Edge>, e: Edge, u: string, p: seq<int>, v: string)
    returns (before: seq<int>, after: seq<int>)
    requires Walk(edges + [e], u, p, v)
    requires |edges| in p
    ensures p == before + ([|edges|] + after)
    ensures Walk(edges, u, before, e.from) && Walk(edges + [e], e.to, after, v)
  {
    before, after := FirstUse(|edges|, p);
    var w := Split(edges + [e], u, before, [|edges|] + after, v);
    assert ([|edges|] + after)[1..] == after;
    Restrict(edges, e, u, before, e.from);
  }

  /** Unless it is blocked, a new edge is taken at most once by any walk, which it cuts in two old walks. */
  lemma CutAtNewEdge(edges: seq<Edge>, e: Edge, u: string, p: seq<int>, v: string)
    returns (before: seq<int>, after: seq<int>)
    requires Walk(edges + [e], u, p, v)
    requires |edges| in p
    requires !Blocked(edges, e.from, e.to)
    ensures p == before + ([|edges|] + after)
    ensures Walk(edges, u, before, e.from) && Walk(edges, e.to, after, v)
  {
    before, after := CutAtFirstUse(edges, e, u, p, v);
    if |edges| in after {
      var again, _ := CutAtFirstUse(edges, e, e.to, after, v);
      assert Walk(edges, e.from, [], e.from);
      assert Linked(edges, e.from, e.from) && Linked(edges, e.to, e.from);
      assert false;
    }
    Restrict(edges, e, e.to, after, v);
  }

  lemma NewEdgeOnEvery(edges: seq<Edge>, e: Edge, u: string, p: seq<int>, q: seq<int>, v: string)
    requires !Blocked(edges, e.from, e.to)
    requires Walk(edges + [e], u, p, v) && Walk(edges + [e], u, q, v)
    requires |edges| in p
    ensures |edges| in q
  {
    var p1, p2 := CutAtNewEdge(edges, e, u, p, v);
    if |edges| !in q {
      Restrict(edges, e, u, q, v);
      assert Linked(edges, u, e.from) && Linked(edges, e.to, v) && Linked(edges, u, v);
      assert false;
    }
  }

  lemma UnblockedKeepsSinglePath(edges: seq<Edge>, e: Edge, u: string, p: seq<int>, q: seq<int>, v: string)
    requires SinglePath(edges) && !Blocked(edges, e.from, e.to)
    requires Walk(edges + [e], u, p, v) && Walk(edges + [e], u, q, v)
    ensures p == q
  {
    if |edges| in p || |edges| in q {
      if |edges| in p {
        NewEdgeOnEvery(edges, e, u, p, q, v);
      } else {
        NewEdgeOnEvery(edges, e, u, q, p, v);
      }
      var p1, p2 := CutAtNewEdge(edges, e, u, p, v);
      var q1, q2 := CutAtNewEdge(edges, e, u, q, v);
      assert p1 == q1 && p2 == q2;
    } else {
      Restrict(edges, e, u, p, v);
      Restrict(edges, e, u, q, v);
    }
  }

  lemma SinglePathIsAcyclic(edges: seq<Edge>)
    requires SinglePath(edges)
    ensures Admissible(edges)
  {
    forall u, p | Walk(edges, u, p, u) ensures p == [] {
      assert Walk(edges, u, [], u);
    }
  }

  lemma BlockedBreaksSinglePath(edges: seq<Edge>, e: Edge)
    requires Blocked(edges, e.from, e.to)
    ensures !SinglePath(edges + [e])
  {
    var s, t :| Linked(edges, s, e.from) && Linked(edges, e.to, t) && Linked(edges, s, t);
    var p :| Walk(edges, s, p, e.from);
    var q :| Walk(edges, e.to, q, t);
    var r :| Walk(edges, s, r, t);
    Extend(edges, [e], s, p, e.from);
    Extend(edges, [e], e.to, q, t);
    Extend(edges, [e], s, r, t);
    assert ([|edges|] + q)[1..] == q;
    assert Walk(edges + [e], e.from, [|edges|] + q, t);
    var long := p + ([|edges|] + q);
    Join(edges + [e], s, p, e.from, [|edges|] + q, t);
    assert long[|p|] == |edges|;
    assert |edges| in long;
    OldIndices(edges, s, r, t);
    assert long != r;
  }

  lemma {:induction false} OldIndices(edges: seq<Edge>, u: string, p: seq<int>, v: string)
    requires Walk(edges, u, p, v)
    ensures |edges| !in p
    decreases |p|
  {
    if p != [] {
      OldIndices(edges, edges[p[0]].to, p[1..], v);
    }
  }

  /** Adding an edge keeps the graph admissible exactly when the edge is not blocked. */
  lemma AdmissibleExactly(edges: seq<Edge>, e: Edge)
    requires Admissible(edges)
    ensures Admissible(edges + [e]) <==> !Blocked(edges, e.from, e.to)
  {
    if Blocked(edges, e.from, e.to) {
      BlockedBreaksSinglePath(edges, e);
    } else {
      forall u, v, p, q | Walk(edges + [e], u, p, v) && Walk(edges + [e], u, q, v) ensures p == q {
        UnblockedKeepsSinglePath(edges, e, u, p, q, v);
      }
      SinglePathIsAcyclic(edges + [e]);
    }
  }

  // The order and the number of edges

  ghost function Renamed(names: seq<int>, p: seq<int>): seq<int> {
    if p == [] then []
    else [if 0 <= p[0] < |names| then names[p[0]] else -1] + Renamed(names, p[1..])
  }

  ghost predicate Embeds(names: seq<int>, edges: seq<Edge>, wide: seq<Edge>) {
    && |names| == |edges|
    && (forall i :: 0 <= i < |edges| ==> 0 <= names[i] < |wide| && wide[names[i]] == edges[i])
    && (forall i, j :: 0 <= i < j < |edges| ==> names[i] != names[j])
  }

  lemma Removed(wide: seq<Edge>, k: nat)
    requires k < |wide|
    ensures multiset(wide[..k] + wide[k + 1..]) == multiset(wide) - multiset{wide[k]}
  {
    assert wide == wide[..k] + [wide[k]] + wide[k + 1..];
  }

  lemma EmbedOneMore(names: seq<int>, edges: seq<Edge>, wide: seq<Edge>, k: nat) returns (more: seq<int>)
    requires k < |wide| && Embeds(names, edges, wide[..k] + wide[k + 1..])
    ensures Embeds(more, edges + [wide[k]], wide)
  {
    var rest := wide[..k] + wide[k + 1..];
    var shifted := seq(|edges|, i requires 0 <= i < |edges| => if names[i] < k then names[i] else names[i] + 1);
    forall i | 0 <= i < |edges| ensures 0 <= shifted[i] < |wide| && shifted[i] != k && wide[shifted[i]] == edges[i] {
      assert rest[names[i]] == edges[i];
    }
    more := shifted + [k];
  }

  lemma {:induction false} Embedding(edges: seq<Edge>, wide: seq<Edge>) returns (names: seq<int>)
    requires multiset(edges) <= multiset(wide)
    ensures Embeds(names, edges, wide)
  {
    if edges == [] {
      names := [];
    } else {
      var init, e := edges[..|edges| - 1], edges[|edges| - 1];
      assert edges == init + [e];
      Removed(edges, |edges| - 1);
      assert e in multiset(edges);
      assert e in multiset(wide);
      var k :| 0 <= k < |wide| && wide[k] == e;
      Removed(wide, k);
      assert edges[..|edges| - 1] + edges[|edges|..] == init;
      names := Embedding(init, wide[..k] + wide[k + 1..]);
      names := EmbedOneMore(names, init, wide, k);
    }
  }

  lemma {:induction false} RenamedWalk(names: seq<int>, edges: seq<Edge>, wide: seq<Edge>, u: string, p: seq<int>,
                                       v: string)
    requires Embeds(names, edges, wide) && Walk(edges, u, p, v)
    ensures Walk(wide, u, Renamed(names, p), v)
    decreases |p|
  {
    if p != [] {
      RenamedWalk(names, edges, wide, edges[p[0]].to, p[1..], v);
      assert Renamed(names, p)[1..] == Renamed(names, p[1..]);
    }
  }

  lemma {:induction false} RenamedIsInjective(names: seq<int>, edges: seq<Edge>, wide: seq<Edge>,
                                              u: string, p: seq<int>, q: seq<int>, v: string, w: string)
    requires Embeds(names, edges, wide) && Walk(edges, u, p, v) && Walk(edges, u, q, w)
    requires Renamed(names, p) == Renamed(names, q)
    ensures p == q
    decreases |p|
  {
    if p != [] && q != [] {
      assert Renamed(names, p)[0] == Renamed(names, q)[0];
      assert p[0] == q[0];
      assert Renamed(names, p)[1..] == Renamed(names, q)[1..];
      assert Renamed(names, p)[1..] == Renamed(names, p[1..]) && Renamed(names, q)[1..] == Renamed(names, q[1..]);
      RenamedIsInjective(names, edges, wide, edges[p[0]].to, p[1..], q[1..], v, w);
      assert p == [p[0]] + p[1..] && q == [q[0]] + q[1..];
    }
  }

  /** Leaving edges out, or listing them in another order, keeps a graph admissible. */
  lemma FewerEdgesAdmissible(edges: seq<Edge>, wide: seq<Edge>)
    requires multiset(edges) <= multiset(wide) && Admissible(wide)
    ensures Admissible(edges)
  {
    var names := Embedding(edges, wide);
    forall u, v, p, q | Walk(edges, u, p, v) && Walk(edges, u, q, v) ensures p == q {
      RenamedWalk(names, edges, wide, u, p, v);
      RenamedWalk(names, edges, wide, u, q, v);
      RenamedIsInjective(names, edges, wide, u, p, q, v, v);
    }
    SinglePathIsAcyclic(edges);
  }

  lemma BlockedStays(edges: seq<Edge>, more: seq<Edge>, from: string, to: string)
    requires Blocked(edges, from, to)
    ensures Blocked(edges + more, from, to)
  {
    var s, t :| Linked(edges, s, from) && Linked(edges, to, t) && Linked(edges, s, t);
    LinkedStays(edges, more, s, from);
    LinkedStays(edges, more, to, t);
    LinkedStays(edges, more, s, t);
  }

  lemma LinkedStays(edges: seq<Edge>, more: seq<Edge>, u: string, v: string)
    requires Linked(edges, u, v)
    ensures Linked(edges + more, u, v)
  {
    var p :| Walk(edges, u, p, v);
    Extend(edges, more, u, p, v);
  }

  /** A graph whose edges all end in sinks is admissible exactly when no edge is doubled. */
  lemma SinksAdmissible(edges: seq<Edge>)
    requires forall i, j :: 0 <= i < |edges| && 0 <= j < |edges| ==> edges[i].to != edges[j].from
    ensures Admissible(edges) <==> (forall i, j :: 0 <= i < j < |edges| ==> edges[i] != edges[j])
  {
    if i: nat, j: nat :| i < j < |edges| && edges[i] == edges[j] {
      assert Walk(edges, edges[i].from, [i], edges[i].to) && Walk(edges, edges[i].from, [j], edges[i].to);
      assert [i][0] != [j][0];
    } else {
      forall u, v, p, q | Walk(edges, u, p, v) && Walk(edges, u, q, v) ensures p == q {
        SinkWalk(edges, u, p, v);
        SinkWalk(edges, u, q, v);
        if p != [] && q != [] {
          assert edges[p[0]] == edges[q[0]] == Edge(u, v);
        }
      }
      SinglePathIsAcyclic(edges);
    }
  }

  lemma SinkWalk(edges: seq<Edge>, u: string, p: seq<int>, v: string)
    requires forall i, j :: 0 <= i < |edges| && 0 <= j < |edges| ==> edges[i].to != edges[j].from
    requires Walk(edges, u, p, v)
    ensures |p| <= 1 && (p != [] ==> edges[p[0]] == Edge(u, v) && u != v)
  {
    if p != [] && p[1..] != [] {
      assert false;
    }
  }
}

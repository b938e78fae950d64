/** Edges without an alternative: whatever walk joins two tables, it takes the edge if one of them does. */
module SoleEdges {
  import opened Walks

  ghost predicate Sole(edges: seq<Edge>, k: nat) {
    k < |edges| &&
    forall u, v, p, q :: Walk(edges, u, p, v) && Walk(edges, u, q, v) && k in p ==> k in q
  }

  lemma AddedIsSole(edges: seq<Edge>, e: Edge)
    requires !Blocked(edges, e.from, e.to)
    ensures Sole(edges + [e], |edges|)
  {
    forall u, v, p, q | Walk(edges + [e], u, p, v) && Walk(edges + [e], u, q, v) && |edges| in p ensures |edges| in q {
      NewEdgeOnEvery(edges, e, u, p, q, v);
    }
  }

  /** An edge keeps having no alternative when a further one is accepted. */
  lemma SoleStays(edges: seq<Edge>, e: Edge, k: nat)
    requires Sole(edges, k) && !Blocked(edges, e.from, e.to)
    ensures Sole(edges + [e], k)
  {
    forall u, v, p, q | Walk(edges + [e], u, p, v) && Walk(edges + [e], u, q, v) && k in p ensures k in q {
      SoleOnEvery(edges, e, k, u, p, q, v);
    }
  }

  lemma SoleOnEvery(edges: seq<Edge>, e: Edge, k: nat, u: string, p: seq<int>, q: seq<int>, v: string)
    requires Sole(edges, k) && !Blocked(edges, e.from, e.to)
    requires Walk(edges + [e], u, p, v) && Walk(edges + [e], u, q, v) && k in p
    ensures k in q
  {
    hide Walk, Blocked;
    if |edges| in p || |edges| in q {
      if |edges| in p {
        NewEdgeOnEvery(edges, e, u, p, q, v);
      } else {
        NewEdgeOnEvery(edges, e, u, q, p, v);
      }
      var p1, p2 := CutAtNewEdge(edges, e, u, p, v);
      var q1, q2 := CutAtNewEdge(edges, e, u, q, v);
      assert k in q1 || k in q2;
    } else {
      Restrict(edges, e, u, p, v);
      Restrict(edges, e, u, q, v);
    }
  }

  /** The names of the edges but one, which shift by one from there on. */
  ghost function NamesWithout(edges: seq<Edge>, k: nat): seq<int>
    requires k < |edges|
  {
    seq(|edges| - 1, i requires 0 <= i < |edges| - 1 => if i < k then i else i + 1)
  }

  lemma RestEmbeds(edges: seq<Edge>, k: nat)
    requires k < |edges|
    ensures Embeds(NamesWithout(edges, k), edges[..k] + edges[k + 1..], edges)
  {}

  lemma {:induction false} RenamedAvoids(names: seq<int>, p: seq<int>, k: nat)
    requires k !in names
    ensures k !in Renamed(names, p)
  {
    if p != [] {
      RenamedAvoids(names, p[1..], k);
    }
  }

  /** An edge without an alternative is not blocked by the others. */
  lemma SoleIsUnblocked(edges: seq<Edge>, k: nat)
    requires Sole(edges, k)
    ensures !Blocked(edges[..k] + edges[k + 1..], edges[k].from, edges[k].to)
  {
    var rest := edges[..k] + edges[k + 1..];
    if Blocked(rest, edges[k].from, edges[k].to) {
      var s, t :| Linked(rest, s, edges[k].from) && Linked(rest, edges[k].to, t) && Linked(rest, s, t);
      AlternativeTo(edges, k, s, t);
    }
  }

  lemma AlternativeTo(edges: seq<Edge>, k: nat, s: string, t: string)
    requires k < |edges|
    requires var rest := edges[..k] + edges[k + 1..];
             Linked(rest, s, edges[k].from) && Linked(rest, edges[k].to, t) && Linked(rest, s, t)
    ensures !Sole(edges, k)
  {
    var rest, names := edges[..k] + edges[k + 1..], NamesWithout(edges, k);
    var p :| Walk(rest, s, p, edges[k].from);
    var q :| Walk(rest, edges[k].to, q, t);
    var r :| Walk(rest, s, r, t);
    hide Embeds, Sole;
    RestEmbeds(edges, k);
    RenamedWalk(names, rest, edges, s, p, edges[k].from);
    RenamedWalk(names, rest, edges, edges[k].to, q, t);
    RenamedWalk(names, rest, edges, s, r, t);
    RenamedAvoids(names, r, k);
    LongWay(edges, k, s, Renamed(names, p), Renamed(names, q), t);
    NotSole(edges, k, s, Renamed(names, p) + ([k] + Renamed(names, q)), Renamed(names, r), t);
  }

  lemma LongWay(edges: seq<Edge>, k: nat, s: string, p: seq<int>, q: seq<int>, t: string)
    requires k < |edges| && Walk(edges, s, p, edges[k].from) && Walk(edges, edges[k].to, q, t)
    ensures Walk(edges, s, p + ([k] + q), t) && k in p + ([k] + q)
  {
    assert ([k] + q)[1..] == q;
    assert Walk(edges, edges[k].from, [k] + q, t);
    Join(edges, s, p, edges[k].from, [k] + q, t);
    assert (p + ([k] + q))[|p|] == k;
  }

  lemma NotSole(edges: seq<Edge>, k: nat, u: string, p: seq<int>, q: seq<int>, v: string)
    requires Walk(edges, u, p, v) && Walk(edges, u, q, v) && k in p && k !in q
    ensures !Sole(edges, k)
  {}

  /** More edges, in whatever order, block as much. */
  lemma MoreEdgesBlock(edges: seq<Edge>, wide: seq<Edge>, from: string, to: string)
    requires multiset(edges) <= multiset(wide) && Blocked(edges, from, to)
    ensures Blocked(wide, from, to)
  {
    var names := Embedding(edges, wide);
    var s, t :| Linked(edges, s, from) && Linked(edges, to, t) && Linked(edges, s, t);
    LinkedInMore(names, edges, wide, s, from);
    LinkedInMore(names, edges, wide, to, t);
    LinkedInMore(names, edges, wide, s, t);
  }

  lemma LinkedInMore(names: seq<int>, edges: seq<Edge>, wide: seq<Edge>, u: string, v: string)
    requires Embeds(names, edges, wide) && Linked(edges, u, v)
    ensures Linked(wide, u, v)
  {
    var p :| Walk(edges, u, p, v);
    RenamedWalk(names, edges, wide, u, p, v);
  }

  /** No graph accepts an edge from a table to itself. */
  lemma LoopIsBlocked(edges: seq<Edge>, u: string)
    ensures Blocked(edges, u, u)
  {
    assert Walk(edges, u, [], u);
    assert Linked(edges, u, u);
  }
}

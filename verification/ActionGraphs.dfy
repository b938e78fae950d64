/** The incremental graph of referential actions, packages/common/utils/referential-util.ts. */
module ActionGraphs {
  import opened Walks

  type Adjacency = map<string, seq<string>>

  function Next(adjacency: Adjacency, u: string): seq<string> {
    if u in adjacency then adjacency[u] else []
  }

  /** p lists the tables met after s, the last of them being v. */
  ghost predicate Path(adjacency: Adjacency, s: string, p: seq<string>, v: string)
    decreases |p|
  {
    if p == [] then s == v
    else p[0] in Next(adjacency, s) && Path(adjacency, p[0], p[1..], v)
  }

  ghost predicate Beyond(adjacency: Adjacency, s: string, v: string) {
    exists p :: p != [] && Path(adjacency, s, p, v)
  }

  lemma {:induction false} PathJoin(adjacency: Adjacency, s: string, p: seq<string>, w: string, q: seq<string>,
                                    v: string)
    requires Path(adjacency, s, p, w) && Path(adjacency, w, q, v)
    ensures Path(adjacency, s, p + q, v)
    decreases |p|
  {
    if p == [] {
      assert p + q == q;
    } else {
      assert (p + q)[1..] == p[1..] + q;
      PathJoin(adjacency, p[0], p[1..], w, q, v);
    }
  }

  lemma OneBeyond(adjacency: Adjacency, start: string, s: string, v: string)
    requires s == start || Beyond(adjacency, start, s)
    requires v in Next(adjacency, s)
    ensures Beyond(adjacency, start, v)
  {
    assert [v][1..] == [];
    assert Path(adjacency, s, [v], v);
    if s != start {
      var p :| p != [] && Path(adjacency, start, p, s);
      PathJoin(adjacency, start, p, s, [v], v);
    }
  }

  /** A set closed under the adjacency holds whatever lies beyond its members. */
  lemma {:induction false} ClosedHoldsBeyond(adjacency: Adjacency, closed: set<string>, s: string, p: seq<string>,
                                             v: string)
    requires forall n :: n in Next(adjacency, s) ==> n in closed
    requires forall u, n :: u in closed && n in Next(adjacency, u) ==> n in closed
    requires p != [] && Path(adjacency, s, p, v)
    ensures v in closed
    decreases |p|
  {
    if p[1..] != [] {
      ClosedHoldsBeyond(adjacency, closed, p[0], p[1..], v);
    }
  }

  ghost function Targets(edges: seq<Edge>, u: string): seq<string> {
    if edges == [] then []
    else Targets(edges[..|edges| - 1], u) + (if edges[|edges| - 1].from == u then [edges[|edges| - 1].to] else [])
  }

  ghost function Sources(edges: seq<Edge>, v: string): seq<string> {
    if edges == [] then []
    else Sources(edges[..|edges| - 1], v) + (if edges[|edges| - 1].to == v then [edges[|edges| - 1].from] else [])
  }

  lemma {:induction false} TargetsAndSources(edges: seq<Edge>, u: string, v: string)
    ensures v in Targets(edges, u) <==> Edge(u, v) in edges
    ensures u in Sources(edges, v) <==> Edge(u, v) in edges
  {
    if edges != [] {
      var init := edges[..|edges| - 1];
      assert edges == init + [edges[|edges| - 1]];
      TargetsAndSources(init, u, v);
    }
  }

  /** Both adjacency maps list exactly the given edges, in the order they were added. */
  ghost predicate Represents(forwards: Adjacency, backwards: Adjacency, edges: seq<Edge>) {
    && (forall u :: Next(forwards, u) == Targets(edges, u))
    && (forall v :: Next(backwards, v) == Sources(edges, v))
  }

  lemma {:induction false} ForwardPathIsWalk(forwards: Adjacency, backwards: Adjacency, edges: seq<Edge>, s: string,
                                             p: seq<string>, v: string)
    returns (w: seq<int>)
    requires Represents(forwards, backwards, edges)
    requires Path(forwards, s, p, v)
    ensures |w| == |p| && Walk(edges, s, w, v)
    decreases |p|
  {
    if p == [] {
      w := [];
    } else {
      TargetsAndSources(edges, s, p[0]);
      var i: int :| 0 <= i < |edges| && edges[i] == Edge(s, p[0]);
      var rest := ForwardPathIsWalk(forwards, backwards, edges, p[0], p[1..], v);
      w := [i] + rest;
      assert w[1..] == rest;
    }
  }

  lemma {:induction false} BackwardPathIsWalk(forwards: Adjacency, backwards: Adjacency, edges: seq<Edge>, s: string,
                                              p: seq<string>, v: string)
    returns (w: seq<int>)
    requires Represents(forwards, backwards, edges)
    requires Path(backwards, s, p, v)
    ensures |w| == |p| && Walk(edges, v, w, s)
    decreases |p|
  {
    if p == [] {
      w := [];
    } else {
      TargetsAndSources(edges, p[0], s);
      var i: int :| 0 <= i < |edges| && edges[i] == Edge(p[0], s);
      var rest := BackwardPathIsWalk(forwards, backwards, edges, p[0], p[1..], v);
      assert [i][1..] == [];
      assert Walk(edges, p[0], [i], s);
      Join(edges, v, rest, p[0], [i], s);
      w := rest + [i];
    }
  }

  lemma {:induction false} WalkIsPath(forwards: Adjacency, backwards: Adjacency, edges: seq<Edge>, s: string,
                                      w: seq<int>, v: string)
    returns (p: seq<string>, q: seq<string>)
    requires Represents(forwards, backwards, edges)
    requires Walk(edges, s, w, v)
    ensures |p| == |q| == |w| && Path(forwards, s, p, v) && Path(backwards, v, q, s)
    decreases |w|
  {
    if w == [] {
      p, q := [], [];
    } else {
      var t := edges[w[0]].to;
      TargetsAndSources(edges, s, t);
      var p', q' := WalkIsPath(forwards, backwards, edges, t, w[1..], v);
      p := [t] + p';
      assert p[1..] == p';
      assert [s][1..] == [];
      assert Path(backwards, t, [s], s);
      PathJoin(backwards, v, q', t, [s], s);
      q := q' + [s];
    }
  }

  /** What lies beyond a table forwards and backwards is what it reaches and what reaches it. */
  lemma BeyondIsReach(forwards: Adjacency, backwards: Adjacency, edges: seq<Edge>, u: string, v: string)
    requires Represents(forwards, backwards, edges)
    ensures Beyond(forwards, u, v) <==> Reaches(edges, u, v)
    ensures Beyond(backwards, v, u) <==> Reaches(edges, u, v)
  {
    if Beyond(forwards, u, v) {
      var p :| p != [] && Path(forwards, u, p, v);
      var w := ForwardPathIsWalk(forwards, backwards, edges, u, p, v);
    }
    if Beyond(backwards, v, u) {
      var p :| p != [] && Path(backwards, v, p, u);
      var w := BackwardPathIsWalk(forwards, backwards, edges, v, p, u);
    }
    if Reaches(edges, u, v) {
      var w :| w != [] && Walk(edges, u, w, v);
      var p, q := WalkIsPath(forwards, backwards, edges, u, w, v);
    }
  }

  lemma LinkedIsSelfOrReach(edges: seq<Edge>, u: string, v: string)
    ensures Linked(edges, u, v) <==> u == v || Reaches(edges, u, v)
  {
    if u == v {
      assert Walk(edges, u, [], v);
    }
  }

  ghost predicate Found(adjacency: Adjacency, start: string, v: string) {
    v == start || Beyond(adjacency, start, v)
  }

  /** The inner loop of the search: the unseen tables among `nexts` are marked and queued. */
  method Visit(ghost adjacency: Adjacency, ghost start: string, ghost u: string, nexts: seq<string>,
               before: set<string>, waiting: seq<string>)
    returns (reached: set<string>, queue: seq<string>)
    requires Found(adjacency, start, u) && nexts == Next(adjacency, u)
    requires forall v :: v in before ==> Beyond(adjacency, start, v)
    ensures forall v :: v in reached <==> v in before || v in nexts
    ensures forall v :: v in reached ==> Beyond(adjacency, start, v)
    ensures forall q :: q in queue <==> q in waiting || q in reached - before
    ensures reached == before ==> queue == waiting
  {
    reached, queue := before, waiting;
    for i := 0 to |nexts|
      invariant forall v :: v in reached <==> v in before || v in nexts[..i]
      invariant forall v :: v in reached ==> Beyond(adjacency, start, v)
      invariant forall q :: q in queue <==> q in waiting || q in reached - before
      invariant reached == before ==> queue == waiting
    {
      var next := nexts[i];
      assert nexts[..i + 1] == nexts[..i] + [next];
      if next !in reached {
        OneBeyond(adjacency, start, u, next);
        reached := reached + {next};
        queue := queue + [next];
      }
    }
    assert nexts[..|nexts|] == nexts;
  }

  /** The tables one or more edges away from a start table, found breadth first. */
  method Reached(start: string, adjacency: Adjacency) returns (reached: set<string>)
    ensures forall v :: v in reached <==> Beyond(adjacency, start, v)
  {
    hide Path, Beyond;
    reached := {};
    var queue := [start];
    ghost var done: set<string> := {};
    ghost var all := set u, v | u in adjacency && v in adjacency[u] :: v;
    while queue != []
      invariant reached <= all
      invariant forall v :: v in reached ==> Beyond(adjacency, start, v)
      invariant forall q :: q in queue ==> Found(adjacency, start, q)
      invariant forall v :: v in reached + {start} ==> v in done || v in queue
      invariant forall u, n :: u in done && n in Next(adjacency, u) ==> n in reached
      decreases all - reached, |queue|
    {
      var u := queue[0];
      ghost var before := reached;
      reached, queue := Visit(adjacency, start, u, Next(adjacency, u), reached, queue[1..]);
      done := done + {u};
      assert before <= reached <= all;
      assert reached != before ==> all - reached < all - before;
    }
    ClosedHoldsAll(adjacency, start, reached);
  }

  lemma ClosedHoldsAll(adjacency: Adjacency, start: string, closed: set<string>)
    requires forall n :: n in Next(adjacency, start) ==> n in closed
    requires forall u, n :: u in closed && n in Next(adjacency, u) ==> n in closed
    ensures forall v :: Beyond(adjacency, start, v) ==> v in closed
  {
    hide Next;
    forall v | Beyond(adjacency, start, v) ensures v in closed {
      var p :| p != [] && Path(adjacency, start, p, v);
      ClosedHoldsBeyond(adjacency, closed, start, p, v);
    }
  }

  lemma RepresentsAdded(forwards: Adjacency, backwards: Adjacency, edges: seq<Edge>, from: string, to: string)
    requires Represents(forwards, backwards, edges)
    ensures Represents(forwards[from := Next(forwards, from) + [to]],
                       backwards[to := Next(backwards, to) + [from]], edges + [Edge(from, to)])
  {
    var added := edges + [Edge(from, to)];
    assert added[..|added| - 1] == edges;
    forall u ensures Next(forwards[from := Next(forwards, from) + [to]], u) == Targets(added, u) {
      assert Next(forwards, u) == Targets(edges, u);
    }
    forall v ensures Next(backwards[to := Next(backwards, to) + [from]], v) == Sources(added, v) {
      assert Next(backwards, v) == Sources(edges, v);
    }
  }

  lemma LinkedForwards(forwards: Adjacency, backwards: Adjacency, edges: seq<Edge>, u: string, reached: set<string>)
    requires Represents(forwards, backwards, edges)
    requires forall v :: v in reached <==> Beyond(forwards, u, v)
    ensures forall v :: v in {u} + reached <==> Linked(edges, u, v)
  {
    forall v ensures v in {u} + reached <==> Linked(edges, u, v) {
      BeyondIsReach(forwards, backwards, edges, u, v);
      LinkedIsSelfOrReach(edges, u, v);
    }
  }

  lemma LinkedBackwards(forwards: Adjacency, backwards: Adjacency, edges: seq<Edge>, v: string, reached: set<string>)
    requires Represents(forwards, backwards, edges)
    requires forall u :: u in reached <==> Beyond(backwards, v, u)
    ensures forall u :: u in {v} + reached <==> Linked(edges, u, v)
  {
    forall u ensures u in {v} + reached <==> Linked(edges, u, v) {
      BeyondIsReach(forwards, backwards, edges, u, v);
      LinkedIsSelfOrReach(edges, u, v);
    }
  }

  class ActionGraph {
    var edges: Adjacency
    var reverse: Adjacency
    /** Every edge added, in order. */
    ghost var Edges: seq<Edge>

    ghost predicate Valid()
      reads this
    {
      Represents(edges, reverse, Edges)
    }

    constructor ()
      ensures Valid() && Edges == []
    {
      edges, reverse, Edges := map[], map[], [];
    }

    method Add(from: string, to: string)
      requires Valid()
      modifies this
      ensures Valid() && Edges == old(Edges) + [Edge(from, to)]
    {
      RepresentsAdded(edges, reverse, Edges, from, to);
      edges := edges[from := Next(edges, from) + [to]];
      reverse := reverse[to := Next(reverse, to) + [from]];
      Edges := Edges + [Edge(from, to)];
    }

    /** Whether an edge forms neither a cycle nor a second path between two tables. */
    method Accepts(from: string, to: string) returns (accepted: bool)
      requires Valid()
      ensures accepted <==> !Blocked(Edges, from, to)
      ensures Admissible(Edges) ==> (accepted <==> Admissible(Edges + [Edge(from, to)]))
    {
      var above := Reached(from, reverse);
      LinkedBackwards(edges, reverse, Edges, from, above);
      var below := Reached(to, edges);
      LinkedForwards(edges, reverse, Edges, to, below);
      accepted := NoneLinked({from} + above, {to} + below);
      if Admissible(Edges) {
        AdmissibleExactly(Edges, Edge(from, to));
      }
    }

    /** Whether no source is a target or leads to one. */
    method NoneLinked(sources: set<string>, targets: set<string>) returns (none: bool)
      requires Valid()
      ensures none <==> !exists s, t :: s in sources && t in targets && Linked(Edges, s, t)
    {
      none := true;
      var pending := sources;
      while pending != {}
        invariant pending <= sources
        invariant none <==> !exists s, t :: s in sources - pending && t in targets && Linked(Edges, s, t)
      {
        var source :| source in pending;
        var reached := Reached(source, edges);
        LinkedForwards(edges, reverse, Edges, source, reached);
        var free := forall target :: target in targets ==> target != source && target !in reached;
        assert free <==> forall target :: target in targets ==> target !in {source} + reached;
        assert sources - (pending - {source}) == (sources - pending) + {source};
        pending := pending - {source};
        none := none && free;
      }
    }
  }
}

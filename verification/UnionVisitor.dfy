/** The visitor that simplifies the unions of a type tree, loop by loop. */
module UnionVisitor {
  import opened UnionTypes
  import opened UnionSimplifier

  lemma DedupedOneMore(types: seq<Type>, t: Type)
    ensures Keys(types + [t]) == Keys(types) + {Printed(t)}
    ensures Deduped(types + [t]) == if Printed(t) in Keys(types) then Deduped(types) else Deduped(types) + [t]
  {
    hide Printed;
    assert (types + [t])[..|types|] == types;
  }

  method DedupeMembers(types: seq<Type>) returns (seenDirect: set<Type>, deduped: seq<Type>)
    ensures seenDirect == Keys(types) && deduped == Deduped(types)
  {
    hide Printed, Keys, Deduped;
    seenDirect, deduped := {}, [];
    assert seenDirect == Keys(types[..0]) && deduped == Deduped(types[..0]) by { NothingDeduped(); }
    for i := 0 to |types|
      invariant seenDirect == Keys(types[..i]) && deduped == Deduped(types[..i])
    {
      var key := Printed(types[i]);
      DedupedOneMore(types[..i], types[i]);
      assert types[..i + 1] == types[..i] + [types[i]];
      if key !in seenDirect {
        seenDirect := seenDirect + {key};
        deduped := deduped + [types[i]];
      }
    }
    assert types[..|types|] == types;
  }

  lemma NothingDeduped()
    ensures Keys([]) == {} && Deduped([]) == []
  {}

  lemma CountOneMore(branches: seq<Type>, b: Type, key: Type)
    ensures CountIn(branches + [b], key) == CountIn(branches, key) + if key in Keys(Members(b)) then 1 else 0
    ensures Inners(branches + [b]) == Inners(branches) + Members(b)
  {
    hide Printed, Members, Keys;
    assert (branches + [b])[..|branches|] == branches;
  }

  /** The first member of each text in the branches, in order, and the number of branches it occurs in. */
  ghost predicate Counted(order: seq<Type>, counts: map<Type, nat>, branches: seq<Type>, inner: seq<Type>) {
    order == Deduped(Inners(branches) + inner) && counts.Keys == Keys(Inners(branches) + inner) &&
    forall key :: key in counts ==>
      counts[key] == CountIn(branches, key) + if key in Keys(inner) then 1 else 0
  }

  lemma CountedOneMore(order: seq<Type>, counts: map<Type, nat>, branches: seq<Type>, inner: seq<Type>, t: Type)
    requires Counted(order, counts, branches, inner)
    ensures var key := Printed(t);
            if key in Keys(inner) then Counted(order, counts, branches, inner + [t])
            else if key in counts then Counted(order, counts[key := counts[key] + 1], branches, inner + [t])
            else Counted(order + [t], counts[key := 1], branches, inner + [t])
  {
    hide Printed, Keys, Deduped, CountIn, Inners;
    DedupedOneMore(Inners(branches) + inner, t);
    DedupedOneMore(inner, t);
    KeysOfBoth(Inners(branches), inner);
    CountedInInners(branches, Printed(t));
    assert Inners(branches) + (inner + [t]) == Inners(branches) + inner + [t];
  }

  lemma KeysOfBoth(a: seq<Type>, b: seq<Type>)
    ensures Keys(a + b) == Keys(a) + Keys(b)
  {
    hide Printed;
  }

  lemma {:induction false} CountedInInners(branches: seq<Type>, key: Type)
    ensures CountIn(branches, key) > 0 ==> key in Keys(Inners(branches))
  {
    hide Printed, Keys;
    if branches != [] {
      var init, last := branches[..|branches| - 1], branches[|branches| - 1];
      CountedInInners(init, key);
      KeysOfBoth(Inners(init), Members(last));
    }
  }

  lemma CountedBranch(order: seq<Type>, counts: map<Type, nat>, branches: seq<Type>, b: Type)
    requires Counted(order, counts, branches, Members(b))
    ensures Counted(order, counts, branches + [b], [])
  {
    hide Printed, Keys, Deduped, CountIn, Inners, Members;
    NothingDeduped();
    CountOneMore(branches, b, b);
    assert Inners(branches + [b]) + [] == Inners(branches) + Members(b);
    forall key
      ensures CountIn(branches + [b], key) == CountIn(branches, key) + if key in Keys(Members(b)) then 1 else 0
    {
      CountOneMore(branches, b, key);
    }
  }

  method CountInBranches(branches: seq<Type>) returns (order: seq<Type>, counts: map<Type, nat>)
    requires forall i :: 0 <= i < |branches| ==> IsBranch(branches[i])
    ensures Counted(order, counts, branches, [])
  {
    hide Printed, Keys, Counted;
    order, counts := [], map[];
    assert Counted(order, counts, branches[..0], []) by { NothingCounted(); }
    for i := 0 to |branches|
      invariant Counted(order, counts, branches[..i], [])
    {
      var types := branches[i].inner.members;
      var seenInBranch: set<Type> := {};
      assert seenInBranch == Keys(types[..0]) by { NothingDeduped(); }
      for j := 0 to |types|
        invariant seenInBranch == Keys(types[..j]) && Counted(order, counts, branches[..i], types[..j])
      {
        var key := Printed(types[j]);
        CountedOneMore(order, counts, branches[..i], types[..j], types[j]);
        DedupedOneMore(types[..j], types[j]);
        assert types[..j + 1] == types[..j] + [types[j]];
        if key !in seenInBranch {
          seenInBranch := seenInBranch + {key};
          if key in counts {
            counts := counts[key := counts[key] + 1];
          } else {
            order, counts := order + [types[j]], counts[key := 1];
          }
        }
      }
      assert types[..|types|] == Members(branches[i]);
      CountedBranch(order, counts, branches[..i], branches[i]);
      assert branches[..i + 1] == branches[..i] + [branches[i]];
    }
    assert branches[..|branches|] == branches;
  }

  lemma NothingCounted()
    ensures Counted([], map[], [], [])
  {}

  /** The members that occur in two branches, or in one and directly in the union. */
  method ToHoist(branches: seq<Type>, seenDirect: set<Type>) returns (toHoist: seq<Type>)
    requires forall i :: 0 <= i < |branches| ==> IsBranch(branches[i])
    ensures toHoist == Hoisted(Deduped(Inners(branches)), branches, seenDirect)
  {
    hide Printed, Keys, CountIn, Deduped, Inners;
    var order, counts := CountInBranches(branches);
    assert order == Deduped(Inners(branches)) && counts.Keys == Keys(Inners(branches)) by {
      assert Inners(branches) + [] == Inners(branches);
      NothingDeduped();
    }
    toHoist := [];
    for i := 0 to |order|
      invariant toHoist == Hoisted(order[..i], branches, seenDirect)
    {
      var key := Printed(order[i]);
      CountedKey(branches, order[i]);
      NothingDeduped();
      assert order[..i + 1][..i] == order[..i];
      if counts[key] >= 2 || key in seenDirect {
        toHoist := toHoist + [order[i]];
      }
    }
    assert order[..|order|] == order;
  }

  lemma CountedKey(branches: seq<Type>, t: Type)
    requires t in Deduped(Inners(branches))
    ensures Printed(t) in Keys(Inners(branches))
  {
    DedupedHolds(Inners(branches), t);
  }

  method Filter(types: seq<Type>, keys: set<Type>) returns (remaining: seq<Type>)
    ensures remaining == Without(types, keys)
  {
    hide Printed;
    remaining := [];
    for i := 0 to |types|
      invariant remaining == Without(types[..i], keys)
    {
      assert types[..i + 1][..i] == types[..i];
      if Printed(types[i]) !in keys {
        remaining := remaining + [types[i]];
      }
    }
    assert types[..|types|] == types;
  }

  method Rebuild(deduped: seq<Type>, hoistedKeys: set<Type>) returns (result: seq<Type>)
    ensures result == RebuiltAll(deduped, hoistedKeys)
  {
    hide Printed, Without;
    result := [];
    for i := 0 to |deduped|
      invariant result == RebuiltAll(deduped[..i], hoistedKeys)
    {
      assert deduped[..i + 1][..i] == deduped[..i];
      if IsBranch(deduped[i]) {
        var remaining := Filter(deduped[i].inner.members, hoistedKeys);
        if |remaining| == 0 {
        } else if |remaining| == 1 {
          result := result + [remaining[0]];
        } else {
          result := result + [Paren(Union(remaining))];
        }
      } else {
        result := result + [deduped[i]];
      }
    }
    assert deduped[..|deduped|] == deduped;
  }

  method SimplifyMembers(types: seq<Type>) returns (result: seq<Type>)
    ensures result == SimplifiedMembers(types)
  {
    hide Printed;
    var seenDirect, deduped := DedupeMembers(types);
    var parenBranches := Branches(deduped);
    if |parenBranches| < 2 {
      return deduped;
    }
    var toHoist := ToHoist(parenBranches, seenDirect);
    if |toHoist| == 0 {
      return deduped;
    }
    result := Rebuild(deduped, Keys(toHoist));
    var appended := Filter(toHoist, seenDirect);
    result := result + appended;
  }

  /** Rewrites a tree from the leaves up. Only unions change, and what the tree denotes does not. */
  method Visit(node: Type) returns (result: Type)
    ensures result == Simplified(node)
    ensures Den(result) == Den(node)
  {
    hide SimplifiedMembers, Den;
    SimplifiedMeansTheSame(node);
    match node
    case Leaf(_) =>
      result := node;
    case Other(kind, parts) =>
      var visited := VisitEach(node, parts);
      result := Other(kind, visited);
    case Paren(inner) =>
      var visited := Visit(inner);
      result := Paren(visited);
    case Union(members) =>
      var visited := VisitEach(node, members);
      assert visited == seq(|members|, i requires 0 <= i < |members| => Simplified(members[i]));
      var types := SimplifyMembers(visited);
      result := Union(types);
  }

  method VisitEach(node: Type, parts: seq<Type>) returns (visited: seq<Type>)
    requires forall i :: 0 <= i < |parts| ==> parts[i] < node
    ensures |visited| == |parts| && forall i :: 0 <= i < |parts| ==> visited[i] == Simplified(parts[i])
    decreases node, 0
  {
    hide Simplified;
    visited := [];
    for i := 0 to |parts|
      invariant |visited| == i && forall j :: 0 <= j < i ==> visited[j] == Simplified(parts[j])
    {
      var part := Visit(parts[i]);
      visited := visited + [part];
    }
  }
}

/** How often a member is left after the simplification of a union. */
module UnionDuplicates {
  import opened UnionTypes
  import opened UnionSimplifier

  function Count(types: seq<Type>, key: Type): nat {
    if types == [] then 0
    else Count(types[..|types| - 1], key) + if Printed(types[|types| - 1]) == key then 1 else 0
  }

  ghost predicate Distinct(types: seq<Type>) {
    forall key :: Count(types, key) <= 1
  }

  /** No branch keeps a text twice. */
  ghost predicate BranchesKeepOnce(types: seq<Type>, keys: set<Type>) {
    forall t :: t in types && IsBranch(t) ==> Distinct(Left(t, keys))
  }

  /** An outer member, or what is left of a branch of the outer union. */
  function Left(t: Type, keys: set<Type>): seq<Type> {
    if IsBranch(t) then Without(Members(t), keys) else [t]
  }

  function LeftOfAll(types: seq<Type>, keys: set<Type>): seq<Type> {
    if types == [] then [] else LeftOfAll(types[..|types| - 1], keys) + Left(types[|types| - 1], keys)
  }

  /** The outer members and the members of the branches, as the simplification leaves them. */
  function Spread(types: seq<Type>): seq<Type> {
    LeftOfAll(Deduped(types), Keys(HoistedOf(types))) + Without(HoistedOf(types), Keys(types))
  }

  // Counts

  lemma {:induction false} CountIsZero(types: seq<Type>, key: Type)
    ensures Count(types, key) == 0 <==> key !in Keys(types)
  {
    if types != [] {
      var init, last := types[..|types| - 1], types[|types| - 1];
      CountIsZero(init, key);
      assert types == init + [last];
      assert Keys(types) == Keys(init) + {Printed(last)};
    }
  }

  lemma {:induction false} CountOfBoth(a: seq<Type>, b: seq<Type>, key: Type)
    ensures Count(a + b, key) == Count(a, key) + Count(b, key)
  {
    if b == [] {
      assert a + b == a;
    } else {
      CountOfBoth(a, b[..|b| - 1], key);
      assert (a + b)[..|a + b| - 1] == a + b[..|b| - 1];
    }
  }

  lemma {:induction false} DedupedOnce(types: seq<Type>, key: Type)
    ensures Count(Deduped(types), key) == if key in Keys(types) then 1 else 0
  {
    if types != [] {
      var init, last := types[..|types| - 1], types[|types| - 1];
      DedupedOnce(init, key);
      CountIsZero(types, key);
      CountIsZero(init, key);
      CountOfBoth(Deduped(init), [last], key);
    }
  }

  lemma CountOneMore(types: seq<Type>, t: Type, key: Type)
    ensures Count(types + [t], key) == Count(types, key) + if Printed(t) == key then 1 else 0
  {
    hide Printed;
    assert (types + [t])[..|types|] == types;
  }

  lemma HoistedOneMore(nodes: seq<Type>, t: Type, branches: seq<Type>, direct: set<Type>)
    ensures Hoisted(nodes + [t], branches, direct) == Hoisted(nodes, branches, direct) +
            if CountIn(branches, Printed(t)) >= 2 || Printed(t) in direct then [t] else []
  {
    hide Printed, CountIn;
    assert (nodes + [t])[..|nodes|] == nodes;
  }

  lemma {:induction false} HoistedCount(nodes: seq<Type>, branches: seq<Type>, direct: set<Type>, key: Type)
    ensures Count(Hoisted(nodes, branches, direct), key) ==
            if CountIn(branches, key) >= 2 || key in direct then Count(nodes, key) else 0
  {
    hide Printed, CountIn;
    if nodes == [] {
    } else {
      var init, last := nodes[..|nodes| - 1], nodes[|nodes| - 1];
      HoistedCount(init, branches, direct, key);
      HoistedCountOneMore(init, last, branches, direct, key);
      assert nodes == init + [last];
    }
  }

  lemma HoistedCountOneMore(nodes: seq<Type>, t: Type, branches: seq<Type>, direct: set<Type>, key: Type)
    requires Count(Hoisted(nodes, branches, direct), key) ==
             if CountIn(branches, key) >= 2 || key in direct then Count(nodes, key) else 0
    ensures Count(Hoisted(nodes + [t], branches, direct), key) ==
            if CountIn(branches, key) >= 2 || key in direct then Count(nodes + [t], key) else 0
  {
    hide *;
    HoistedOneMore(nodes, t, branches, direct);
    CountOneMore(nodes, t, key);
    CountOneMore(Hoisted(nodes, branches, direct), t, key);
    assert Hoisted(nodes, branches, direct) + [] == Hoisted(nodes, branches, direct);
  }

  lemma {:induction false} WithoutCount(types: seq<Type>, keys: set<Type>, key: Type)
    ensures Count(Without(types, keys), key) == if key in keys then 0 else Count(types, key)
  {
    if types != [] {
      var init, last := types[..|types| - 1], types[|types| - 1];
      WithoutCount(init, keys, key);
      CountOfBoth(Without(init, keys), [last], key);
    }
  }

  lemma {:induction false} InnersCount(branches: seq<Type>, key: Type)
    ensures CountIn(branches, key) > 0 <==> key in Keys(Inners(branches))
  {
    if branches != [] {
      var init, last := branches[..|branches| - 1], branches[|branches| - 1];
      InnersCount(init, key);
      assert Keys(Inners(branches)) == Keys(Inners(init)) + Keys(Members(last));
    }
  }

  /** A text is hoisted exactly when it occurs in two branches, or in one and directly in the union. */
  lemma HoistedExactly(types: seq<Type>, key: Type)
    requires |Branches(Deduped(types))| >= 2
    ensures Count(HoistedOf(types), key) ==
            var n := CountIn(Branches(Deduped(types)), key);
            if n >= 2 || (n == 1 && key in Keys(types)) then 1 else 0
    ensures key in Keys(HoistedOf(types)) <==> Count(HoistedOf(types), key) == 1
  {
    var branches := Branches(Deduped(types));
    HoistedCount(Deduped(Inners(branches)), branches, Keys(types), key);
    DedupedOnce(Inners(branches), key);
    InnersCount(branches, key);
    CountIsZero(HoistedOf(types), key);
  }

  lemma {:induction false} LeftCount(types: seq<Type>, keys: set<Type>, key: Type)
    requires BranchesKeepOnce(types, keys)
    ensures Count(LeftOfAll(types, keys), key) <=
            Count(types, key) + if key in keys then 0 else CountIn(Branches(types), key)
  {
    if types != [] {
      var init, last := types[..|types| - 1], types[|types| - 1];
      LeftCount(init, keys, key);
      CountOfBoth(LeftOfAll(init, keys), Left(last, keys), key);
      assert last in types;
      if IsBranch(last) {
        WithoutCount(Members(last), keys, key);
        CountIsZero(Members(last), key);
      } else {
        CountOfBoth([], [last], key);
      }
    }
  }

  lemma {:induction false} LeftCounts(types: seq<Type>, keys: set<Type>, t: Type, key: Type)
    requires t in types
    ensures Count(Left(t, keys), key) <= Count(LeftOfAll(types, keys), key)
  {
    hide Left;
    var init, last := types[..|types| - 1], types[|types| - 1];
    CountOfBoth(LeftOfAll(init, keys), Left(last, keys), key);
    if t != last {
      LeftCounts(init, keys, t, key);
    }
  }

  /** What two branches and an outer union leave of one text, when no branch keeps it twice. */
  lemma AtMostOneOf(types: seq<Type>, key: Type, count: nat)
    requires |Branches(Deduped(types))| >= 2
    requires count <= Count(Deduped(types), key) +
                      if key in Keys(HoistedOf(types)) then 0 else CountIn(Branches(Deduped(types)), key)
    ensures count + Count(Without(HoistedOf(types), Keys(types)), key) <= 1
  {
    WithoutCount(HoistedOf(types), Keys(types), key);
    HoistedExactly(types, key);
    DedupedOnce(types, key);
  }

  /** When a union has two branches, each member is left at most once among the outer members and what is
      left of the branches, exactly when no branch keeps a text of its own twice. */
  lemma EachMemberIsLeftOnce(types: seq<Type>)
    requires |Branches(Deduped(types))| >= 2
    ensures Distinct(Spread(types)) <==> BranchesKeepOnce(Deduped(types), Keys(HoistedOf(types)))
  {
    hide Left, LeftOfAll;
    var deduped, keys := Deduped(types), Keys(HoistedOf(types));
    var appended := Without(HoistedOf(types), Keys(types));
    forall key ensures Count(Spread(types), key) == Count(LeftOfAll(deduped, keys), key) + Count(appended, key) {
      CountOfBoth(LeftOfAll(deduped, keys), appended, key);
    }
    if BranchesKeepOnce(deduped, keys) {
      forall key ensures Count(Spread(types), key) <= 1 {
        LeftCount(deduped, keys, key);
        AtMostOneOf(types, key, Count(LeftOfAll(deduped, keys), key));
      }
    }
    if Distinct(Spread(types)) {
      forall t, key | t in deduped && IsBranch(t) ensures Count(Left(t, keys), key) <= 1 {
        LeftCounts(deduped, keys, t, key);
      }
    }
  }

  // The union that comes out

  /** No member of a branch is itself a parenthesised union. */
  ghost predicate IsFlat(types: seq<Type>) {
    forall t, m :: t in types && IsBranch(t) && m in Members(t) ==> !IsBranch(m)
  }

  lemma {:induction false} WithoutNothing(types: seq<Type>)
    ensures Without(types, {}) == types
  {
    if types != [] {
      WithoutNothing(types[..|types| - 1]);
    }
  }

  lemma LeftOneMore(types: seq<Type>, t: Type, keys: set<Type>)
    ensures LeftOfAll(types + [t], keys) == LeftOfAll(types, keys) + Left(t, keys)
  {
    hide Left;
    assert (types + [t])[..|types|] == types;
  }

  lemma {:induction false} LeftOfBoth(a: seq<Type>, b: seq<Type>, keys: set<Type>)
    ensures LeftOfAll(a + b, keys) == LeftOfAll(a, keys) + LeftOfAll(b, keys)
    decreases |b|
  {
    hide LeftOfAll, Left;
    if b == [] {
      assert a + b == a;
      assert LeftOfAll([], keys) == [] by { LeftOfNone(keys); }
    } else {
      var init, last := b[..|b| - 1], b[|b| - 1];
      LeftOfBoth(a, init, keys);
      LeftOneMore(a + init, last, keys);
      LeftOneMore(init, last, keys);
      assert b == init + [last] && a + b == a + init + [last];
    }
  }

  lemma LeftOfNone(keys: set<Type>)
    ensures LeftOfAll([], keys) == []
  {}

  lemma {:induction false} LeftOfPlain(types: seq<Type>)
    requires forall t :: t in types ==> !IsBranch(t)
    ensures LeftOfAll(types, {}) == types
  {
    hide LeftOfAll, IsBranch;
    if types == [] {
      LeftOfNone({});
    } else {
      var init, last := types[..|types| - 1], types[|types| - 1];
      LeftOfPlain(init);
      LeftOneMore(init, last, {});
      assert types == init + [last] && last in types;
    }
  }

  lemma LeftOfRebuilt(t: Type, keys: set<Type>)
    requires forall m :: m in Members(t) ==> !IsBranch(m)
    ensures LeftOfAll(Rebuilt(t, keys), {}) == Left(t, keys)
  {
    if IsBranch(t) {
      var remaining := Without(Members(t), keys);
      if |remaining| > 1 {
        WithoutNothing(remaining);
        LeftOfBoth([], [Paren(Union(remaining))], {});
      } else {
        forall m | m in remaining ensures !IsBranch(m) {
          WithoutHolds(Members(t), keys, m);
        }
        LeftOfPlain(remaining);
      }
    } else {
      LeftOfPlain([t]);
    }
  }

  lemma {:induction false} LeftOfRebuiltAll(types: seq<Type>, keys: set<Type>)
    requires IsFlat(types)
    ensures LeftOfAll(RebuiltAll(types, keys), {}) == LeftOfAll(types, keys)
  {
    if types != [] {
      var init, last := types[..|types| - 1], types[|types| - 1];
      LeftOfRebuiltAll(init, keys);
      assert last in types;
      LeftOfRebuilt(last, keys);
      LeftOfBoth(RebuiltAll(init, keys), Rebuilt(last, keys), {});
    }
  }

  /** When no branch holds a parenthesised union, the simplified union has no member twice, neither
      directly nor in its branches, exactly when no branch keeps one twice. */
  lemma FlatUnionKeepsEachOnce(types: seq<Type>)
    requires |Branches(Deduped(types))| >= 2 && IsFlat(types)
    ensures Distinct(LeftOfAll(SimplifiedMembers(types), {})) <==>
            BranchesKeepOnce(Deduped(types), Keys(HoistedOf(types)))
  {
    hide Distinct, BranchesKeepOnce;
    var hoisted := HoistedOf(types);
    EachMemberIsLeftOnce(types);
    forall t, m | t in Deduped(types) && IsBranch(t) && m in Members(t) ensures !IsBranch(m) {
      DedupedHolds(types, t);
    }
    if hoisted == [] {
      assert Keys(hoisted) == {};
      assert Spread(types) == LeftOfAll(Deduped(types), {});
    } else {
      LeftOfRebuiltAll(Deduped(types), Keys(hoisted));
      var appended := Without(hoisted, Keys(types));
      forall m | m in appended ensures !IsBranch(m) {
        var b := HoistedFrom(types, m);
      }
      LeftOfPlain(appended);
      LeftOfBoth(RebuiltAll(Deduped(types), Keys(hoisted)), appended, {});
    }
  }

  // Repeated outer members

  predicate IsShrunk(t: Type, keys: set<Type>, key: Type) {
    IsBranch(t) && |Left(t, keys)| >= 2 && Printed(Paren(Union(Left(t, keys)))) == key
  }

  predicate IsSingle(t: Type, keys: set<Type>, key: Type) {
    |Left(t, keys)| == 1 && Printed(Left(t, keys)[0]) == key
  }

  /** A branch that keeps several members prints like a type that stands alone in the outer union: the
      only one left of another branch, one to append, or an outer member that is no branch. */
  ghost predicate Collides(types: seq<Type>, key: Type) {
    var keys := Keys(HoistedOf(types));
    HoistedOf(types) != [] &&
    (exists b :: b in Deduped(types) && IsShrunk(b, keys, key)) &&
    ((exists c :: c in Deduped(types) && IsSingle(c, keys, key)) ||
     key in Keys(Without(HoistedOf(types), Keys(types))))
  }

  lemma CountOfOne(t: Type, key: Type)
    ensures Count([t], key) == if Printed(t) == key then 1 else 0
  {
    hide Printed;
    CountOfBoth([], [t], key);
  }

  lemma {:induction false} RebuiltCount(types: seq<Type>, keys: set<Type>, key: Type, t: Type)
    requires t in types
    ensures Count(RebuiltAll(types, keys), key) >= Count(Rebuilt(t, keys), key)
  {
    hide Rebuilt;
    var init, last := types[..|types| - 1], types[|types| - 1];
    CountOfBoth(RebuiltAll(init, keys), Rebuilt(last, keys), key);
    if t != last {
      RebuiltCount(init, keys, key, t);
    }
  }

  lemma {:induction false} RebuiltCountOfTwo(types: seq<Type>, keys: set<Type>, key: Type, t: Type, u: Type)
    requires t in types && u in types && t != u
    ensures Count(RebuiltAll(types, keys), key) >= Count(Rebuilt(t, keys), key) + Count(Rebuilt(u, keys), key)
  {
    hide Rebuilt;
    var init, last := types[..|types| - 1], types[|types| - 1];
    CountOfBoth(RebuiltAll(init, keys), Rebuilt(last, keys), key);
    if t == last {
      RebuiltCount(init, keys, key, u);
    } else if u == last {
      RebuiltCount(init, keys, key, t);
    } else {
      RebuiltCountOfTwo(init, keys, key, t, u);
    }
  }

  lemma CollisionRepeats(types: seq<Type>, key: Type)
    requires Collides(types, key)
    ensures Count(SimplifiedMembers(types), key) >= 2
  {
    hide Printed;
    var keys, deduped := Keys(HoistedOf(types)), Deduped(types);
    var appended := Without(HoistedOf(types), Keys(types));
    CountOfBoth(RebuiltAll(deduped, keys), appended, key);
    CountIsZero(appended, key);
    var b :| b in deduped && IsShrunk(b, keys, key);
    CountOfOne(Paren(Union(Left(b, keys))), key);
    RebuiltCount(deduped, keys, key, b);
    if c :| c in deduped && IsSingle(c, keys, key) {
      CountOfOne(Left(c, keys)[0], key);
      assert Rebuilt(c, keys) == [Left(c, keys)[0]];
      RebuiltCountOfTwo(deduped, keys, key, b, c);
    }
  }

  /** A text that is no shrunk branch is left by each branch at most once. */
  lemma {:induction false} NotShrunkCount(types: seq<Type>, keys: set<Type>, key: Type)
    requires forall b :: b in types ==> !IsShrunk(b, keys, key)
    ensures Count(RebuiltAll(types, keys), key) <=
            Count(types, key) + if key in keys then 0 else CountIn(Branches(types), key)
  {
    hide Printed, IsShrunk, Rebuilt;
    if types != [] {
      var init, last := types[..|types| - 1], types[|types| - 1];
      NotShrunkCount(init, keys, key);
      CountOfBoth(RebuiltAll(init, keys), Rebuilt(last, keys), key);
      assert last in types;
      NotShrunkOne(last, keys, key);
    }
  }

  lemma NotShrunkOne(t: Type, keys: set<Type>, key: Type)
    requires !IsShrunk(t, keys, key)
    ensures Count(Rebuilt(t, keys), key) <=
            if IsBranch(t) then (if key !in keys && key in Keys(Members(t)) then 1 else 0)
            else if Printed(t) == key then 1 else 0
  {
    hide Printed;
    if !IsBranch(t) {
      CountOfOne(t, key);
    } else {
      var left := Left(t, keys);
      if |left| == 1 {
        CountOfOne(left[0], key);
        assert left == [left[0]] && left[0] in left;
        WithoutHolds(Members(t), keys, left[0]);
      } else if |left| >= 2 {
        CountOfOne(Paren(Union(left)), key);
      }
    }
  }

  /** Shrunk branches with the same text share the text of their first members. */
  lemma ShrunkAlike(b: Type, t: Type, keys: set<Type>, key: Type)
    requires IsShrunk(b, keys, key) && !IsSingle(t, keys, key)
    ensures Count(Rebuilt(t, keys), key) <= if Printed(Left(b, keys)[0]) in Keys(Members(t)) then 1 else 0
  {
    var left := Left(t, keys);
    if !IsBranch(t) {
      CountOfOne(t, key);
      assert left == [t];
    } else if |left| >= 2 {
      CountOfOne(Paren(Union(left)), key);
      WithoutHolds(Members(t), keys, left[0]);
      if Printed(Paren(Union(left))) == key {
        assert Printed(left[0]) == Printed(Union(left)).members[0];
        assert Printed(Left(b, keys)[0]) == Printed(Union(Left(b, keys))).members[0];
      }
    } else if |left| == 1 {
      CountOfOne(left[0], key);
      assert left == [left[0]];
    }
  }

  lemma {:induction false} ShrunkCount(types: seq<Type>, b: Type, keys: set<Type>, key: Type)
    requires IsShrunk(b, keys, key) && forall t :: t in types ==> !IsSingle(t, keys, key)
    ensures Count(RebuiltAll(types, keys), key) <= CountIn(Branches(types), Printed(Left(b, keys)[0]))
  {
    hide Printed, IsShrunk, IsSingle, Rebuilt;
    if types != [] {
      var init, last := types[..|types| - 1], types[|types| - 1];
      ShrunkCount(init, b, keys, key);
      CountOfBoth(RebuiltAll(init, keys), Rebuilt(last, keys), key);
      assert last in types;
      ShrunkAlike(b, last, keys, key);
    }
  }

  lemma NoCollisionNoRepeat(types: seq<Type>, key: Type)
    requires HoistedOf(types) != [] && !Collides(types, key)
    ensures Count(SimplifiedMembers(types), key) <= 1
  {
    hide Printed;
    var keys, deduped := Keys(HoistedOf(types)), Deduped(types);
    var appended := Without(HoistedOf(types), Keys(types));
    CountOfBoth(RebuiltAll(deduped, keys), appended, key);
    if b :| b in deduped && IsShrunk(b, keys, key) {
      CountIsZero(appended, key);
      ShrunkCount(deduped, b, keys, key);
      var m := Left(b, keys)[0];
      assert m in Left(b, keys);
      WithoutHolds(Members(b), keys, m);
      HoistedExactly(types, Printed(m));
    } else {
      NotShrunkCount(deduped, keys, key);
      AtMostOneOf(types, key, Count(RebuiltAll(deduped, keys), key));
    }
  }

  /** The simplified union repeats an outer member exactly when a shrunk branch prints like a type that
      stands alone in it. */
  lemma RepeatsExactly(types: seq<Type>)
    ensures Distinct(SimplifiedMembers(types)) <==> forall key :: !Collides(types, key)
  {
    hide Collides, SimplifiedMembers;
    forall key ensures Collides(types, key) <==> Count(SimplifiedMembers(types), key) > 1 {
      if Collides(types, key) {
        CollisionRepeats(types, key);
      } else if HoistedOf(types) == [] {
        NothingHoisted(types, key);
      } else {
        NoCollisionNoRepeat(types, key);
      }
    }
  }

  lemma NothingHoisted(types: seq<Type>, key: Type)
    requires HoistedOf(types) == []
    ensures Count(SimplifiedMembers(types), key) <= 1
  {
    DedupedOnce(types, key);
  }
}

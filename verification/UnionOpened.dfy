/** When a simplified union keeps each member once, among its outer members and its branches. */
module UnionOpened {
  import opened UnionTypes
  import opened UnionSimplifier
  import opened UnionDuplicates

  /** The outer members of a union and the members of its branches. */
  function Flattened(members: seq<Type>): seq<Type> {
    LeftOfAll(members, {})
  }

  /** The only member left of a branch, which is unwrapped. */
  function Lone(t: Type, keys: set<Type>): seq<Type> {
    if IsBranch(t) && |Left(t, keys)| == 1 then Left(t, keys) else []
  }

  function Others(types: seq<Type>): seq<Type> {
    if types == [] then []
    else
      var init, last := types[..|types| - 1], types[|types| - 1];
      if IsBranch(last) then Others(init) else Others(init) + [last]
  }

  /** The parenthesised unions that are unwrapped. */
  function OpenedIn(types: seq<Type>, keys: set<Type>): seq<Type> {
    if types == [] then []
    else OpenedIn(types[..|types| - 1], keys) + Branches(Lone(types[|types| - 1], keys))
  }

  function Stay(t: Type, keys: set<Type>): seq<Type> {
    if Branches(Lone(t, keys)) == [] then Left(t, keys) else []
  }

  function StaysIn(types: seq<Type>, keys: set<Type>): seq<Type> {
    if types == [] then [] else StaysIn(types[..|types| - 1], keys) + Stay(types[|types| - 1], keys)
  }

  function Appended(types: seq<Type>): seq<Type> {
    Without(HoistedOf(types), Keys(types))
  }

  /** The parenthesised unions that a branch gives up to the outer union, unwrapped or appended. Their
      members become members of a branch of the result. */
  function Opened(types: seq<Type>): seq<Type> {
    if HoistedOf(types) == [] then []
    else OpenedIn(Deduped(types), Keys(HoistedOf(types))) + Branches(Appended(types))
  }

  /** What else is left: outer members, members of shrunk branches, and plain types given up. */
  function Stays(types: seq<Type>): seq<Type> {
    if HoistedOf(types) == [] then LeftOfAll(Deduped(types), {})
    else StaysIn(Deduped(types), Keys(HoistedOf(types))) + Others(Appended(types))
  }

  /** No branch keeps a text twice, no opened union holds one twice, and no text of an opened union is
      also in another one or among what else is left. */
  ghost predicate IsTidy(types: seq<Type>) {
    && BranchesKeepOnce(Deduped(types), Keys(HoistedOf(types)))
    && (forall o :: o in Opened(types) ==> Distinct(Members(o)))
    && forall key :: CountIn(Opened(types), key) + (if key in Keys(Stays(types)) then 1 else 0) <= 1
  }

  // What comes out, counted

  lemma {:induction false} InnersOfBoth(a: seq<Type>, b: seq<Type>)
    ensures Inners(a + b) == Inners(a) + Inners(b)
  {
    if b == [] {
      assert a + b == a;
    } else {
      InnersOfBoth(a, b[..|b| - 1]);
      assert (a + b)[..|a + b| - 1] == a + b[..|b| - 1];
    }
  }

  lemma InnersOfOne(t: Type)
    ensures Inners([t]) == Members(t)
  {
    assert [t][..0] == [];
  }

  lemma BranchesOfOne(t: Type)
    ensures Branches([t]) == if IsBranch(t) then [t] else []
  {
    assert [t][..0] == [];
  }

  lemma FlattenedOne(t: Type)
    ensures Flattened([t]) == if IsBranch(t) then Members(t) else [t]
  {
    hide Without;
    LeftOneMore([], t, {});
    LeftOfNone({});
    WithoutNothing(Members(t));
    assert [] + [t] == [t];
  }

  lemma RebuiltFlattened(t: Type, keys: set<Type>, key: Type)
    ensures Count(Flattened(Rebuilt(t, keys)), key) ==
            Count(Stay(t, keys), key) + Count(Inners(Branches(Lone(t, keys))), key)
    ensures Count(Left(t, keys), key) == Count(Stay(t, keys), key) + Count(Branches(Lone(t, keys)), key)
  {
    hide *;
    RebuiltParts(t, keys);
    CountOfBoth(Stay(t, keys), Inners(Branches(Lone(t, keys))), key);
    CountOfBoth(Stay(t, keys), Branches(Lone(t, keys)), key);
  }

  lemma RebuiltParts(t: Type, keys: set<Type>)
    ensures Flattened(Rebuilt(t, keys)) == Stay(t, keys) + Inners(Branches(Lone(t, keys)))
    ensures Left(t, keys) == Stay(t, keys) + Branches(Lone(t, keys))
  {
    hide Printed, Flattened, Without, Inners, Branches, Count;
    var left := Left(t, keys);
    NothingFlattened();
    if !IsBranch(t) {
      FlattenedOne(t);
    } else if |left| == 1 {
      assert left == [left[0]];
      FlattenedOne(left[0]);
      BranchesOfOne(left[0]);
      InnersOfOne(left[0]);
    } else if |left| >= 2 {
      FlattenedOne(Paren(Union(left)));
    }
  }

  lemma NothingFlattened()
    ensures Flattened([]) == [] && Branches([]) == [] && Inners([]) == [] && forall key :: Count([], key) == 0
  {}

  lemma {:induction false} RebuiltAllFlattened(types: seq<Type>, keys: set<Type>, key: Type)
    ensures Count(Flattened(RebuiltAll(types, keys)), key) ==
            Count(StaysIn(types, keys), key) + Count(Inners(OpenedIn(types, keys)), key)
    ensures Count(LeftOfAll(types, keys), key) == Count(StaysIn(types, keys), key) + Count(OpenedIn(types, keys), key)
  {
    hide Stay, Lone, Left, Rebuilt, Branches, Inners, Count, LeftOfAll;
    if types == [] {
      NothingFlattened();
      LeftOfNone(keys);
    } else {
      var init, last := types[..|types| - 1], types[|types| - 1];
      RebuiltAllFlattened(init, keys, key);
      RebuiltFlattened(last, keys, key);
      LeftOfBoth(RebuiltAll(init, keys), Rebuilt(last, keys), {});
      CountOfBoth(Flattened(RebuiltAll(init, keys)), Flattened(Rebuilt(last, keys)), key);
      CountOfBoth(StaysIn(init, keys), Stay(last, keys), key);
      InnersOfBoth(OpenedIn(init, keys), Branches(Lone(last, keys)));
      CountOfBoth(Inners(OpenedIn(init, keys)), Inners(Branches(Lone(last, keys))), key);
      CountOfBoth(OpenedIn(init, keys), Branches(Lone(last, keys)), key);
      assert types == init + [last];
      LeftOneMore(init, last, keys);
      CountOfBoth(LeftOfAll(init, keys), Left(last, keys), key);
    }
  }

  lemma {:induction false} AppendedFlattened(types: seq<Type>, key: Type)
    ensures Count(Flattened(types), key) == Count(Others(types), key) + Count(Inners(Branches(types)), key)
    ensures Count(types, key) == Count(Others(types), key) + Count(Branches(types), key)
  {
    hide Inners, Count, LeftOfAll, IsBranch, Members;
    if types == [] {
      NothingFlattened();
    } else {
      var init, last := types[..|types| - 1], types[|types| - 1];
      AppendedFlattened(init, key);
      assert types == init + [last];
      LeftOfBoth(init, [last], {});
      FlattenedOne(last);
      InnersOfBoth(Branches(init), [last]);
      InnersOfOne(last);
      CountOfBoth(Flattened(init), Flattened([last]), key);
      CountOfBoth(init, [last], key);
      CountOfBoth(Others(init), [last], key);
      CountOfBoth(Branches(init), [last], key);
      CountOfBoth(Inners(Branches(init)), Members(last), key);
    }
  }

  /** The result holds what stays and the members of the opened unions; the spread holds what stays and
      the opened unions themselves. */
  lemma OpenedCounts(types: seq<Type>, key: Type)
    ensures Count(Flattened(SimplifiedMembers(types)), key) ==
            Count(Stays(types), key) + Count(Inners(Opened(types)), key)
    ensures Count(Spread(types), key) == Count(Stays(types), key) + Count(Opened(types), key)
  {
    hide Inners, Count, LeftOfAll, Branches, Others, StaysIn, OpenedIn, RebuiltAll, Deduped, HoistedOf;
    var keys, deduped := Keys(HoistedOf(types)), Deduped(types);
    if HoistedOf(types) == [] {
      NothingFlattened();
      NothingLeftOut(types);
    } else {
      RebuiltAllFlattened(deduped, keys, key);
      AppendedFlattened(Appended(types), key);
      LeftOfBoth(RebuiltAll(deduped, keys), Appended(types), {});
      CountOfBoth(Flattened(RebuiltAll(deduped, keys)), Flattened(Appended(types)), key);
      CountOfBoth(LeftOfAll(deduped, keys), Appended(types), key);
      CountOfBoth(StaysIn(deduped, keys), Others(Appended(types)), key);
      CountOfBoth(OpenedIn(deduped, keys), Branches(Appended(types)), key);
      InnersOfBoth(OpenedIn(deduped, keys), Branches(Appended(types)));
      CountOfBoth(Inners(OpenedIn(deduped, keys)), Inners(Branches(Appended(types))), key);
    }
  }

  lemma NothingLeftOut(types: seq<Type>)
    requires HoistedOf(types) == []
    ensures Keys(HoistedOf(types)) == {} && Spread(types) == LeftOfAll(Deduped(types), {})
  {
    assert Keys([]) == {};
  }

  /** Every union a text is a member of counts it. */
  lemma {:induction false} InnersAtLeast(branches: seq<Type>, key: Type)
    ensures Count(Inners(branches), key) >= CountIn(branches, key)
    ensures (forall o :: o in branches ==> Distinct(Members(o))) ==>
            Count(Inners(branches), key) == CountIn(branches, key)
  {
    hide Members;
    if branches != [] {
      var init, last := branches[..|branches| - 1], branches[|branches| - 1];
      InnersAtLeast(init, key);
      assert branches == init + [last];
      CountOfBoth(Inners(init), Members(last), key);
      CountIsZero(Members(last), key);
      assert last in branches;
    }
  }

  lemma {:induction false} InnersCountMembers(branches: seq<Type>, o: Type, key: Type)
    requires o in branches
    ensures Count(Inners(branches), key) >= Count(Members(o), key)
  {
    hide Members;
    var init, last := branches[..|branches| - 1], branches[|branches| - 1];
    CountOfBoth(Inners(init), Members(last), key);
    if o != last {
      InnersCountMembers(init, o, key);
    }
  }

  /** A branch that keeps a text twice is no opened union, so it keeps it in the result. */
  lemma {:induction false} StaysCountLeft(types: seq<Type>, keys: set<Type>, t: Type, key: Type)
    requires t in types && IsBranch(t) && Count(Left(t, keys), key) > 1
    ensures Count(StaysIn(types, keys), key) > 1
  {
    hide Left, Branches;
    var init, last := types[..|types| - 1], types[|types| - 1];
    CountOfBoth(StaysIn(init, keys), Stay(last, keys), key);
    if t != last {
      StaysCountLeft(init, keys, t, key);
    } else {
      CountIsShort(Left(t, keys), key);
      NothingFlattened();
    }
  }

  lemma {:induction false} CountIsShort(types: seq<Type>, key: Type)
    ensures Count(types, key) <= |types|
  {
    if types != [] {
      CountIsShort(types[..|types| - 1], key);
    }
  }

  lemma KeptTwiceStays(types: seq<Type>, t: Type, key: Type)
    requires t in Deduped(types) && IsBranch(t) && Count(Left(t, Keys(HoistedOf(types))), key) > 1
    ensures Count(Stays(types), key) > 1
  {
    hide Left, Count, LeftOfAll, Branches, Others, StaysIn, Deduped, HoistedOf;
    var keys := Keys(HoistedOf(types));
    if HoistedOf(types) == [] {
      NothingLeftOut(types);
      LeftCounts(Deduped(types), {}, t, key);
    } else {
      StaysCountLeft(Deduped(types), keys, t, key);
      CountOfBoth(StaysIn(Deduped(types), keys), Others(Appended(types)), key);
    }
  }

  /** With two or more branches, no member is left occurring twice among the outer members and the
      branches exactly when the union is tidy. */
  lemma KeepsEachOnceExactly(types: seq<Type>)
    requires |Branches(Deduped(types))| >= 2
    ensures Distinct(Flattened(SimplifiedMembers(types))) <==> IsTidy(types)
  {
    hide Distinct, IsTidy;
    if IsTidy(types) {
      TidyIsDistinct(types);
    }
    if Distinct(Flattened(SimplifiedMembers(types))) {
      DistinctIsTidy(types);
    }
  }

  lemma TidyIsDistinct(types: seq<Type>)
    requires |Branches(Deduped(types))| >= 2 && IsTidy(types)
    ensures Distinct(Flattened(SimplifiedMembers(types)))
  {
    hide Flattened, SimplifiedMembers, Stays, Opened, Spread, Left, Deduped, HoistedOf, Branches, Inners;
    EachMemberIsLeftOnce(types);
    forall key ensures Count(Flattened(SimplifiedMembers(types)), key) <= 1 {
      OpenedCounts(types, key);
      InnersAtLeast(Opened(types), key);
      CountIsZero(Stays(types), key);
      assert Count(Spread(types), key) <= 1;
      assert CountIn(Opened(types), key) + (if key in Keys(Stays(types)) then 1 else 0) <= 1;
    }
  }

  lemma DistinctIsTidy(types: seq<Type>)
    requires Distinct(Flattened(SimplifiedMembers(types)))
    ensures IsTidy(types)
  {
    hide Flattened, SimplifiedMembers, Stays, Opened, Spread, Left, Deduped, HoistedOf, Branches, Inners;
    forall key ensures CountIn(Opened(types), key) + (if key in Keys(Stays(types)) then 1 else 0) <= 1 {
      OpenedCounts(types, key);
      InnersAtLeast(Opened(types), key);
      CountIsZero(Stays(types), key);
    }
    forall o, key | o in Opened(types) ensures Count(Members(o), key) <= 1 {
      OpenedCounts(types, key);
      InnersCountMembers(Opened(types), o, key);
    }
    forall t, key | t in Deduped(types) && IsBranch(t) ensures Count(Left(t, Keys(HoistedOf(types))), key) <= 1 {
      OpenedCounts(types, key);
      if Count(Left(t, Keys(HoistedOf(types))), key) > 1 {
        KeptTwiceStays(types, t, key);
      }
    }
  }
}

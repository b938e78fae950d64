/** The repetitions of simplified unions, over whole type trees. */
module UnionTrees {
  import opened UnionTypes
  import opened UnionSimplifier
  import opened UnionDuplicates
  import opened UnionOpened

  /** The members of a union as the visitor finds them, rewritten already. */
  function SimplifiedEach(types: seq<Type>): (r: seq<Type>)
    ensures |r| == |types| && forall i :: 0 <= i < |r| ==> r[i] == Simplified(types[i])
  {
    seq(|types|, i requires 0 <= i < |types| => Simplified(types[i]))
  }

  lemma UnionIs(members: seq<Type>)
    ensures Simplified(Union(members)) == Union(SimplifiedMembers(SimplifiedEach(members)))
  {
    hide SimplifiedMembers;
    assert SimplifiedEach(members) == seq(|members|, i requires 0 <= i < |members| => Simplified(members[i]));
  }

  // Any tree

  ghost predicate Repeats(members: seq<Type>) {
    exists key :: Collides(members, key)
  }

  /** No union of the tree comes out with an outer member twice. */
  ghost predicate NoneRepeats(t: Type) {
    match t
    case Leaf(_) => true
    case Other(_, parts) => forall i :: 0 <= i < |parts| ==> NoneRepeats(parts[i])
    case Paren(inner) => NoneRepeats(inner)
    case Union(members) =>
      !Repeats(SimplifiedEach(members)) && forall i :: 0 <= i < |members| ==> NoneRepeats(members[i])
  }

  ghost predicate VisitsAreDistinct(t: Type) {
    match t
    case Leaf(_) => true
    case Other(_, parts) => forall i :: 0 <= i < |parts| ==> VisitsAreDistinct(parts[i])
    case Paren(inner) => VisitsAreDistinct(inner)
    case Union(members) =>
      Distinct(SimplifiedMembers(SimplifiedEach(members))) &&
      forall i :: 0 <= i < |members| ==> VisitsAreDistinct(members[i])
  }

  /** Every union of the tree has distinct members. */
  ghost predicate AllDistinct(t: Type) {
    match t
    case Leaf(_) => true
    case Other(_, parts) => forall i :: 0 <= i < |parts| ==> AllDistinct(parts[i])
    case Paren(inner) => AllDistinct(inner)
    case Union(members) => Distinct(members) && forall i :: 0 <= i < |members| ==> AllDistinct(members[i])
  }

  lemma DistinctUnlessRepeats(types: seq<Type>)
    ensures Distinct(SimplifiedMembers(types)) <==> !Repeats(types)
  {
    hide Collides, SimplifiedMembers, Distinct;
    RepeatsExactly(types);
  }

  /** Every union the visitor leaves has distinct members exactly when none of them repeats. */
  lemma {:induction false} VisitsAreDistinctExactly(t: Type)
    ensures VisitsAreDistinct(t) <==> NoneRepeats(t)
  {
    hide SimplifiedMembers, Distinct, Repeats;
    match t
    case Leaf(_) =>
    case Other(_, parts) =>
      forall i | 0 <= i < |parts| ensures VisitsAreDistinct(parts[i]) <==> NoneRepeats(parts[i]) {
        VisitsAreDistinctExactly(parts[i]);
      }
    case Paren(inner) =>
      VisitsAreDistinctExactly(inner);
    case Union(members) =>
      DistinctUnlessRepeats(SimplifiedEach(members));
      forall i | 0 <= i < |members| ensures VisitsAreDistinct(members[i]) <==> NoneRepeats(members[i]) {
        VisitsAreDistinctExactly(members[i]);
      }
  }

  lemma SimplifiedBranch(t: Type)
    ensures IsBranch(Simplified(t)) <==> IsBranch(t)
    ensures Simplified(t).Union? <==> t.Union?
    ensures IsBranch(t) ==> Members(Simplified(t)) == SimplifiedMembers(SimplifiedEach(Members(t)))
  {
    hide SimplifiedMembers;
    if IsBranch(t) {
      UnionIs(t.inner.members);
    }
  }

  ghost predicate DistinctBranches(types: seq<Type>) {
    forall i :: 0 <= i < |types| && IsBranch(types[i]) ==> Distinct(Members(types[i]))
  }

  /** The branches of a visited union have distinct members exactly when no nested union repeats. */
  lemma BranchesAreDistinctExactly(members: seq<Type>)
    ensures DistinctBranches(SimplifiedEach(members)) <==>
            forall i :: 0 <= i < |members| && IsBranch(members[i]) ==> !Repeats(SimplifiedEach(Members(members[i])))
  {
    hide SimplifiedMembers, Distinct, Repeats, Simplified, SimplifiedEach;
    var types := SimplifiedEach(members);
    forall i | 0 <= i < |members|
      ensures IsBranch(types[i]) <==> IsBranch(members[i])
      ensures IsBranch(members[i]) ==>
                (Distinct(Members(types[i])) <==> !Repeats(SimplifiedEach(Members(members[i]))))
    {
      SimplifiedBranch(members[i]);
      DistinctUnlessRepeats(SimplifiedEach(Members(members[i])));
    }
  }

  // Where the members of a simplified union come from

  lemma MemberOrigin(types: seq<Type>, m: Type) returns (b: Type)
    requires m in SimplifiedMembers(types)
    ensures b in types
    ensures m == b || (IsBranch(b) && (m in Members(b) || m == Paren(Union(Left(b, Keys(HoistedOf(types)))))))
  {
    hide Printed;
    var hoisted := HoistedOf(types);
    if hoisted == [] {
      b := m;
    } else if m in RebuiltAll(Deduped(types), Keys(hoisted)) {
      b := RebuiltAllFinds(Deduped(types), Keys(hoisted), m);
      WithoutHolds(Members(b), Keys(hoisted), m);
    } else {
      b := HoistedFrom(types, m);
    }
    DedupedHolds(types, b);
  }

  lemma LeftIsDistinct(b: Type, keys: set<Type>)
    requires IsBranch(b) && Distinct(Members(b))
    ensures Distinct(Left(b, keys))
  {
    hide Printed;
    forall key ensures Count(Left(b, keys), key) <= 1 {
      WithoutCount(Members(b), keys, key);
    }
  }

  lemma LeftIsMembers(b: Type, keys: set<Type>, i: nat)
    requires IsBranch(b) && i < |Left(b, keys)|
    ensures Left(b, keys)[i] in Members(b)
  {
    WithoutHolds(Members(b), keys, Left(b, keys)[i]);
  }

  lemma PartsAreDistinct(types: seq<Type>, i: nat)
    requires i < |SimplifiedMembers(types)| && forall t :: t in types ==> AllDistinct(t)
    ensures AllDistinct(SimplifiedMembers(types)[i])
  {
    hide SimplifiedMembers, Distinct, Left, HoistedOf;
    var m := SimplifiedMembers(types)[i];
    var b := MemberOrigin(types, m);
    if m != b {
      assert Distinct(Members(b)) && forall x :: x in Members(b) ==> AllDistinct(x) by { BranchParts(b); }
      if m !in Members(b) {
        var left := Left(b, Keys(HoistedOf(types)));
        LeftIsDistinct(b, Keys(HoistedOf(types)));
        forall j | 0 <= j < |left| ensures AllDistinct(left[j]) {
          LeftIsMembers(b, Keys(HoistedOf(types)), j);
        }
      }
    }
  }

  lemma BranchParts(b: Type)
    requires IsBranch(b) && AllDistinct(b)
    ensures Distinct(Members(b)) && forall x :: x in Members(b) ==> AllDistinct(x)
  {
    hide Distinct;
    assert AllDistinct(b.inner);
  }

  /** When no union of a tree repeats, every union of the simplified tree has distinct members. */
  lemma {:induction false} NoneRepeatsIsDistinct(t: Type)
    requires NoneRepeats(t)
    ensures AllDistinct(Simplified(t))
  {
    hide SimplifiedMembers, Distinct, Repeats;
    match t
    case Leaf(_) =>
    case Other(_, parts) =>
      forall i | 0 <= i < |parts| ensures AllDistinct(Simplified(parts[i])) {
        NoneRepeatsIsDistinct(parts[i]);
      }
    case Paren(inner) =>
      NoneRepeatsIsDistinct(inner);
    case Union(members) =>
      var types := SimplifiedEach(members);
      forall i | 0 <= i < |members| ensures AllDistinct(types[i]) {
        NoneRepeatsIsDistinct(members[i]);
      }
      DistinctUnlessRepeats(types);
      UnionIs(members);
      forall i | 0 <= i < |SimplifiedMembers(types)| ensures AllDistinct(SimplifiedMembers(types)[i]) {
        PartsAreDistinct(types, i);
      }
  }

  // Trees whose unions are tidy

  /** The union comes out with each member once: outer ones, and with two branches their members too. */
  ghost predicate ComesOutOnce(types: seq<Type>) {
    Distinct(SimplifiedMembers(types)) &&
    (|Branches(Deduped(types))| >= 2 ==> Distinct(Flattened(SimplifiedMembers(types))))
  }

  ghost predicate IsTidyUnion(types: seq<Type>) {
    !Repeats(types) && (|Branches(Deduped(types))| >= 2 ==> IsTidy(types))
  }

  ghost predicate VisitsKeepOnce(t: Type) {
    match t
    case Leaf(_) => true
    case Other(_, parts) => forall i :: 0 <= i < |parts| ==> VisitsKeepOnce(parts[i])
    case Paren(inner) => VisitsKeepOnce(inner)
    case Union(members) =>
      ComesOutOnce(SimplifiedEach(members)) && forall i :: 0 <= i < |members| ==> VisitsKeepOnce(members[i])
  }

  ghost predicate VisitsAreTidy(t: Type) {
    match t
    case Leaf(_) => true
    case Other(_, parts) => forall i :: 0 <= i < |parts| ==> VisitsAreTidy(parts[i])
    case Paren(inner) => VisitsAreTidy(inner)
    case Union(members) =>
      IsTidyUnion(SimplifiedEach(members)) && forall i :: 0 <= i < |members| ==> VisitsAreTidy(members[i])
  }

  lemma ComesOutOnceExactly(types: seq<Type>)
    ensures ComesOutOnce(types) <==> IsTidyUnion(types)
  {
    hide SimplifiedMembers, Distinct, Repeats, Flattened, IsTidy, Branches, Deduped;
    DistinctUnlessRepeats(types);
    if |Branches(Deduped(types))| >= 2 {
      KeepsEachOnceExactly(types);
    }
  }

  /** Every union the visitor leaves in a tree keeps each member once, branches included, exactly when
      every union it visits is tidy. */
  lemma {:induction false} VisitsKeepOnceExactly(t: Type)
    ensures VisitsKeepOnce(t) <==> VisitsAreTidy(t)
  {
    hide ComesOutOnce, IsTidyUnion;
    match t
    case Leaf(_) =>
    case Other(_, parts) =>
      forall i | 0 <= i < |parts| ensures VisitsKeepOnce(parts[i]) <==> VisitsAreTidy(parts[i]) {
        VisitsKeepOnceExactly(parts[i]);
      }
    case Paren(inner) =>
      VisitsKeepOnceExactly(inner);
    case Union(members) =>
      ComesOutOnceExactly(SimplifiedEach(members));
      forall i | 0 <= i < |members| ensures VisitsKeepOnce(members[i]) <==> VisitsAreTidy(members[i]) {
        VisitsKeepOnceExactly(members[i]);
      }
  }

  // Trees whose branches hold no parenthesised unions

  /** No member of a union is a bare union, and none of a branch a parenthesised one. */
  ghost predicate IsFlatUnion(types: seq<Type>) {
    && (forall i :: 0 <= i < |types| ==> !types[i].Union?)
    && forall i, j :: 0 <= i < |types| && 0 <= j < |Members(types[i])| ==>
         !Members(types[i])[j].Union? && !IsBranch(Members(types[i])[j])
  }

  ghost predicate FlatTree(t: Type) {
    match t
    case Leaf(_) => true
    case Other(_, parts) => forall i :: 0 <= i < |parts| ==> FlatTree(parts[i])
    case Paren(inner) => FlatTree(inner)
    case Union(members) => IsFlatUnion(members) && forall i :: 0 <= i < |members| ==> FlatTree(members[i])
  }

  /** The members of a union are distinct, and with two branches none occurs twice in them either. */
  ghost predicate KeepsOnce(members: seq<Type>) {
    Distinct(members) && (|Branches(members)| >= 2 ==> Distinct(Flattened(members)))
  }

  ghost predicate AllKeepOnce(t: Type) {
    match t
    case Leaf(_) => true
    case Other(_, parts) => forall i :: 0 <= i < |parts| ==> AllKeepOnce(parts[i])
    case Paren(inner) => AllKeepOnce(inner)
    case Union(members) => KeepsOnce(members) && forall i :: 0 <= i < |members| ==> AllKeepOnce(members[i])
  }

  lemma {:induction false} NoBranchesIn(types: seq<Type>)
    requires forall i :: 0 <= i < |types| ==> !IsBranch(types[i])
    ensures Branches(types) == []
  {
    if types != [] {
      NoBranchesIn(types[..|types| - 1]);
    }
  }

  /** Without branches a union is only deduplicated. */
  lemma PlainUnion(types: seq<Type>)
    requires forall i :: 0 <= i < |types| ==> !IsBranch(types[i]) && !types[i].Union?
    ensures Distinct(SimplifiedMembers(types))
    ensures forall i :: 0 <= i < |SimplifiedMembers(types)| ==>
              !IsBranch(SimplifiedMembers(types)[i]) && !SimplifiedMembers(types)[i].Union?
  {
    hide Printed;
    forall i | 0 <= i < |Deduped(types)| ensures Deduped(types)[i] in types {
      DedupedHolds(types, Deduped(types)[i]);
    }
    NoBranchesIn(Deduped(types));
    assert HoistedOf(types) == [];
    forall key ensures Count(Deduped(types), key) <= 1 {
      DedupedOnce(types, key);
    }
  }

  /** What the visitor finds in a union of a flat tree. */
  lemma FlatVisit(members: seq<Type>)
    requires IsFlatUnion(members)
    ensures IsFlatUnion(SimplifiedEach(members))
    ensures forall i :: 0 <= i < |members| && IsBranch(members[i]) ==> Distinct(Members(SimplifiedEach(members)[i]))
  {
    hide SimplifiedMembers, Distinct, Simplified;
    var types := SimplifiedEach(members);
    forall i | 0 <= i < |members|
      ensures !types[i].Union? && (IsBranch(members[i]) ==> Distinct(Members(types[i])))
      ensures forall j :: 0 <= j < |Members(types[i])| ==>
              !Members(types[i])[j].Union? && !IsBranch(Members(types[i])[j])
    {
      SimplifiedBranch(members[i]);
      var inner := SimplifiedEach(Members(members[i]));
      forall j | 0 <= j < |inner| ensures !inner[j].Union? && !IsBranch(inner[j]) {
        SimplifiedBranch(Members(members[i])[j]);
      }
      PlainUnion(inner);
    }
  }

  lemma PlainText(c: Type, left: seq<Type>)
    requires !c.Union? && !IsBranch(c) && |left| >= 2
    ensures Printed(c) != Printed(Paren(Union(left)))
  {
    assert Printed(Paren(Union(left))).inner == Printed(Union(left)) && Printed(Union(left)).Union?;
    if c.Paren? {
      assert !Printed(c.inner).Union?;
    }
  }

  lemma FlatNeverRepeats(types: seq<Type>)
    requires IsFlatUnion(types)
    ensures !Repeats(types)
  {
    hide Printed, HoistedOf, Deduped, Without;
    var keys := Keys(HoistedOf(types));
    forall key ensures !Collides(types, key) {
      if b :| b in Deduped(types) && IsShrunk(b, keys, key) {
        forall c | c in Deduped(types) ensures !IsSingle(c, keys, key) {
          DedupedHolds(types, c);
          var i :| 0 <= i < |types| && types[i] == c;
          if |Left(c, keys)| == 1 {
            if IsBranch(c) {
              LeftIsMembers(c, keys, 0);
              assert Members(c) == Members(types[i]);
            }
            PlainText(Left(c, keys)[0], Left(b, keys));
          }
        }
        forall m | m in Without(HoistedOf(types), Keys(types)) ensures Printed(m) != key {
          var d := HoistedFrom(types, m);
          DedupedHolds(types, d);
          var i :| 0 <= i < |types| && types[i] == d;
          assert Members(d) == Members(types[i]);
          PlainText(m, Left(b, keys));
        }
      }
    }
  }

  lemma FlatUnionKeepsOnce(types: seq<Type>)
    requires IsFlatUnion(types)
    requires forall i :: 0 <= i < |types| && IsBranch(types[i]) ==> Distinct(Members(types[i]))
    ensures KeepsOnce(SimplifiedMembers(types))
  {
    hide Distinct, HoistedOf, Deduped, Left, Repeats;
    FlatNeverRepeats(types);
    DistinctUnlessRepeats(types);
    if |Branches(Deduped(types))| >= 2 {
      forall t, m | t in types && IsBranch(t) && m in Members(t) ensures !IsBranch(m) {
        var i :| 0 <= i < |types| && types[i] == t;
      }
      forall t | t in Deduped(types) && IsBranch(t) ensures Distinct(Left(t, Keys(HoistedOf(types)))) {
        DedupedHolds(types, t);
        var i :| 0 <= i < |types| && types[i] == t;
        LeftIsDistinct(t, Keys(HoistedOf(types)));
      }
      FlatUnionKeepsEachOnce(types);
    } else {
      assert SimplifiedMembers(types) == Deduped(types) by { FewBranches(types); }
    }
  }

  lemma FewBranches(types: seq<Type>)
    requires |Branches(Deduped(types))| < 2
    ensures SimplifiedMembers(types) == Deduped(types)
  {}

  lemma PartsKeepOnce(types: seq<Type>, i: nat)
    requires i < |SimplifiedMembers(types)| && IsFlatUnion(types) && forall t :: t in types ==> AllKeepOnce(t)
    ensures AllKeepOnce(SimplifiedMembers(types)[i])
  {
    hide SimplifiedMembers, Distinct, Left, HoistedOf, Flattened;
    var m := SimplifiedMembers(types)[i];
    var b := MemberOrigin(types, m);
    if m != b {
      assert Distinct(Members(b)) && forall x :: x in Members(b) ==> AllKeepOnce(x) by { BranchKeeps(b); }
      if m !in Members(b) {
        var left := Left(b, Keys(HoistedOf(types)));
        var k :| 0 <= k < |types| && types[k] == b;
        LeftIsDistinct(b, Keys(HoistedOf(types)));
        forall j | 0 <= j < |left| ensures AllKeepOnce(left[j]) && !IsBranch(left[j]) {
          LeftIsMembers(b, Keys(HoistedOf(types)), j);
          assert Members(b) == Members(types[k]);
        }
        NoBranchesIn(left);
      }
    }
  }

  lemma BranchKeeps(b: Type)
    requires IsBranch(b) && AllKeepOnce(b)
    ensures Distinct(Members(b)) && forall x :: x in Members(b) ==> AllKeepOnce(x)
  {
    hide Distinct;
    assert AllKeepOnce(b.inner);
  }

  /** When no branch of a tree holds a parenthesised union, every union of the simplified tree keeps each
      member once. */
  lemma {:induction false} FlatTreeKeepsOnce(t: Type)
    requires FlatTree(t)
    ensures AllKeepOnce(Simplified(t))
  {
    hide SimplifiedMembers, KeepsOnce, IsFlatUnion;
    match t
    case Leaf(_) =>
    case Other(_, parts) =>
      forall i | 0 <= i < |parts| ensures AllKeepOnce(Simplified(parts[i])) {
        FlatTreeKeepsOnce(parts[i]);
      }
    case Paren(inner) =>
      FlatTreeKeepsOnce(inner);
    case Union(members) =>
      var types := SimplifiedEach(members);
      forall i | 0 <= i < |members| ensures AllKeepOnce(types[i]) && (IsBranch(types[i]) <==> IsBranch(members[i])) {
        FlatTreeKeepsOnce(members[i]);
        SimplifiedBranch(members[i]);
      }
      FlatVisit(members);
      FlatUnionKeepsOnce(types);
      UnionIs(members);
      forall i | 0 <= i < |SimplifiedMembers(types)| ensures AllKeepOnce(SimplifiedMembers(types)[i]) {
        PartsKeepOnce(types, i);
      }
  }
}

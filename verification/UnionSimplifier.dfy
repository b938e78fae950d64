/** The simplification of one union whose members are already simplified, and of whole type trees. */
module UnionSimplifier {
  import opened UnionTypes

  predicate IsBranch(t: Type) {
    t.Paren? && t.inner.Union?
  }

  function Keys(types: seq<Type>): set<Type> {
    set t | t in types :: Printed(t)
  }

  /** The first type of each text. */
  function Deduped(types: seq<Type>): seq<Type> {
    if types == [] then []
    else
      var init, last := types[..|types| - 1], types[|types| - 1];
      if Printed(last) in Keys(init) then Deduped(init) else Deduped(init) + [last]
  }

  function Branches(types: seq<Type>): (branches: seq<Type>)
    ensures forall i :: 0 <= i < |branches| ==> IsBranch(branches[i])
  {
    if types == [] then []
    else
      var init, last := types[..|types| - 1], types[|types| - 1];
      if IsBranch(last) then Branches(init) + [last] else Branches(init)
  }

  function Members(t: Type): seq<Type> {
    if IsBranch(t) then t.inner.members else []
  }

  function Inners(branches: seq<Type>): seq<Type> {
    if branches == [] then [] else Inners(branches[..|branches| - 1]) + Members(branches[|branches| - 1])
  }

  /** The number of branches a text occurs in. */
  function CountIn(branches: seq<Type>, key: Type): nat {
    if branches == [] then 0
    else CountIn(branches[..|branches| - 1], key) + if key in Keys(Members(branches[|branches| - 1])) then 1 else 0
  }

  /** The nodes occurring in at least two branches, or directly in the outer union. */
  function Hoisted(nodes: seq<Type>, branches: seq<Type>, direct: set<Type>): seq<Type> {
    if nodes == [] then []
    else
      var init, last := nodes[..|nodes| - 1], nodes[|nodes| - 1];
      if CountIn(branches, Printed(last)) >= 2 || Printed(last) in direct
      then Hoisted(init, branches, direct) + [last] else Hoisted(init, branches, direct)
  }

  function Without(types: seq<Type>, keys: set<Type>): seq<Type> {
    if types == [] then []
    else
      var init, last := types[..|types| - 1], types[|types| - 1];
      if Printed(last) in keys then Without(init, keys) else Without(init, keys) + [last]
  }

  function Rebuilt(t: Type, keys: set<Type>): seq<Type> {
    if !IsBranch(t) then [t]
    else
      var remaining := Without(t.inner.members, keys);
      if |remaining| <= 1 then remaining else [Paren(Union(remaining))]
  }

  function RebuiltAll(types: seq<Type>, keys: set<Type>): seq<Type> {
    if types == [] then [] else RebuiltAll(types[..|types| - 1], keys) + Rebuilt(types[|types| - 1], keys)
  }

  function HoistedOf(types: seq<Type>): seq<Type> {
    var branches := Branches(Deduped(types));
    if |branches| < 2 then [] else Hoisted(Deduped(Inners(branches)), branches, Keys(types))
  }

  /** The members of a simplified union. */
  function SimplifiedMembers(types: seq<Type>): seq<Type> {
    var hoisted := HoistedOf(types);
    if hoisted == [] then Deduped(types)
    else RebuiltAll(Deduped(types), Keys(hoisted)) + Without(hoisted, Keys(types))
  }

  /** Every union of a tree simplified, the nested ones first. */
  function Simplified(t: Type): Type {
    match t
    case Leaf(_) => t
    case Other(kind, parts) => Other(kind, seq(|parts|, i requires 0 <= i < |parts| => Simplified(parts[i])))
    case Paren(inner) => Paren(Simplified(inner))
    case Union(members) =>
      Union(SimplifiedMembers(seq(|members|, i requires 0 <= i < |members| => Simplified(members[i]))))
  }

  // The members of the parts

  lemma {:induction false} DedupedHolds(types: seq<Type>, t: Type)
    ensures t in Deduped(types) ==> t in types
  {
    if types != [] {
      DedupedHolds(types[..|types| - 1], t);
    }
  }

  lemma {:induction false} DedupedFinds(types: seq<Type>, t: Type) returns (u: Type)
    requires t in types
    ensures u in Deduped(types) && Printed(u) == Printed(t)
  {
    var init, last := types[..|types| - 1], types[|types| - 1];
    if t in init {
      u := DedupedFinds(init, t);
    } else if Printed(last) in Keys(init) {
      var v :| v in init && Printed(v) == Printed(last);
      u := DedupedFinds(init, v);
    } else {
      u := last;
    }
  }

  lemma {:induction false} BranchesHold(types: seq<Type>, t: Type)
    ensures t in Branches(types) <==> t in types && IsBranch(t)
  {
    if types != [] {
      BranchesHold(types[..|types| - 1], t);
      assert types == types[..|types| - 1] + [types[|types| - 1]];
    }
  }

  lemma {:induction false} InnersFind(branches: seq<Type>, m: Type) returns (b: Type)
    requires m in Inners(branches)
    ensures b in branches && m in Members(b)
  {
    var init, last := branches[..|branches| - 1], branches[|branches| - 1];
    if m in Members(last) {
      b := last;
    } else {
      b := InnersFind(init, m);
    }
  }

  lemma {:induction false} InnersHold(branches: seq<Type>, b: Type, m: Type)
    requires b in branches && m in Members(b)
    ensures m in Inners(branches)
  {
    if b != branches[|branches| - 1] {
      InnersHold(branches[..|branches| - 1], b, m);
    }
  }

  lemma {:induction false} HoistedHold(nodes: seq<Type>, branches: seq<Type>, direct: set<Type>, m: Type)
    ensures m in Hoisted(nodes, branches, direct) <==>
            m in nodes && (CountIn(branches, Printed(m)) >= 2 || Printed(m) in direct)
  {
    if nodes != [] {
      HoistedHold(nodes[..|nodes| - 1], branches, direct, m);
      assert nodes == nodes[..|nodes| - 1] + [nodes[|nodes| - 1]];
    }
  }

  lemma {:induction false} WithoutHolds(types: seq<Type>, keys: set<Type>, m: Type)
    ensures m in Without(types, keys) <==> m in types && Printed(m) !in keys
  {
    if types != [] {
      WithoutHolds(types[..|types| - 1], keys, m);
      assert types == types[..|types| - 1] + [types[|types| - 1]];
    }
  }

  lemma {:induction false} RebuiltAllHolds(types: seq<Type>, keys: set<Type>, t: Type, r: Type)
    requires t in types && r in Rebuilt(t, keys)
    ensures r in RebuiltAll(types, keys)
  {
    if t != types[|types| - 1] {
      RebuiltAllHolds(types[..|types| - 1], keys, t, r);
    }
  }

  lemma {:induction false} RebuiltAllFinds(types: seq<Type>, keys: set<Type>, r: Type) returns (t: Type)
    requires r in RebuiltAll(types, keys)
    ensures t in types && r in Rebuilt(t, keys)
  {
    var last := types[|types| - 1];
    if r in Rebuilt(last, keys) {
      t := last;
    } else {
      t := RebuiltAllFinds(types[..|types| - 1], keys, r);
    }
  }

  // The meaning

  ghost predicate Denotes(types: seq<Type>, a: Alternative) {
    exists t :: t in types && a in Den(t)
  }

  lemma UnionDenotes(types: seq<Type>, a: Alternative)
    ensures a in Den(Union(types)) <==> Denotes(types, a)
  {
    if a in Den(Union(types)) {
      var i :| 0 <= i < |types| && a in Den(types[i]);
      assert types[i] in types;
    }
    if Denotes(types, a) {
      var t :| t in types && a in Den(t);
      var i :| 0 <= i < |types| && types[i] == t;
      assert a in Den(types[i]);
    }
  }

  lemma SameText(t: Type, u: Type)
    requires Printed(t) == Printed(u)
    ensures Den(t) == Den(u)
  {
    PrintedDecides(t);
    PrintedDecides(u);
  }

  lemma BranchDenotes(b: Type, a: Alternative)
    requires IsBranch(b)
    ensures a in Den(b) <==> Denotes(Members(b), a)
  {
    UnionDenotes(b.inner.members, a);
  }

  lemma RebuiltDenotes(t: Type, keys: set<Type>, a: Alternative)
    requires Denotes(Rebuilt(t, keys), a)
    ensures a in Den(t)
  {
    if IsBranch(t) {
      var remaining := Without(t.inner.members, keys);
      if |remaining| > 1 {
        UnionDenotes(remaining, a);
      }
      var m :| m in remaining && a in Den(m);
      WithoutHolds(t.inner.members, keys, m);
      BranchDenotes(t, a);
    }
  }

  lemma RemainingDenotes(t: Type, keys: set<Type>, m: Type, a: Alternative)
    requires IsBranch(t) && m in Members(t) && Printed(m) !in keys && a in Den(m)
    ensures Denotes(Rebuilt(t, keys), a)
  {
    var remaining := Without(t.inner.members, keys);
    WithoutHolds(t.inner.members, keys, m);
    if |remaining| > 1 {
      UnionDenotes(remaining, a);
      assert Paren(Union(remaining)) in Rebuilt(t, keys);
    }
  }

  lemma MemberIsSmaller(b: Type, m: Type)
    requires IsBranch(b) && m in Members(b)
    ensures Size(Printed(m)) < Size(Printed(b))
  {
    var members := b.inner.members;
    var i :| 0 <= i < |members| && members[i] == m;
    if |members| > 1 {
      PartIsSmaller(Printed(b.inner).members, i);
    }
  }

  lemma LeftDenotes(types: seq<Type>, t: Type, a: Alternative)
    requires t in SimplifiedMembers(types) && a in Den(t)
    ensures Denotes(types, a)
  {
    hide Den, Printed;
    var hoisted := HoistedOf(types);
    var u: Type;
    if hoisted == [] {
      u := t;
    } else if t in RebuiltAll(Deduped(types), Keys(hoisted)) {
      u := RebuiltAllFinds(Deduped(types), Keys(hoisted), t);
      RebuiltDenotes(u, Keys(hoisted), a);
    } else {
      u := HoistedFrom(types, t);
      BranchDenotes(u, a);
    }
    DedupedHolds(types, u);
  }

  /** A type to append comes from a branch. */
  lemma HoistedFrom(types: seq<Type>, t: Type) returns (b: Type)
    requires t in Without(HoistedOf(types), Keys(types))
    ensures b in Deduped(types) && IsBranch(b) && t in Members(b)
  {
    hide Printed;
    var branches := Branches(Deduped(types));
    WithoutHolds(HoistedOf(types), Keys(types), t);
    HoistedHold(Deduped(Inners(branches)), branches, Keys(types), t);
    DedupedHolds(Inners(branches), t);
    b := InnersFind(branches, t);
    BranchesHold(Deduped(types), b);
  }

  /** What an outer member stands for is still there. A hoisted member that is not appended is the text
      of an outer member, which may be a branch that is rewritten in its turn, but a smaller one. */
  lemma {:induction false} Covered(types: seq<Type>, t: Type, a: Alternative)
    requires t in types && a in Den(t)
    ensures Denotes(SimplifiedMembers(types), a)
    decreases Size(Printed(t))
  {
    hide Den, Printed, Size;
    var hoisted := HoistedOf(types);
    var u := DedupedFinds(types, t);
    SameText(t, u);
    if hoisted != [] {
      if !IsBranch(u) {
        assert Denotes(Rebuilt(u, Keys(hoisted)), a) by { assert u in Rebuilt(u, Keys(hoisted)); }
        RebuiltStays(types, u, a);
      } else {
        BranchDenotes(u, a);
        var m :| m in Members(u) && a in Den(m);
        if Printed(m) !in Keys(hoisted) {
          RemainingDenotes(u, Keys(hoisted), m, a);
          RebuiltStays(types, u, a);
        } else {
          var h :| h in hoisted && Printed(h) == Printed(m);
          SameText(h, m);
          if Printed(m) !in Keys(types) {
            WithoutHolds(hoisted, Keys(types), h);
          } else {
            var v :| v in types && Printed(v) == Printed(m);
            SameText(v, m);
            MemberIsSmaller(u, m);
            Covered(types, v, a);
          }
        }
      }
    }
  }

  lemma RebuiltStays(types: seq<Type>, u: Type, a: Alternative)
    requires HoistedOf(types) != [] && u in Deduped(types) && Denotes(Rebuilt(u, Keys(HoistedOf(types))), a)
    ensures Denotes(SimplifiedMembers(types), a)
  {
    hide Den, Printed;
    var keys := Keys(HoistedOf(types));
    var r :| r in Rebuilt(u, keys) && a in Den(r);
    RebuiltAllHolds(Deduped(types), keys, u, r);
  }

  lemma MeaningIsKept(types: seq<Type>)
    ensures Den(Union(SimplifiedMembers(types))) == Den(Union(types))
  {
    hide Den, SimplifiedMembers;
    forall a ensures a in Den(Union(SimplifiedMembers(types))) <==> a in Den(Union(types)) {
      UnionDenotes(types, a);
      UnionDenotes(SimplifiedMembers(types), a);
      if Denotes(types, a) {
        var t :| t in types && a in Den(t);
        Covered(types, t, a);
      }
      if Denotes(SimplifiedMembers(types), a) {
        var t :| t in SimplifiedMembers(types) && a in Den(t);
        LeftDenotes(types, t, a);
      }
    }
  }

  /** Simplifying a type tree keeps what it denotes. */
  lemma {:induction false} SimplifiedMeansTheSame(t: Type)
    ensures Den(Simplified(t)) == Den(t)
  {
    hide SimplifiedMembers;
    match t
    case Leaf(_) =>
    case Other(_, parts) =>
      var changed := Simplified(t).parts;
      forall i | 0 <= i < |parts| ensures Den(changed[i]) == Den(parts[i]) {
        SimplifiedMeansTheSame(parts[i]);
      }
      assert seq(|parts|, i requires 0 <= i < |parts| => Den(parts[i])) ==
             seq(|changed|, i requires 0 <= i < |changed| => Den(changed[i]));
    case Paren(inner) =>
      SimplifiedMeansTheSame(inner);
    case Union(members) =>
      var changed := seq(|members|, i requires 0 <= i < |members| => Simplified(members[i]));
      forall i | 0 <= i < |members| ensures Den(changed[i]) == Den(members[i]) {
        SimplifiedMeansTheSame(members[i]);
      }
      SameUnion(members, changed);
      MeaningIsKept(changed);
  }
}

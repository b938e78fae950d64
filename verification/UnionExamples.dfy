/** Unions that the simplification leaves with a member twice. */
module UnionExamples {
  import opened UnionTypes
  import opened UnionSimplifier
  import opened UnionDuplicates
  import opened UnionOpened

  lemma OneMoreDistinct(types: seq<Type>, t: Type)
    requires Distinct(types) && Printed(t) !in Keys(types)
    ensures Distinct(types + [t])
  {
    hide Printed;
    forall key ensures Count(types + [t], key) <= 1 {
      CountOfBoth(types, [t], key);
      CountOfOne(t, key);
      CountIsZero(types, Printed(t));
    }
  }

  lemma TwoAreDistinct(a: Type, b: Type)
    requires Printed(a) != Printed(b)
    ensures Distinct([a, b])
  {
    hide Printed;
    assert Distinct([]);
    OneMoreDistinct([], a);
    assert [] + [a] == [a] && [a] + [b] == [a, b];
    OneMoreDistinct([a], b);
  }

  lemma PrintedOfTwo(x: Type, y: Type)
    requires x.Leaf? && y.Leaf?
    ensures Printed(Paren(Union([x, y]))) == Paren(Union([x, y]))
  {
    assert Printed(Union([x, y])).members == [x, y];
  }

  lemma TwoBranches(b: Type, c: Type)
    requires IsBranch(b) && IsBranch(c) && Printed(b) != Printed(c)
    ensures Deduped([b, c]) == [b, c] && Branches([b, c]) == [b, c] && Keys([b, c]) == {Printed(b), Printed(c)}
    ensures forall key :: CountIn([b, c], key) ==
              (if key in Keys(Members(b)) then 1 else 0) + if key in Keys(Members(c)) then 1 else 0
  {
    hide Printed;
    var types := [b, c];
    assert types[..1] == [b] && types[..1][..0] == [];
    assert Keys([b]) == {Printed(b)};
    assert Deduped([b]) == [b];
    assert Branches([b]) == [b];
    forall key ensures CountIn(types, key) ==
        (if key in Keys(Members(b)) then 1 else 0) + if key in Keys(Members(c)) then 1 else 0 {
      assert CountIn(types[..1][..0], key) == 0;
    }
  }

  lemma HoistedOfTwo(b: Type, c: Type, key: Type)
    requires IsBranch(b) && IsBranch(c) && Printed(b) != Printed(c) && key != Printed(b) && key != Printed(c)
    ensures key in Keys(HoistedOf([b, c])) <==> key in Keys(Members(b)) && key in Keys(Members(c))
  {
    hide *;
    TwoBranches(b, c);
    HoistedExactly([b, c], key);
  }

  lemma OnlyFirstIsHoisted(b: Type, c: Type, a: Type, x: Type, y: Type, xy: Type)
    requires IsBranch(b) && IsBranch(c) && Printed(b) != Printed(c)
    requires Keys(Members(b)) == {Printed(a), Printed(x), Printed(y)}
    requires Keys(Members(c)) == {Printed(xy), Printed(a)}
    requires {Printed(b), Printed(c)} !! {Printed(a), Printed(x), Printed(y), Printed(xy)}
    requires Printed(a) !in {Printed(x), Printed(y), Printed(xy)} && Printed(xy) !in {Printed(x), Printed(y)}
    ensures var keys := Keys(HoistedOf([b, c]));
            Printed(a) in keys && Printed(x) !in keys && Printed(y) !in keys && Printed(xy) !in keys
  {
    hide *;
    HoistedOfTwo(b, c, Printed(a));
    HoistedOfTwo(b, c, Printed(x));
    HoistedOfTwo(b, c, Printed(y));
    HoistedOfTwo(b, c, Printed(xy));
  }

  lemma LeftOfBranch(b: Type, keys: set<Type>)
    requires IsBranch(b)
    ensures Left(b, keys) == Without(Members(b), keys)
  {}

  /** Two branches sharing one member a, of which the second holds the rest of the first. */
  lemma SharedRest(b: Type, c: Type, a: Type, x: Type, y: Type, xy: Type)
    requires IsBranch(b) && IsBranch(c) && Members(b) == [a, x, y] && Members(c) == [xy, a]
    requires Printed(b) != Printed(c)
    requires {Printed(b), Printed(c)} !! {Printed(a), Printed(x), Printed(y), Printed(xy)}
    requires Printed(a) !in {Printed(x), Printed(y), Printed(xy)} && Printed(xy) !in {Printed(x), Printed(y)}
    ensures HoistedOf([b, c]) != [] && Deduped([b, c]) == [b, c]
    ensures Left(b, Keys(HoistedOf([b, c]))) == [x, y] && Left(c, Keys(HoistedOf([b, c]))) == [xy]
  {
    hide *;
    TwoBranches(b, c);
    KeysOfThree(a, x, y);
    KeysOfTwo(xy, a);
    OnlyFirstIsHoisted(b, c, a, x, y, xy);
    WithoutFirst(a, x, y, Keys(HoistedOf([b, c])));
    WithoutSecond(xy, a, Keys(HoistedOf([b, c])));
    LeftOfBranch(b, Keys(HoistedOf([b, c])));
    LeftOfBranch(c, Keys(HoistedOf([b, c])));
    NoKeys();
  }

  lemma NoKeys()
    ensures Keys([]) == {}
  {}

  lemma KeysOfThree(a: Type, b: Type, c: Type)
    ensures Keys([a, b, c]) == {Printed(a), Printed(b), Printed(c)}
  {
    hide Printed;
  }

  lemma KeysOfTwo(a: Type, b: Type)
    ensures Keys([a, b]) == {Printed(a), Printed(b)}
  {
    hide Printed;
  }

  lemma WithoutFirst(a: Type, x: Type, y: Type, keys: set<Type>)
    requires Printed(a) in keys && Printed(x) !in keys && Printed(y) !in keys
    ensures Without([a, x, y], keys) == [x, y]
  {
    hide Printed;
    WithoutOneMore([], a, keys);
    WithoutOneMore([a], x, keys);
    WithoutOneMore([a, x], y, keys);
    assert [] + [a] == [a] && [a] + [x] == [a, x] && [a, x] + [y] == [a, x, y];
  }

  lemma WithoutSecond(x: Type, a: Type, keys: set<Type>)
    requires Printed(a) in keys && Printed(x) !in keys
    ensures Without([x, a], keys) == [x]
  {
    hide Printed;
    WithoutOneMore([], x, keys);
    WithoutOneMore([x], a, keys);
    assert [] + [x] == [x] && [x] + [a] == [x, a];
  }

  lemma WithoutOneMore(types: seq<Type>, t: Type, keys: set<Type>)
    ensures Without(types + [t], keys) ==
            if Printed(t) in keys then Without(types, keys) else Without(types, keys) + [t]
  {
    assert (types + [t])[..|types|] == types;
  }

  lemma MembersAreDistinct(a: Type, x: Type, y: Type, xy: Type)
    requires a.Leaf? && x.Leaf? && y.Leaf? && a != x && a != y && x != y && xy == Paren(Union([x, y]))
    ensures Distinct([a, x, y]) && Distinct([x, y]) && Distinct([xy, a]) && Distinct([a, xy])
  {
    hide Distinct, Count, Keys;
    TwoAreDistinct(x, y);
    TwoAreDistinct(a, xy);
    PrintedOfTwo(x, y);
    TwoAreDistinct(a, x);
    KeysOfTwo(a, x);
    assert [a, x] + [y] == [a, x, y];
    OneMoreDistinct([a, x], y);
    TwoAreDistinct(xy, a);
  }

  lemma TextsOfThree(a: Type, x: Type, y: Type)
    ensures Printed(Paren(Union([a, x, y]))) == Paren(Union([Printed(a), Printed(x), Printed(y)]))
  {
    assert Printed(Union([a, x, y])).members == [Printed(a), Printed(x), Printed(y)];
  }

  lemma TextsOfTwo(x: Type, y: Type)
    ensures Printed(Paren(Union([x, y]))) == Paren(Union([Printed(x), Printed(y)]))
  {
    assert Printed(Union([x, y])).members == [Printed(x), Printed(y)];
  }

  lemma RepeatedCollides(a: Type, x: Type, y: Type, b: Type, c: Type, xy: Type)
    requires a.Leaf? && x.Leaf? && y.Leaf? && a != x && a != y && x != y && xy == Paren(Union([x, y]))
    requires b == Paren(Union([a, x, y])) && c == Paren(Union([xy, a]))
    ensures HoistedOf([b, c]) != [] && Collides([b, c], xy)
  {
    hide HoistedOf, Deduped, Keys, Without;
    PrintedOfTwo(x, y);
    TextsOfThree(a, x, y);
    TextsOfTwo(xy, a);
    assert |Printed(b).inner.members| == 3 && |Printed(c).inner.members| == 2 && Printed(c).inner.members[0] == xy;
    assert Printed(a) == a && Printed(x) == x && Printed(y) == y;
    hide Printed;
    SharedRest(b, c, a, x, y, xy);
    assert b in [b, c] && c in [b, c];
    assert IsShrunk(b, Keys(HoistedOf([b, c])), xy) && IsSingle(c, Keys(HoistedOf([b, c])), xy);
  }

  // Unions that stay as they are

  lemma {:induction false} DedupedDistinct(types: seq<Type>)
    requires Distinct(types)
    ensures Deduped(types) == types
  {
    hide Printed;
    if types != [] {
      var init, last := types[..|types| - 1], types[|types| - 1];
      assert types == init + [last];
      forall key ensures Count(init, key) <= Count(types, key) {
        CountOfBoth(init, [last], key);
      }
      DedupedDistinct(init);
      CountOfBoth(init, [last], Printed(last));
      CountOfOne(last, Printed(last));
      CountIsZero(init, Printed(last));
    }
  }

  /** A union with distinct members, all but one of them leaves, stays as it is. */
  lemma Unchanged(members: seq<Type>)
    requires Distinct(members) && |Branches(members)| < 2
    requires forall i :: 0 <= i < |members| ==> Simplified(members[i]) == members[i]
    ensures Simplified(Paren(Union(members))) == Paren(Union(members))
  {
    hide Distinct, Branches, Printed, Deduped, Count;
    DedupedDistinct(members);
    assert seq(|members|, i requires 0 <= i < |members| => Simplified(members[i])) == members;
    assert HoistedOf(members) == [];
  }

  lemma LeavesStay(members: seq<Type>)
    requires Distinct(members) && forall i :: 0 <= i < |members| ==> members[i].Leaf?
    ensures Simplified(Paren(Union(members))) == Paren(Union(members))
  {
    hide Distinct, Branches, Printed;
    assert Branches(members) == [] by { NoBranches(members); }
    Unchanged(members);
  }

  lemma {:induction false} NoBranches(members: seq<Type>)
    requires forall i :: 0 <= i < |members| ==> members[i].Leaf?
    ensures Branches(members) == []
  {
    if members != [] {
      NoBranches(members[..|members| - 1]);
    }
  }

  lemma OneBranchStays(xy: Type, a: Type, first: bool)
    requires IsBranch(xy) && Simplified(xy) == xy && a.Leaf? && Distinct([xy, a]) && Distinct([a, xy])
    ensures var members := if first then [xy, a] else [a, xy];
            Simplified(Paren(Union(members))) == Paren(Union(members))
  {
    hide Distinct, Printed, Simplified;
    var members := if first then [xy, a] else [a, xy];
    assert members[..1][..0] == [];
    assert Branches(members[..1][..0]) == [];
    assert |Branches(members[..1])| <= 1 && |Branches(members)| == 1;
    assert Simplified(a) == a by { LeafStays(a); }
    Unchanged(members);
  }

  lemma LeafStays(a: Type)
    requires a.Leaf?
    ensures Simplified(a) == a
  {}

  lemma UnionOfTwo(b: Type, c: Type)
    requires Simplified(b) == b && Simplified(c) == c
    ensures Simplified(Union([b, c])) == Union(SimplifiedMembers([b, c]))
  {
    hide SimplifiedMembers;
    assert seq(2, i requires 0 <= i < 2 => Simplified([b, c][i])) == [b, c];
  }

  // Members left twice

  /** (a | x | y) | ((x | y) | a) becomes (x | y) | (x | y) | a. */
  lemma RepeatedMember(a: Type, x: Type, y: Type)
    requires a.Leaf? && x.Leaf? && y.Leaf? && a != x && a != y && x != y
    ensures
      var xy := Paren(Union([x, y]));
      var t := Simplified(Union([Paren(Union([a, x, y])), Paren(Union([xy, a]))]));
      t.Union? && Count(t.members, xy) >= 2
  {
    hide SimplifiedMembers, Count, Collides, Distinct, Simplified;
    var xy := Paren(Union([x, y]));
    var b, c := Paren(Union([a, x, y])), Paren(Union([xy, a]));
    MembersAreDistinct(a, x, y, xy);
    LeavesStay([a, x, y]);
    LeavesStay([x, y]);
    OneBranchStays(xy, a, true);
    UnionOfTwo(b, c);
    RepeatedCollides(a, x, y, b, c, xy);
    CollisionRepeats([b, c], xy);
  }

  /** (a | (p | q)) | (a | p | z) becomes (p | q) | (p | z) | a, with p in two branches. */
  lemma UnwrappedUnion(a: Type, p: Type, q: Type, z: Type)
    requires a.Leaf? && p.Leaf? && q.Leaf? && z.Leaf? && a != p && a != q && a != z && p != q && p != z
    ensures
      var t := Simplified(Union([Paren(Union([a, Paren(Union([p, q]))])), Paren(Union([a, p, z]))]));
      t.Union? && Count(Flattened(t.members), p) >= 2
  {
    hide SimplifiedMembers, Count, Distinct, Simplified, Flattened, Left;
    var pq := Paren(Union([p, q]));
    var b, c := Paren(Union([a, pq])), Paren(Union([a, p, z]));
    MembersAreDistinct(a, p, z, Paren(Union([p, z])));
    MembersAreDistinct(a, p, q, pq);
    LeavesStay([a, p, z]);
    LeavesStay([p, q]);
    OneBranchStays(pq, a, false);
    UnionOfTwo(b, c);
    UnwrappedLeft(a, p, q, z, b, c, pq);
    FlatOfTwo(b, c, p, q, z);
  }

  lemma UnwrappedLeft(a: Type, p: Type, q: Type, z: Type, b: Type, c: Type, pq: Type)
    requires a.Leaf? && p.Leaf? && q.Leaf? && z.Leaf? && a != p && a != z && pq == Paren(Union([p, q]))
    requires b == Paren(Union([a, pq])) && c == Paren(Union([a, p, z]))
    ensures HoistedOf([b, c]) != [] && Deduped([b, c]) == [b, c]
    ensures Left(b, Keys(HoistedOf([b, c]))) == [pq] && Left(c, Keys(HoistedOf([b, c]))) == [p, z]
  {
    hide HoistedOf, Deduped, Keys, Without;
    PrintedOfTwo(p, q);
    TextsOfTwo(a, pq);
    TextsOfThree(a, p, z);
    assert |Printed(b).inner.members| == 2 && |Printed(c).inner.members| == 3 && Printed(b).inner.members[1] == pq;
    assert Printed(a) == a && Printed(p) == p && Printed(z) == z;
    hide Printed;
    SharedFirst(b, c, a, pq, p, z);
  }

  /** Two branches sharing their first member. */
  lemma SharedFirst(b: Type, c: Type, a: Type, pq: Type, p: Type, z: Type)
    requires IsBranch(b) && IsBranch(c) && Members(b) == [a, pq] && Members(c) == [a, p, z]
    requires Printed(b) != Printed(c)
    requires {Printed(b), Printed(c)} !! {Printed(a), Printed(p), Printed(z), Printed(pq)}
    requires Printed(a) !in {Printed(p), Printed(z), Printed(pq)} && Printed(pq) !in {Printed(p), Printed(z)}
    ensures HoistedOf([b, c]) != [] && Deduped([b, c]) == [b, c]
    ensures Left(b, Keys(HoistedOf([b, c]))) == [pq] && Left(c, Keys(HoistedOf([b, c]))) == [p, z]
  {
    hide *;
    TwoBranches(b, c);
    KeysOfTwo(a, pq);
    KeysOfThree(a, p, z);
    FirstIsHoisted(b, c, a, pq, p, z);
    WithoutFirst(a, p, z, Keys(HoistedOf([b, c])));
    WithoutHead(a, pq, Keys(HoistedOf([b, c])));
    LeftOfBranch(b, Keys(HoistedOf([b, c])));
    LeftOfBranch(c, Keys(HoistedOf([b, c])));
    NoKeys();
  }

  lemma FirstIsHoisted(b: Type, c: Type, a: Type, pq: Type, p: Type, z: Type)
    requires IsBranch(b) && IsBranch(c) && Printed(b) != Printed(c)
    requires Keys(Members(b)) == {Printed(a), Printed(pq)} && Keys(Members(c)) == {Printed(a), Printed(p), Printed(z)}
    requires {Printed(b), Printed(c)} !! {Printed(a), Printed(p), Printed(z), Printed(pq)}
    requires Printed(a) !in {Printed(p), Printed(z), Printed(pq)} && Printed(pq) !in {Printed(p), Printed(z)}
    ensures var keys := Keys(HoistedOf([b, c]));
            Printed(a) in keys && Printed(p) !in keys && Printed(z) !in keys && Printed(pq) !in keys
  {
    hide *;
    HoistedOfTwo(b, c, Printed(a));
    HoistedOfTwo(b, c, Printed(p));
    HoistedOfTwo(b, c, Printed(z));
    HoistedOfTwo(b, c, Printed(pq));
  }

  lemma WithoutHead(a: Type, x: Type, keys: set<Type>)
    requires Printed(a) in keys && Printed(x) !in keys
    ensures Without([a, x], keys) == [x]
  {
    hide Printed;
    WithoutOneMore([], a, keys);
    WithoutOneMore([a], x, keys);
    assert [] + [a] == [a] && [a] + [x] == [a, x] && [] + [x] == [x];
  }

  lemma FlatOfTwo(b: Type, c: Type, p: Type, q: Type, z: Type)
    requires IsBranch(b) && IsBranch(c) && HoistedOf([b, c]) != [] && Deduped([b, c]) == [b, c]
    requires Left(b, Keys(HoistedOf([b, c]))) == [Paren(Union([p, q]))] && Left(c, Keys(HoistedOf([b, c]))) == [p, z]
    ensures Count(Flattened(SimplifiedMembers([b, c])), Printed(p)) >= 2
  {
    hide HoistedOf, Deduped, Keys, Without, Printed, Flattened, Count;
    var keys, key := Keys(HoistedOf([b, c])), Printed(p);
    var appended := Without(HoistedOf([b, c]), Keys([b, c]));
    var first, second := Rebuilt(b, keys), Rebuilt(c, keys);
    assert first == [Paren(Union([p, q]))] && second == [Paren(Union([p, z]))];
    assert [b, c][..1] == [b] && [b][..0] == [];
    assert RebuiltAll([b], keys) == first && RebuiltAll([b, c], keys) == first + second;
    FlattenedOfBoth(first + second, appended, key);
    FlattenedOfBoth(first, second, key);
    FlattenedOne(first[0]);
    FlattenedOne(second[0]);
    CountOfBoth([p], [q], key);
    CountOfBoth([p], [z], key);
    CountOfOne(p, key);
    assert [p] + [q] == [p, q] && [p] + [z] == [p, z];
  }

  lemma FlattenedOfBoth(a: seq<Type>, b: seq<Type>, key: Type)
    ensures Count(Flattened(a + b), key) == Count(Flattened(a), key) + Count(Flattened(b), key)
  {
    hide LeftOfAll, Count;
    LeftOfBoth(a, b, {});
    CountOfBoth(Flattened(a), Flattened(b), key);
  }
}

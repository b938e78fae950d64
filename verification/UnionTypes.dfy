/** Type trees of the generated types and what they denote. packages/client/generators/generate-types.ts */
module UnionTypes {
  datatype Type =
    | Leaf(text: string)
    | Other(kind: string, parts: seq<Type>)
    | Paren(inner: Type)
    | Union(members: seq<Type>)

  datatype Alternative = Atom(text: string) | Compound(kind: string, parts: seq<set<Alternative>>)

  /** The alternatives a type stands for. */
  ghost function Den(t: Type): set<Alternative> {
    match t
    case Leaf(text) => {Atom(text)}
    case Other(kind, parts) => {Compound(kind, seq(|parts|, i requires 0 <= i < |parts| => Den(parts[i])))}
    case Paren(inner) => Den(inner)
    case Union(members) => set i, a | 0 <= i < |members| && a in Den(members[i]) :: a
  }

  /** What the text of a type shows of it: a union of one member is printed as that member. Types with
      the same text are the ones with the same printed tree. */
  function Printed(t: Type): Type {
    match t
    case Leaf(_) => t
    case Other(kind, parts) => Other(kind, seq(|parts|, i requires 0 <= i < |parts| => Printed(parts[i])))
    case Paren(inner) => Paren(Printed(inner))
    case Union(members) =>
      if |members| == 1 then Printed(members[0])
      else Union(seq(|members|, i requires 0 <= i < |members| => Printed(members[i])))
  }

  /** No union of one member is left. */
  ghost predicate NoneOfOne(t: Type) {
    match t
    case Leaf(_) => true
    case Other(_, parts) => forall i :: 0 <= i < |parts| ==> NoneOfOne(parts[i])
    case Paren(inner) => NoneOfOne(inner)
    case Union(members) => |members| != 1 && forall i :: 0 <= i < |members| ==> NoneOfOne(members[i])
  }

  /** A printed tree holds no union of one member, and a type without any is its own printed tree. */
  lemma {:induction false} PrintedExactly(t: Type)
    ensures NoneOfOne(Printed(t)) && (NoneOfOne(t) ==> Printed(t) == t)
  {
    match t
    case Leaf(_) =>
    case Other(_, parts) =>
      forall i | 0 <= i < |parts|
        ensures NoneOfOne(Printed(parts[i])) && (NoneOfOne(parts[i]) ==> Printed(parts[i]) == parts[i])
      {
        PrintedExactly(parts[i]);
      }
      assert NoneOfOne(t) ==> Printed(t).parts == parts;
    case Paren(inner) =>
      PrintedExactly(inner);
    case Union(members) =>
      forall i | 0 <= i < |members|
        ensures NoneOfOne(Printed(members[i])) && (NoneOfOne(members[i]) ==> Printed(members[i]) == members[i])
      {
        PrintedExactly(members[i]);
      }
      assert NoneOfOne(t) ==> Printed(t).members == members;
  }

  /** A union stands for what its members do, and different texts stand for different alternatives. */
  lemma Alternatives(a: string, b: string, members: seq<Type>)
    ensures Den(Leaf(a)) == Den(Leaf(b)) <==> a == b
    ensures forall x :: x in Den(Union(members)) <==> exists i :: 0 <= i < |members| && x in Den(members[i])
    ensures Den(Leaf(a)) != {}
  {
    assert Den(Leaf(a)) == {Atom(a)} && Den(Leaf(b)) == {Atom(b)};
    assert Atom(a) in {Atom(b)} <==> a == b;
  }

  lemma {:induction false} PrintedDecides(t: Type)
    ensures Den(Printed(t)) == Den(t)
  {
    match t
    case Leaf(_) =>
    case Other(_, parts) =>
      var printed := Printed(t).parts;
      forall i | 0 <= i < |parts| ensures Den(printed[i]) == Den(parts[i]) {
        PrintedDecides(parts[i]);
      }
      assert seq(|parts|, i requires 0 <= i < |parts| => Den(parts[i])) ==
             seq(|printed|, i requires 0 <= i < |printed| => Den(printed[i]));
    case Paren(inner) =>
      PrintedDecides(inner);
    case Union(members) =>
      forall i | 0 <= i < |members| ensures Den(Printed(members[i])) == Den(members[i]) {
        PrintedDecides(members[i]);
      }
      if |members| == 1 {
        UnionOfOne(members);
      } else {
        SameUnion(members, Printed(t).members);
      }
  }

  lemma UnionOfOne(members: seq<Type>)
    requires |members| == 1
    ensures Den(Union(members)) == Den(members[0])
  {}

  lemma SameUnion(a: seq<Type>, b: seq<Type>)
    requires |a| == |b| && forall i :: 0 <= i < |a| ==> Den(a[i]) == Den(b[i])
    ensures Den(Union(a)) == Den(Union(b))
  {
    forall x ensures x in Den(Union(a)) <==> x in Den(Union(b)) {
      if x in Den(Union(a)) {
        var i :| 0 <= i < |a| && x in Den(a[i]);
        assert x in Den(b[i]);
      }
      if x in Den(Union(b)) {
        var i :| 0 <= i < |b| && x in Den(b[i]);
        assert x in Den(a[i]);
      }
    }
  }

  function Size(t: Type): nat {
    match t
    case Leaf(_) => 1
    case Other(_, parts) => 1 + SumOf(parts)
    case Paren(inner) => 1 + Size(inner)
    case Union(members) => 1 + SumOf(members)
  }

  function SumOf(types: seq<Type>): nat {
    if types == [] then 0 else Size(types[0]) + SumOf(types[1..])
  }

  lemma {:induction false} PartIsSmaller(types: seq<Type>, i: nat)
    requires i < |types|
    ensures Size(types[i]) <= SumOf(types)
  {
    if i > 0 {
      PartIsSmaller(types[1..], i - 1);
    }
  }
}

/** Version comparison and version ranges. packages/common/utils/string-util.ts */
module Versions {
  import opened Options

  /** A dot-separated part of a version, as a number or as none. */
  datatype Part = Number(value: nat) | NotANumber

  type Version = seq<Part>

  function PartAt(v: Version, i: nat): Part {
    if i < |v| then v[i] else Number(0)
  }

  function Difference(a: Part, b: Part): Option<int> {
    if a.Number? && b.Number? then Some(a.value - b.value) else None
  }

  /** The first difference from i on, None when it is not a number. */
  function ComparedFrom(first: Version, second: Version, i: nat): Option<int>
    decreases |first| + |second| - i
  {
    if i >= |first| && i >= |second| then Some(0)
    else
      var diff := Difference(PartAt(first, i), PartAt(second, i));
      if diff != Some(0) then diff else ComparedFrom(first, second, i + 1)
  }

  function Compared(first: Version, second: Version): Option<int> {
    ComparedFrom(first, second, 0)
  }

  method CompareVersions(first: Version, second: Version) returns (r: Option<int>)
    ensures r == Compared(first, second)
  {
    for i := 0 to if |first| > |second| then |first| else |second|
      invariant Compared(first, second) == ComparedFrom(first, second, i)
    {
      var diff := Difference(PartAt(first, i), PartAt(second, i));
      if diff != Some(0) {
        return diff;
      }
    }
    r := Some(0);
  }

  // The order of the numeric versions

  predicate Numeric(v: Version) {
    forall i :: 0 <= i < |v| ==> v[i].Number?
  }

  function Value(v: Version, i: nat): nat
    requires Numeric(v)
  {
    if i < |v| then v[i].value else 0
  }

  ghost predicate AgreeBelow(a: Version, b: Version, n: nat)
    requires Numeric(a) && Numeric(b)
  {
    forall i: nat :: i < n ==> Value(a, i) == Value(b, i)
  }

  /** The parts before i agree, and there the first version is lower. */
  ghost predicate LowerAt(a: Version, b: Version, i: nat)
    requires Numeric(a) && Numeric(b)
  {
    AgreeBelow(a, b, i) && Value(a, i) < Value(b, i)
  }

  ghost predicate Lower(a: Version, b: Version)
    requires Numeric(a) && Numeric(b)
  {
    exists i: nat :: LowerAt(a, b, i)
  }

  /** The same version but for zeros at the end. */
  ghost predicate Same(a: Version, b: Version)
    requires Numeric(a) && Numeric(b)
  {
    forall i: nat :: Value(a, i) == Value(b, i)
  }

  lemma {:induction false} ComparedFromMeans(a: Version, b: Version, i: nat)
    requires Numeric(a) && Numeric(b) && AgreeBelow(a, b, i)
    ensures
      var r := ComparedFrom(a, b, i);
      r.Some? && (r.value < 0 <==> Lower(a, b)) && (r.value > 0 <==> Lower(b, a)) && (r.value == 0 <==> Same(a, b))
    decreases |a| + |b| - i
  {
    if i >= |a| && i >= |b| {
      assert Same(a, b);
    } else if Value(a, i) == Value(b, i) {
      ComparedFromMeans(a, b, i + 1);
    } else if Value(a, i) < Value(b, i) {
      assert LowerAt(a, b, i);
      NotBothLower(a, b);
    } else {
      assert LowerAt(b, a, i);
      NotBothLower(a, b);
    }
  }

  lemma NotBothLower(a: Version, b: Version)
    requires Numeric(a) && Numeric(b)
    ensures !(Lower(a, b) && Lower(b, a)) && !(Lower(a, b) && Same(a, b)) && !(Lower(b, a) && Same(a, b))
  {
    forall i: nat, j: nat | LowerAt(a, b, i) ensures !LowerAt(b, a, j) {
      assert j < i ==> Value(a, j) == Value(b, j);
    }
  }

  /** Versions compare part by part from the left, and as equal exactly up to zeros at the end. */
  lemma ComparesLexicographically(a: Version, b: Version)
    requires Numeric(a) && Numeric(b)
    ensures
      var r := Compared(a, b);
      r.Some? && (r.value < 0 <==> Lower(a, b)) && (r.value > 0 <==> Lower(b, a)) && (r.value == 0 <==> Same(a, b))
  {
    ComparedFromMeans(a, b, 0);
  }

  predicate AtMost(a: Version, b: Version) {
    var r := Compared(a, b);
    r.Some? && r.value <= 0
  }

  /** The comparison is a total preorder. */
  lemma TotalPreorder(a: Version, b: Version, c: Version)
    requires Numeric(a) && Numeric(b) && Numeric(c)
    ensures AtMost(a, a)
    ensures AtMost(a, b) || AtMost(b, a)
    ensures AtMost(a, b) && AtMost(b, c) ==> AtMost(a, c)
    ensures AtMost(a, b) && AtMost(b, a) <==> Same(a, b)
  {
    hide Compared, Same, Lower;
    ComparesLexicographically(a, a);
    ComparesLexicographically(a, b);
    ComparesLexicographically(b, a);
    ComparesLexicographically(b, c);
    ComparesLexicographically(a, c);
    NotBothLower(a, a);
    NotBothLower(a, c);
    SameIsSymmetric(a, b);
    if AtMost(a, b) && AtMost(b, c) {
      LowerOrSame(a, b, c);
    }
  }

  lemma SameIsSymmetric(a: Version, b: Version)
    requires Numeric(a) && Numeric(b)
    ensures Same(a, b) <==> Same(b, a)
  {}

  lemma LowerOrSame(a: Version, b: Version, c: Version)
    requires Numeric(a) && Numeric(b) && Numeric(c)
    requires (Lower(a, b) || Same(a, b)) && (Lower(b, c) || Same(b, c))
    ensures Lower(a, c) || Same(a, c)
  {
    if Lower(a, b) {
      var i: nat :| LowerAt(a, b, i);
      if Lower(b, c) {
        var j: nat :| LowerAt(b, c, j);
        assert LowerAt(a, c, if i < j then i else j);
      } else {
        assert LowerAt(a, c, i);
      }
    } else if Lower(b, c) {
      var j: nat :| LowerAt(b, c, j);
      assert LowerAt(a, c, j);
    }
  }
}

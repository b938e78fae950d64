/** The ranges a version may satisfy. packages/common/utils/string-util.ts */
module VersionRanges {
  import opened Options
  import opened Versions

  /** A part of a bound: x, X or *, or a part to compare with. */
  datatype BoundPart = Wild | Given(part: Part)

  datatype Operator = AtLeast | Above | UpTo | Below | Caret | Tilde | Plain

  /** Any is the bound that is `*`, `x` or empty as a whole. */
  datatype Bound = Any | Parts(parts: seq<BoundPart>)

  datatype Comparator = Comparator(operator: Operator, bound: Bound)

  function GivenParts(parts: seq<BoundPart>): Version {
    if parts == [] then []
    else (if parts[0].Given? then [parts[0].part] else []) + GivenParts(parts[1..])
  }

  /** Without any part the text of a bound is empty, which reads as the number zero. */
  function Reread(parts: Version): Version {
    if parts == [] then [Number(0)] else parts
  }

  function Raised(part: Part): Part {
    if part.Number? then Number(part.value + 1) else NotANumber
  }

  function NextVersion(parts: Version, index: int): Version {
    Reread(if index < 0 then []
           else seq(if index + 1 < |parts| then index + 1 else |parts|, i requires 0 <= i < |parts| =>
                    if i == index then Raised(parts[i]) else parts[i]))
  }

  function FirstNonZero(parts: Version): (i: int)
    ensures -1 <= i < |parts|
    ensures i >= 0 ==> parts[i] != Number(0) && forall j :: 0 <= j < i ==> parts[j] == Number(0)
    ensures i == -1 ==> forall j :: 0 <= j < |parts| ==> parts[j] == Number(0)
  {
    if parts == [] then -1
    else if parts[0] != Number(0) then 0
    else
      var i := FirstNonZero(parts[1..]);
      assert forall j :: 1 <= j < |parts| ==> parts[j] == parts[1..][j - 1];
      if i == -1 then -1 else i + 1
  }

  predicate IsAtLeast(version: Version, bound: Version) {
    var r := Compared(version, bound);
    r.Some? && r.value >= 0
  }

  predicate IsBelow(version: Version, bound: Version) {
    var r := Compared(version, bound);
    r.Some? && r.value < 0
  }

  /** The index of the last part that a version has to share with the bound. */
  function Kept(operator: Operator, parts: Version): int {
    match operator
    case Caret => if FirstNonZero(parts) == -1 then |parts| - 1 else FirstNonZero(parts)
    case Tilde => if |parts| > 1 then 1 else 0
    case _ => |parts| - 1
  }

  predicate SatisfiesComparator(version: Version, comparator: Comparator) {
    if comparator.bound.Any? then true
    else
      var parts := GivenParts(comparator.bound.parts);
      var lower := Reread(parts);
      var compared := Compared(version, lower);
      match comparator.operator
      case AtLeast => compared.Some? && compared.value >= 0
      case Above => compared.Some? && compared.value > 0
      case UpTo => compared.Some? && compared.value <= 0
      case Below => compared.Some? && compared.value < 0
      case Caret => IsAtLeast(version, lower) && IsBelow(version, NextVersion(parts, Kept(Caret, parts)))
      case Tilde => IsAtLeast(version, lower) && IsBelow(version, NextVersion(parts, Kept(Tilde, parts)))
      case Plain =>
        if |parts| < 3 then IsAtLeast(version, lower) && IsBelow(version, NextVersion(parts, Kept(Plain, parts)))
        else compared == Some(0)
  }

  predicate SatisfiesAlternative(release: Version, alternative: seq<Comparator>) {
    forall comparator :: comparator in alternative ==> SatisfiesComparator(release, comparator)
  }

  predicate SatisfiesVersion(release: Version, range: seq<seq<Comparator>>) {
    exists alternative :: alternative in range && SatisfiesAlternative(release, alternative)
  }

  // What the ranges mean

  /** The bound up to an index, raised there, is the least version above all those sharing these parts. */
  lemma BelowNextMeans(v: Version, parts: Version, kept: nat)
    requires Numeric(v) && Numeric(parts) && kept < |parts|
    requires Numeric(NextVersion(parts, kept))
    requires !Lower(v, parts)
    ensures Lower(v, NextVersion(parts, kept)) <==> AgreeBelow(v, parts, kept + 1)
  {
    var next := NextVersion(parts, kept);
    assert AgreeBelow(parts, next, kept) && Value(next, kept) == Value(parts, kept) + 1;
    if AgreeBelow(v, parts, kept + 1) {
      assert LowerAt(v, next, kept);
    }
    if i: nat :| LowerAt(v, next, i) {
      assert i <= kept;
      assert Value(v, i) < Value(parts, i) ==> LowerAt(v, parts, i);
    }
  }

  lemma {:induction false} GivenFacts(parts: seq<BoundPart>)
    ensures GivenParts(parts) != [] <==> exists i :: 0 <= i < |parts| && parts[i].Given?
  {
    if parts != [] {
      GivenFacts(parts[1..]);
      if i :| 0 <= i < |parts| && parts[i].Given? {
        assert i > 0 ==> parts[1..][i - 1] == parts[i];
      }
      if i :| 0 <= i < |parts[1..]| && parts[1..][i].Given? {
        assert parts[i + 1].Given?;
      }
    }
  }

  lemma NextIsNumeric(parts: Version, kept: int)
    requires Numeric(parts)
    ensures Numeric(NextVersion(parts, kept))
  {}

  predicate IsRange(operator: Operator, parts: Version) {
    operator.Caret? || operator.Tilde? || (operator.Plain? && |parts| < 3)
  }

  lemma KeptIsInRange(operator: Operator, parts: Version)
    requires IsRange(operator, parts) && parts != []
    ensures 0 <= Kept(operator, parts) < |parts|
  {}

  /** A caret, tilde or partial range accepts exactly the versions that are at least the bound and share
      its parts up to the kept one. */
  lemma RangeMeans(version: Version, operator: Operator, bound: seq<BoundPart>)
    requires Numeric(version) && Numeric(GivenParts(bound)) && GivenParts(bound) != []
    requires IsRange(operator, GivenParts(bound))
    ensures
      var parts := GivenParts(bound);
      SatisfiesComparator(version, Comparator(operator, Parts(bound))) <==>
      !Lower(version, parts) && AgreeBelow(version, parts, Kept(operator, parts) + 1)
  {
    hide Compared, Lower, AgreeBelow, Kept, NextVersion;
    var parts := GivenParts(bound);
    KeptIsInRange(operator, parts);
    NextIsNumeric(parts, Kept(operator, parts));
    ComparesLexicographically(version, parts);
    ComparesLexicographically(version, NextVersion(parts, Kept(operator, parts)));
    if !Lower(version, parts) {
      BelowNextMeans(version, parts, Kept(operator, parts));
    }
  }

  /** A tilde keeps the first two parts, or the only one, a partial version all of its parts, and a caret all
      up to the first that is not zero. */
  lemma OperatorsMean(version: Version, operator: Operator, bound: seq<BoundPart>)
    requires Numeric(version) && Numeric(GivenParts(bound)) && GivenParts(bound) != []
    ensures
      var parts := GivenParts(bound);
      var accepted := SatisfiesComparator(version, Comparator(operator, Parts(bound)));
      && (operator == Tilde && |parts| == 1 ==> (accepted <==> !Lower(version, parts) && AgreeBelow(version, parts, 1)))
      && (operator == Tilde && |parts| > 1 ==> (accepted <==> !Lower(version, parts) && AgreeBelow(version, parts, 2)))
      && (operator == Plain && |parts| < 3 ==>
            (accepted <==> !Lower(version, parts) && AgreeBelow(version, parts, |parts|)))
      && (operator == Caret ==>
            (accepted <==> (!Lower(version, parts) && AgreesUpToNonZero(version, parts))))
  {
    hide SatisfiesComparator, Lower, NextVersion;
    var parts := GivenParts(bound);
    if IsRange(operator, parts) {
      RangeMeans(version, operator, bound);
    }
    if operator == Caret {
      CaretAgrees(version, parts);
    }
  }

  ghost predicate ZerosBelow(parts: Version, i: nat)
    requires Numeric(parts)
  {
    forall j: nat :: j < i ==> Value(parts, j) == 0
  }

  ghost predicate AgreesUpToNonZero(version: Version, parts: Version)
    requires Numeric(version) && Numeric(parts)
  {
    forall i: nat :: i < |parts| && ZerosBelow(parts, i) ==> Value(version, i) == Value(parts, i)
  }

  lemma CaretAgrees(version: Version, parts: Version)
    requires Numeric(version) && Numeric(parts) && parts != []
    ensures AgreeBelow(version, parts, Kept(Caret, parts) + 1) <==> AgreesUpToNonZero(version, parts)
  {
    var kept := Kept(Caret, parts);
    KeptIsInRange(Caret, parts);
    CaretKeeps(parts);
    forall i: nat | i < |parts| ensures ZerosBelow(parts, i) <==> i <= kept {
      assert kept < i ==> Value(parts, kept) != 0;
    }
  }

  /** The comparisons, and the bound of three or more parts, mean what they say. */
  lemma ComparisonMeans(version: Version, operator: Operator, bound: seq<BoundPart>)
    requires Numeric(version) && Numeric(GivenParts(bound)) && GivenParts(bound) != []
    requires !IsRange(operator, GivenParts(bound))
    ensures
      var parts := GivenParts(bound);
      SatisfiesComparator(version, Comparator(operator, Parts(bound))) <==>
      match operator
      case AtLeast => !Lower(version, parts)
      case Above => Lower(parts, version)
      case UpTo => !Lower(parts, version)
      case Below => Lower(version, parts)
      case _ => Same(version, parts)
  {
    hide Compared, Lower;
    var parts := GivenParts(bound);
    ComparesLexicographically(version, parts);
    NotBothLower(version, parts);
  }

  /** A caret range keeps everything up to the first part that is not zero. */
  lemma CaretKeeps(parts: Version)
    requires Numeric(parts) && parts != []
    ensures
      var kept := Kept(Caret, parts);
      (forall i: nat :: i < kept ==> Value(parts, i) == 0) && (Value(parts, kept) == 0 ==> kept == |parts| - 1)
  {
    var i := FirstNonZero(parts);
    assert i >= 0 ==> parts[i].value != 0;
  }

  ghost predicate AcceptsSome(comparator: Comparator) {
    exists v: Version :: Numeric(v) && SatisfiesComparator(v, comparator)
  }

  lemma AcceptsItsBound(operator: Operator, bound: seq<BoundPart>)
    requires Numeric(GivenParts(bound)) && GivenParts(bound) != [] && IsRange(operator, GivenParts(bound))
    ensures SatisfiesComparator(GivenParts(bound), Comparator(operator, Parts(bound)))
  {
    hide *;
    var parts := GivenParts(bound);
    KeptIsInRange(operator, parts);
    RangeMeans(parts, operator, bound);
    NotLowerThanItself(parts, Kept(operator, parts) + 1);
  }

  /** A range whose bound has a part accepts some version, as that bound. One whose bound has wildcards
      only, as `x.x`, `^X` or `~*.*`, accepts none. */
  lemma AcceptsExactly(operator: Operator, bound: seq<BoundPart>)
    requires Numeric(GivenParts(bound)) && IsRange(operator, GivenParts(bound))
    ensures AcceptsSome(Comparator(operator, Parts(bound))) <==> exists i :: 0 <= i < |bound| && bound[i].Given?
  {
    hide SatisfiesComparator, GivenParts, Numeric, IsRange;
    var parts := GivenParts(bound);
    GivenFacts(bound);
    if parts == [] {
      forall v: Version | Numeric(v) ensures !SatisfiesComparator(v, Comparator(operator, Parts(bound))) {
        WildcardsReject(v, operator, bound);
      }
    } else {
      AcceptsItsBound(operator, bound);
    }
  }

  lemma NotLowerThanItself(v: Version, n: nat)
    requires Numeric(v)
    ensures !Lower(v, v) && AgreeBelow(v, v, n)
  {}

  lemma WildcardsReject(version: Version, operator: Operator, bound: seq<BoundPart>)
    requires Numeric(version) && GivenParts(bound) == [] && IsRange(operator, [])
    ensures !SatisfiesComparator(version, Comparator(operator, Parts(bound)))
  {
    hide Compared;
    var zero := [Number(0)];
    assert NextVersion([], Kept(operator, [])) == zero;
    ComparesLexicographically(version, zero);
  }

  // Whole ranges

  ghost predicate NumericBound(comparator: Comparator) {
    comparator.bound.Parts? ==> Numeric(GivenParts(comparator.bound.parts))
  }

  ghost predicate NumericAlternative(alternative: seq<Comparator>) {
    forall comparator :: comparator in alternative ==> NumericBound(comparator)
  }

  ghost predicate NumericRange(range: seq<seq<Comparator>>) {
    forall alternative :: alternative in range ==> NumericAlternative(alternative)
  }

  /** What a comparator says of a version, in the order of the versions. */
  ghost predicate Meets(version: Version, comparator: Comparator)
    requires Numeric(version) && NumericBound(comparator)
  {
    if comparator.bound.Any? then true
    else
      var parts := GivenParts(comparator.bound.parts);
      var low := Reread(parts);
      match comparator.operator
      case AtLeast => !Lower(version, low)
      case Above => Lower(low, version)
      case UpTo => !Lower(low, version)
      case Below => Lower(version, low)
      case _ =>
        if IsRange(comparator.operator, parts) then
          parts != [] && !Lower(version, parts) && AgreeBelow(version, parts, Kept(comparator.operator, parts) + 1)
        else Same(version, parts)
  }

  lemma ComparatorMeans(version: Version, comparator: Comparator)
    requires Numeric(version) && NumericBound(comparator)
    ensures SatisfiesComparator(version, comparator) <==> Meets(version, comparator)
  {
    hide Compared, Lower, AgreeBelow, Same, Kept, NextVersion, GivenParts;
    if comparator.bound.Parts? {
      var parts := GivenParts(comparator.bound.parts);
      assert comparator == Comparator(comparator.operator, Parts(comparator.bound.parts));
      if parts == [] {
        ComparesLexicographically(version, [Number(0)]);
        NotBothLower(version, [Number(0)]);
        if IsRange(comparator.operator, []) {
          WildcardsReject(version, comparator.operator, comparator.bound.parts);
        }
      } else if IsRange(comparator.operator, parts) {
        RangeMeans(version, comparator.operator, comparator.bound.parts);
      } else {
        ComparisonMeans(version, comparator.operator, comparator.bound.parts);
      }
    }
  }

  ghost predicate MeetsAll(version: Version, alternative: seq<Comparator>)
    requires Numeric(version) && NumericAlternative(alternative)
  {
    forall comparator :: comparator in alternative ==> Meets(version, comparator)
  }

  lemma AlternativeMeans(version: Version, alternative: seq<Comparator>)
    requires Numeric(version) && NumericAlternative(alternative)
    ensures SatisfiesAlternative(version, alternative) <==> MeetsAll(version, alternative)
  {
    hide SatisfiesComparator, Meets, NumericBound;
    forall comparator | comparator in alternative
      ensures SatisfiesComparator(version, comparator) <==> Meets(version, comparator)
    {
      ComparatorMeans(version, comparator);
    }
  }

  /** A range accepts the versions that meet every comparator of one of its alternatives. */
  lemma SatisfiesExactly(version: Version, range: seq<seq<Comparator>>)
    requires Numeric(version) && NumericRange(range)
    ensures SatisfiesVersion(version, range) <==>
            exists alternative :: alternative in range && MeetsAll(version, alternative)
  {
    hide SatisfiesAlternative, MeetsAll, NumericAlternative;
    forall alternative | alternative in range
      ensures SatisfiesAlternative(version, alternative) <==> MeetsAll(version, alternative)
    {
      AlternativeMeans(version, alternative);
    }
  }

  lemma Between(a: Version, b: Version, c: Version, bound: Version)
    requires Numeric(a) && Numeric(b) && Numeric(c) && Numeric(bound)
    requires AtMost(a, b) && AtMost(b, c)
    ensures IsAtLeast(a, bound) ==> IsAtLeast(b, bound)
    ensures IsBelow(c, bound) ==> IsBelow(b, bound)
    ensures AtMost(c, bound) ==> AtMost(b, bound)
    ensures !AtMost(a, bound) ==> !AtMost(b, bound)
  {
    hide Compared, Lower, Same;
    ComparesLexicographically(a, bound);
    ComparesLexicographically(bound, a);
    ComparesLexicographically(b, bound);
    ComparesLexicographically(bound, b);
    ComparesLexicographically(c, bound);
    ComparesLexicographically(bound, c);
    TotalPreorder(a, b, bound);
    TotalPreorder(b, c, bound);
    TotalPreorder(bound, a, b);
    TotalPreorder(bound, b, c);
  }

  /** Between two versions that a comparator accepts it accepts every version. */
  lemma ComparatorIsConvex(a: Version, b: Version, c: Version, comparator: Comparator)
    requires Numeric(a) && Numeric(b) && Numeric(c) && NumericBound(comparator)
    requires AtMost(a, b) && AtMost(b, c)
    requires SatisfiesComparator(a, comparator) && SatisfiesComparator(c, comparator)
    ensures SatisfiesComparator(b, comparator)
  {
    hide Compared, Kept, NextVersion, GivenParts;
    if comparator.bound.Parts? {
      var parts := GivenParts(comparator.bound.parts);
      Between(a, b, c, Reread(parts));
      ComparesLexicographically(b, Reread(parts));
      if IsRange(comparator.operator, parts) {
        NextIsNumeric(parts, Kept(comparator.operator, parts));
        Between(a, b, c, NextVersion(parts, Kept(comparator.operator, parts)));
      }
    }
  }

  /** Each alternative accepts an interval of the versions. */
  lemma AlternativeIsConvex(a: Version, b: Version, c: Version, alternative: seq<Comparator>)
    requires Numeric(a) && Numeric(b) && Numeric(c) && NumericAlternative(alternative)
    requires AtMost(a, b) && AtMost(b, c)
    requires SatisfiesAlternative(a, alternative) && SatisfiesAlternative(c, alternative)
    ensures SatisfiesAlternative(b, alternative)
  {
    hide SatisfiesComparator, AtMost, NumericBound;
    forall comparator | comparator in alternative ensures SatisfiesComparator(b, comparator) {
      ComparatorIsConvex(a, b, c, comparator);
    }
  }

  /** Versions that differ in zeros at their ends satisfy the same ranges. */
  lemma SameAreAcceptedAlike(v: Version, w: Version, range: seq<seq<Comparator>>)
    requires Numeric(v) && Numeric(w) && Same(v, w) && NumericRange(range)
    ensures SatisfiesVersion(v, range) <==> SatisfiesVersion(w, range)
  {
    hide SatisfiesAlternative, AtMost, NumericAlternative, Same;
    SameIsSymmetric(v, w);
    TotalPreorder(v, w, v);
    TotalPreorder(w, v, w);
    forall alternative | alternative in range
      ensures SatisfiesAlternative(v, alternative) <==> SatisfiesAlternative(w, alternative)
    {
      if SatisfiesAlternative(v, alternative) {
        AlternativeIsConvex(v, w, v, alternative);
      }
      if SatisfiesAlternative(w, alternative) {
        AlternativeIsConvex(w, v, w, alternative);
      }
    }
  }
}

/** JSON documents, the places in them, and writing references at a set of places. */
module Schemas {
  import opened Options

  datatype Json =
    | Null
    | Boolean(flag: bool)
    | Number(value: real)
    | Str(text: string)
    | Arr(items: seq<Json>)
    | Obj(fields: map<string, Json>)

  datatype Step = Key(key: string) | Index(index: nat)
  type Place = seq<Step>

  const PREFIX := "#/components/schemas/"
  const ANNOTATION_KEYS := {"description", "example", "examples", "deprecated"}

  function Annotations(fields: map<string, Json>): map<string, Json> {
    map k | k in fields && k in ANNOTATION_KEYS :: fields[k]
  }

  function Structure(fields: map<string, Json>): map<string, Json> {
    map k | k in fields && k !in ANNOTATION_KEYS :: fields[k]
  }

  /** The node left behind for a hoisted one: its documentation and a reference. */
  function Referring(fields: map<string, Json>, name: string): Json {
    Obj(Annotations(fields)["$ref" := Str(PREFIX + name)])
  }

  function Steps(j: Json): set<Step> {
    match j
    case Arr(items) => set i | 0 <= i < |items| :: Index(i)
    case Obj(fields) => set k | k in fields :: Key(k)
    case _ => {}
  }

  function Child(j: Json, s: Step): (child: Json)
    requires s in Steps(j)
    ensures child < j
  {
    if j.Arr? then j.items[s.index] else j.fields[s.key]
  }

  function At(j: Json, p: Place): Option<Json>
    decreases |p|
  {
    if p == [] then Some(j)
    else if p[0] in Steps(j) then At(Child(j, p[0]), p[1..])
    else None
  }

  ghost predicate ObjectAt(j: Json, p: Place) {
    At(j, p).Some? && At(j, p).value.Obj?
  }

  function WithChild(j: Json, s: Step, child: Json): Json
    requires s in Steps(j)
  {
    if j.Arr? then Arr(j.items[s.index := child]) else Obj(j.fields[s.key := child])
  }

  /** The assignment that puts a reference in place of the node held at a place. */
  function Write(j: Json, p: Place, name: string): Json
    decreases |p|
  {
    if p == [] then (if j.Obj? then Referring(j.fields, name) else j)
    else if p[0] in Steps(j) then WithChild(j, p[0], Write(Child(j, p[0]), p[1..], name))
    else j
  }

  /** The places of a set that lie below a step. */
  function Below(places: set<Place>, s: Step): set<Place> {
    set p | p in places && p != [] && p[0] == s :: p[1..]
  }

  /** The tree with references put at every place of a set at once. */
  function Put(j: Json, places: set<Place>, name: string): Json {
    if [] in places && j.Obj? then Referring(j.fields, name)
    else
      match j
      case Arr(items) => Arr(seq(|items|, i requires 0 <= i < |items| => Put(items[i], Below(places, Index(i)), name)))
      case Obj(fields) => Obj(map k | k in fields :: Put(fields[k], Below(places, Key(k)), name))
      case _ => j
  }

  ghost predicate Apart(p: Place, q: Place) {
    !(p <= q) && !(q <= p)
  }

  /** No place of the set lies inside another. */
  ghost predicate Antichain(places: set<Place>) {
    forall p, q :: p in places && q in places && p != q ==> Apart(p, q)
  }

  lemma ApartTails(p: Place, q: Place)
    requires p != [] && q != [] && p[0] == q[0]
    ensures Apart(p[1..], q[1..]) <==> Apart(p, q)
  {
    assert p == [p[0]] + p[1..] && q == [q[0]] + q[1..];
  }

  lemma BelowHolds(places: set<Place>, s: Step, q: Place)
    ensures q in Below(places, s) <==> [s] + q in places
  {
    if [s] + q in places {
      assert ([s] + q)[1..] == q;
    }
    if q in Below(places, s) {
      var p :| p in places && p != [] && p[0] == s && p[1..] == q;
      assert p == [s] + q;
    }
  }

  lemma BelowAntichain(places: set<Place>, s: Step)
    requires Antichain(places)
    ensures Antichain(Below(places, s))
  {
    forall p, q | p in Below(places, s) && q in Below(places, s) && p != q ensures Apart(p, q) {
      BelowHolds(places, s, p);
      BelowHolds(places, s, q);
      assert ([s] + p)[1..] == p && ([s] + q)[1..] == q;
      ApartTails([s] + p, [s] + q);
    }
  }

  lemma BelowAdded(places: set<Place>, p: Place, s: Step)
    requires p != []
    ensures Below(places + {p}, s) == if p[0] == s then Below(places, s) + {p[1..]} else Below(places, s)
  {
    forall q ensures q in Below(places + {p}, s) <==> q in Below(places, s) || (p[0] == s && q == p[1..]) {
      BelowHolds(places + {p}, s, q);
      BelowHolds(places, s, q);
      assert p == [p[0]] + p[1..];
      assert ([s] + q)[1..] == q;
    }
  }

  lemma NothingBelow(s: Step)
    ensures Below({}, s) == {}
  {}

  lemma {:induction false} PutNowhere(j: Json, name: string)
    ensures Put(j, {}, name) == j
  {
    match j
    case Arr(items) =>
      forall i | 0 <= i < |items| ensures Put(items[i], Below({}, Index(i)), name) == items[i] {
        NothingBelow(Index(i));
        PutNowhere(items[i], name);
      }
      assert Put(j, {}, name).items == items;
    case Obj(fields) =>
      forall k | k in fields ensures Put(fields[k], Below({}, Key(k)), name) == fields[k] {
        NothingBelow(Key(k));
        PutNowhere(fields[k], name);
      }
      assert Put(j, {}, name).fields == fields;
    case _ =>
  }

  lemma PutKeepsSteps(j: Json, places: set<Place>, name: string)
    requires [] !in places || !j.Obj?
    ensures Steps(Put(j, places, name)) == Steps(j)
    ensures forall s :: s in Steps(j) ==> Child(Put(j, places, name), s) == Put(Child(j, s), Below(places, s), name)
  {
    forall s | s in Steps(j)
      ensures s in Steps(Put(j, places, name))
      ensures Child(Put(j, places, name), s) == Put(Child(j, s), Below(places, s), name)
    {}
  }

  lemma ApartFromAll(places: set<Place>, p: Place)
    requires forall q :: q in places ==> Apart(p, q)
    ensures [] !in places && (p == [] ==> places == {})
  {
    assert [] in places ==> Apart(p, []);
  }

  /** One more assignment at a place apart from the written ones writes the enlarged set of places. */
  lemma {:induction false} WriteOneMore(j: Json, places: set<Place>, p: Place, name: string)
    requires ObjectAt(j, p)
    requires forall q :: q in places ==> Apart(p, q)
    ensures Write(Put(j, places, name), p, name) == Put(j, places + {p}, name)
    decreases |p|
  {
    ApartFromAll(places, p);
    if p == [] {
      PutNowhere(j, name);
    } else {
      var s := p[0];
      PutKeepsSteps(j, places, name);
      PutKeepsSteps(j, places + {p}, name);
      forall q | q in Below(places, s) ensures Apart(p[1..], q) {
        BelowHolds(places, s, q);
        assert ([s] + q)[1..] == q;
        ApartTails(p, [s] + q);
      }
      WriteOneMore(Child(j, s), Below(places, s), p[1..], name);
      forall t | t in Steps(j)
        ensures Child(Put(j, places + {p}, name), t) ==
                if t == s then Write(Put(Child(j, s), Below(places, s), name), p[1..], name)
                else Put(Child(j, t), Below(places, t), name)
      {
        BelowAdded(places, p, t);
      }
      ChildrenDecide(Write(Put(j, places, name), p, name), Put(j, places + {p}, name), j);
    }
  }

  /** Two trees over the steps of a third with the same children are the same. */
  lemma ChildrenDecide(a: Json, b: Json, j: Json)
    requires (j.Arr? && a.Arr? && b.Arr?) || (j.Obj? && a.Obj? && b.Obj?)
    requires Steps(a) == Steps(j) && Steps(b) == Steps(j)
    requires forall s :: s in Steps(j) ==> Child(a, s) == Child(b, s)
    ensures a == b
  {
    if j.Arr? {
      SameLength(a.items, j.items);
      SameLength(b.items, j.items);
      forall i | 0 <= i < |j.items| ensures a.items[i] == b.items[i] {
        assert Index(i) in Steps(j);
        assert Child(a, Index(i)) == Child(b, Index(i));
      }
      assert a.items == b.items;
    } else {
      forall k | k in j.fields ensures k in a.fields && k in b.fields && a.fields[k] == b.fields[k] {
        assert Key(k) in Steps(j);
        assert Child(a, Key(k)) == Child(b, Key(k));
      }
      forall k ensures (k in a.fields <==> k in j.fields) && (k in b.fields <==> k in j.fields) {
        assert Key(k) in Steps(a) <==> Key(k) in Steps(j);
        assert Key(k) in Steps(b) <==> Key(k) in Steps(j);
      }
      assert a.fields == b.fields;
    }
  }

  lemma SameLength(a: seq<Json>, b: seq<Json>)
    requires Steps(Arr(a)) == Steps(Arr(b))
    ensures |a| == |b|
  {
    assert Index(|a|) in Steps(Arr(b)) <==> |a| < |b|;
    assert Index(|b|) in Steps(Arr(a)) <==> |b| < |a|;
  }

  /** What lies apart from every written place is not touched. */
  lemma {:induction false} PutElsewhere(j: Json, places: set<Place>, p: Place, name: string)
    requires forall q :: q in places ==> Apart(p, q)
    requires At(j, p).Some?
    ensures At(Put(j, places, name), p) == At(j, p)
    decreases |p|
  {
    ApartFromAll(places, p);
    if p == [] {
      PutNowhere(j, name);
    } else {
      var s := p[0];
      PutKeepsSteps(j, places, name);
      forall q | q in Below(places, s) ensures Apart(p[1..], q) {
        BelowHolds(places, s, q);
        assert ([s] + q)[1..] == q;
        ApartTails(p, [s] + q);
      }
      PutElsewhere(Child(j, s), Below(places, s), p[1..], name);
    }
  }
}

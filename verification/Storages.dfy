/** The entries of the in-process memory, in insertion order. packages/core/memory/in-memory.ts */
module Storages {
  import opened Options

  /** A serialized value and its length in bytes. */
  datatype Text = Text(text: string, bytes: nat)

  datatype Item = Item(key: string, value: Text, expiresAt: Option<int>)

  /** No deadline, and none at the zero of the clock, means that an entry never expires. */
  predicate Expired(expiresAt: Option<int>, now: int) {
    expiresAt.Some? && expiresAt.value != 0 && expiresAt.value < now
  }

  ghost predicate UniqueKeys(storage: seq<Item>) {
    forall i, j :: 0 <= i < j < |storage| ==> storage[i].key != storage[j].key
  }

  ghost predicate HasKey(storage: seq<Item>, key: string) {
    exists i :: 0 <= i < |storage| && storage[i].key == key
  }

  function Find(storage: seq<Item>, key: string): (r: Option<Item>)
    ensures r.None? <==> !HasKey(storage, key)
    ensures r.Some? ==> r.value in storage && r.value.key == key
  {
    if storage == [] then None
    else if storage[0].key == key then Some(storage[0])
    else
      var r := Find(storage[1..], key);
      assert r.None? ==> forall i :: 1 <= i < |storage| ==> storage[i] == storage[1..][i - 1];
      assert r.Some? ==> var i :| 0 <= i < |storage[1..]| && storage[1..][i].key == key; storage[i + 1].key == key;
      r
  }

  function Total(storage: seq<Item>): nat {
    if storage == [] then 0 else storage[0].value.bytes + Total(storage[1..])
  }

  function Removed(storage: seq<Item>, key: string): seq<Item> {
    if storage == [] then []
    else if storage[0].key == key then storage[1..]
    else [storage[0]] + Removed(storage[1..], key)
  }

  /** An entry that is overwritten keeps its place. */
  function Written(storage: seq<Item>, item: Item): seq<Item> {
    if storage == [] then [item]
    else if storage[0].key == item.key then [item] + storage[1..]
    else [storage[0]] + Written(storage[1..], item)
  }

  function Cleaned(storage: seq<Item>, now: int): seq<Item> {
    if storage == [] then []
    else if Expired(storage[0].expiresAt, now) then Cleaned(storage[1..], now)
    else [storage[0]] + Cleaned(storage[1..], now)
  }

  lemma UniqueTail(storage: seq<Item>)
    requires storage != [] && UniqueKeys(storage)
    ensures UniqueKeys(storage[1..]) && Find(storage[1..], storage[0].key) == None
  {}

  lemma UniqueCons(item: Item, rest: seq<Item>)
    requires UniqueKeys(rest) && Find(rest, item.key) == None
    ensures UniqueKeys([item] + rest)
  {}

  lemma HasKeyCons(item: Item, rest: seq<Item>, key: string)
    ensures HasKey([item] + rest, key) <==> item.key == key || HasKey(rest, key)
  {
    var all := [item] + rest;
    if HasKey(rest, key) {
      var i :| 0 <= i < |rest| && rest[i].key == key;
      assert all[i + 1].key == key;
    }
    if item.key == key {
      assert all[0].key == key;
    }
  }

  lemma FindCons(item: Item, rest: seq<Item>, key: string)
    ensures Find([item] + rest, key) == if item.key == key then Some(item) else Find(rest, key)
  {
    assert ([item] + rest)[1..] == rest;
  }

  lemma TotalCons(item: Item, rest: seq<Item>)
    ensures Total([item] + rest) == item.value.bytes + Total(rest)
  {
    assert ([item] + rest)[1..] == rest;
  }

  function BytesOf(found: Option<Item>): nat {
    if found.Some? then found.value.value.bytes else 0
  }

  lemma {:induction false} RemovedFacts(storage: seq<Item>, key: string)
    requires UniqueKeys(storage)
    ensures UniqueKeys(Removed(storage, key))
    ensures forall k :: Find(Removed(storage, key), k) == if k == key then None else Find(storage, k)
    ensures Total(Removed(storage, key)) + BytesOf(Find(storage, key)) == Total(storage)
  {
    hide Find, HasKey, Total, UniqueKeys;
    if storage == [] {
      NothingStored();
    } else {
      var head, rest := storage[0], storage[1..];
      assert storage == [head] + rest;
      UniqueTail(storage);
      TotalCons(head, rest);
      RemovedFacts(rest, key);
      forall k ensures Find(storage, k) == if head.key == k then Some(head) else Find(rest, k) {
        FindCons(head, rest, k);
      }
      if head.key != key {
        var removed := Removed(rest, key);
        TotalCons(head, removed);
        UniqueCons(head, removed);
        forall k ensures Find([head] + removed, k) == if head.key == k then Some(head) else Find(removed, k) {
          FindCons(head, removed, k);
        }
      }
    }
  }

  lemma NothingStored()
    ensures UniqueKeys([]) && Total([]) == 0 && forall k :: Find([], k) == None
  {}

  lemma {:induction false} WrittenFacts(storage: seq<Item>, item: Item)
    requires UniqueKeys(storage)
    ensures UniqueKeys(Written(storage, item))
    ensures forall k :: Find(Written(storage, item), k) == if k == item.key then Some(item) else Find(storage, k)
    ensures Total(Written(storage, item)) + BytesOf(Find(storage, item.key)) == Total(storage) + item.value.bytes
  {
    hide Find, HasKey, Total, UniqueKeys;
    if storage == [] {
      NothingStored();
      assert [item] == [item] + [];
      TotalCons(item, []);
      UniqueCons(item, []);
      forall k ensures Find([item], k) == if k == item.key then Some(item) else None {
        FindCons(item, [], k);
      }
    } else {
      var head, rest := storage[0], storage[1..];
      assert storage == [head] + rest;
      UniqueTail(storage);
      TotalCons(head, rest);
      forall k ensures Find(storage, k) == if head.key == k then Some(head) else Find(rest, k) {
        FindCons(head, rest, k);
      }
      var first := if head.key == item.key then item else head;
      var others := if head.key == item.key then rest else Written(rest, item);
      if head.key != item.key {
        WrittenFacts(rest, item);
      }
      TotalCons(first, others);
      UniqueCons(first, others);
      forall k ensures Find([first] + others, k) == if first.key == k then Some(first) else Find(others, k) {
        FindCons(first, others, k);
      }
    }
  }

  /** What a reader sees of a found entry. */
  function Unexpired(found: Option<Item>, now: int): Option<Item> {
    if found.Some? && Expired(found.value.expiresAt, now) then None else found
  }

  lemma {:induction false} CleanedFacts(storage: seq<Item>, now: int)
    requires UniqueKeys(storage)
    ensures UniqueKeys(Cleaned(storage, now)) && Total(Cleaned(storage, now)) <= Total(storage)
    ensures forall k :: Find(Cleaned(storage, now), k) == Unexpired(Find(storage, k), now)
  {
    hide Find, HasKey, Total, UniqueKeys;
    if storage == [] {
      NothingStored();
    } else {
      var head, rest := storage[0], storage[1..];
      assert storage == [head] + rest;
      UniqueTail(storage);
      TotalCons(head, rest);
      CleanedFacts(rest, now);
      forall k ensures Find(storage, k) == if head.key == k then Some(head) else Find(rest, k) {
        FindCons(head, rest, k);
      }
      var cleaned := Cleaned(rest, now);
      if !Expired(head.expiresAt, now) {
        TotalCons(head, cleaned);
        UniqueCons(head, cleaned);
        forall k ensures Find([head] + cleaned, k) == if head.key == k then Some(head) else Find(cleaned, k) {
          FindCons(head, cleaned, k);
        }
      }
    }
  }

  lemma {:induction false} RemovedInside(before: seq<Item>, item: Item, after: seq<Item>)
    requires !HasKey(before, item.key)
    ensures Removed(before + [item] + after, item.key) == before + after
  {
    var all := before + [item] + after;
    if before == [] {
      assert all[0] == item && all[1..] == after && before + after == after;
    } else {
      var rest := before[1..];
      assert all[0] == before[0] && all[1..] == rest + [item] + after;
      assert before == [before[0]] + rest;
      HasKeyCons(before[0], rest, item.key);
      RemovedInside(rest, item, after);
      assert [before[0]] + (rest + after) == before + after;
    }
  }

  lemma FirstRemoved(storage: seq<Item>)
    requires storage != []
    ensures Removed(storage, storage[0].key) == storage[1..] && Find(storage, storage[0].key) == Some(storage[0])
  {}

  lemma {:induction false} NoneRemoved(storage: seq<Item>, key: string)
    requires Find(storage, key) == None
    ensures Removed(storage, key) == storage
  {
    if storage != [] {
      NoneRemoved(storage[1..], key);
    }
  }

  /** One step of a cleanup: the entry at i goes if it has expired. */
  lemma CleanedStep(all: seq<Item>, i: nat, now: int)
    requires UniqueKeys(all) && i < |all|
    ensures
      var before, after := Cleaned(all[..i], now) + all[i..], Cleaned(all[..i + 1], now) + all[i + 1..];
      after == if Expired(all[i].expiresAt, now) then Removed(before, all[i].key) else before
  {
    hide Cleaned, Removed, HasKey;
    var done := Cleaned(all[..i], now);
    assert all[..i + 1] == all[..i] + [all[i]] && all[i..] == [all[i]] + all[i + 1..];
    CleanedOneMore(all[..i], all[i], now);
    assert done + all[i..] == done + [all[i]] + all[i + 1..];
    if HasKey(done, all[i].key) {
      CleanedHolds(all[..i], now, all[i].key);
    }
    assert !HasKey(all[..i], all[i].key) by { NotBefore(all, i); }
    RemovedInside(done, all[i], all[i + 1..]);
  }

  lemma NotBefore(all: seq<Item>, i: nat)
    requires UniqueKeys(all) && i < |all|
    ensures !HasKey(all[..i], all[i].key)
  {}

  lemma {:induction false} CleanedOneMore(storage: seq<Item>, item: Item, now: int)
    ensures Cleaned(storage + [item], now) ==
            if Expired(item.expiresAt, now) then Cleaned(storage, now) else Cleaned(storage, now) + [item]
  {
    if storage == [] {
      assert storage + [item] == [item];
      assert [item][1..] == [];
      assert Cleaned([item][1..], now) == [];
    } else {
      assert (storage + [item])[1..] == storage[1..] + [item];
      CleanedOneMore(storage[1..], item, now);
    }
  }

  lemma {:induction false} CleanedHolds(storage: seq<Item>, now: int, key: string)
    requires HasKey(Cleaned(storage, now), key)
    ensures HasKey(storage, key)
  {
    hide HasKey;
    if storage == [] {
    } else {
      var head, rest := storage[0], storage[1..];
      assert storage == [head] + rest;
      HasKeyCons(head, rest, key);
      HasKeyCons(head, Cleaned(rest, now), key);
      if HasKey(Cleaned(rest, now), key) {
        CleanedHolds(rest, now, key);
      }
    }
  }

  lemma {:induction false} TotalSplit(a: seq<Item>, b: seq<Item>)
    ensures Total(a + b) == Total(a) + Total(b)
  {
    if a == [] {
      assert a + b == b;
    } else {
      assert (a + b)[1..] == a[1..] + b;
      TotalSplit(a[1..], b);
    }
  }

  // The plain map that the memory stands for

  datatype Deadlined = Deadlined(value: Text, expiresAt: Option<int>)

  type Plain = map<string, Deadlined>

  function PlainGet(plain: Plain, key: string, now: int): Option<Text> {
    if key in plain && !Expired(plain[key].expiresAt, now) then Some(plain[key].value) else None
  }

  function StoredGet(storage: seq<Item>, key: string, now: int): Option<Text> {
    var found := Unexpired(Find(storage, key), now);
    if found.Some? then Some(found.value.value) else None
  }

  /** From now on a reader finds what the plain map holds, or finds nothing where an entry was evicted. */
  ghost predicate Agrees(storage: seq<Item>, plain: Plain, now: int, evicts: bool) {
    forall key, t :: now <= t ==>
      StoredGet(storage, key, t) == PlainGet(plain, key, t) || (evicts && StoredGet(storage, key, t) == None)
  }

  lemma AgreesLater(storage: seq<Item>, plain: Plain, now: int, later: int, evicts: bool)
    requires Agrees(storage, plain, now, evicts) && now <= later
    ensures Agrees(storage, plain, later, evicts)
  {}

  lemma AgreesCleaned(storage: seq<Item>, plain: Plain, now: int, evicts: bool)
    requires UniqueKeys(storage) && Agrees(storage, plain, now, evicts)
    ensures Agrees(Cleaned(storage, now), plain, now, evicts)
  {
    hide Find, Cleaned, PlainGet, UniqueKeys;
    CleanedFacts(storage, now);
    forall key, t | now <= t ensures StoredGet(Cleaned(storage, now), key, t) == StoredGet(storage, key, t) {}
  }

  lemma AgreesWritten(storage: seq<Item>, plain: Plain, now: int, evicts: bool, item: Item)
    requires UniqueKeys(storage) && Agrees(storage, plain, now, evicts)
    ensures Agrees(Written(storage, item), plain[item.key := Deadlined(item.value, item.expiresAt)], now, evicts)
  {
    hide Find, Written, UniqueKeys;
    WrittenFacts(storage, item);
    forall key, t | now <= t && key != item.key
      ensures StoredGet(Written(storage, item), key, t) == StoredGet(storage, key, t) {}
  }

  lemma AgreesRemoved(storage: seq<Item>, plain: Plain, now: int, evicts: bool, key: string)
    requires UniqueKeys(storage) && Agrees(storage, plain, now, evicts)
    ensures Agrees(Removed(storage, key), plain - {key}, now, evicts)
  {
    hide Find, Removed, UniqueKeys;
    RemovedFacts(storage, key);
    forall k, t | now <= t && k != key
      ensures StoredGet(Removed(storage, key), k, t) == StoredGet(storage, k, t) {}
  }

  lemma AgreesEvicted(storage: seq<Item>, plain: Plain, now: int, key: string)
    requires UniqueKeys(storage) && Agrees(storage, plain, now, true)
    ensures Agrees(Removed(storage, key), plain, now, true)
  {
    hide Find, Removed, UniqueKeys, PlainGet;
    RemovedFacts(storage, key);
    forall k, t | now <= t && k != key
      ensures StoredGet(Removed(storage, key), k, t) == StoredGet(storage, k, t) {}
  }

  // Eviction from the start

  /** How many entries go, from the first one on, until the counted size fits. */
  function EvictedCount(storage: seq<Item>, size: int, max: nat): (n: nat)
    ensures n <= |storage|
  {
    if size <= max || storage == [] then 0
    else 1 + EvictedCount(storage[1..], size - storage[0].value.bytes, max)
  }

  /** An entry stays exactly when the count would fit without the entries before it. */
  lemma {:induction false} StaysExactly(storage: seq<Item>, size: int, max: nat, i: nat)
    requires i < |storage|
    ensures EvictedCount(storage, size, max) <= i <==> size - Total(storage[..i]) <= max
  {
    if i == 0 || size <= max {
      TotalSplit(storage[..i], []);
    } else {
      StaysExactly(storage[1..], size - storage[0].value.bytes, max, i - 1);
      assert storage[..i][1..] == storage[1..][..i - 1];
    }
  }

  /** Where the size is counted at least as the entries need, what stays fits. */
  lemma {:induction false} EvictedFits(storage: seq<Item>, size: int, max: nat)
    requires size >= Total(storage)
    ensures Total(storage[EvictedCount(storage, size, max)..]) <= max
  {
    if size <= max || storage == [] {
      assert storage[0..] == storage;
      assert storage == [] ==> Total(storage) == 0;
    } else {
      EvictedFits(storage[1..], size - storage[0].value.bytes, max);
      var n := EvictedCount(storage[1..], size - storage[0].value.bytes, max);
      assert storage[1..][n..] == storage[1 + n..];
    }
  }

  /** With the size counted too high by some drift, an entry survives the eviction exactly when it and
      those after it fit beside the drift. Once the drift exceeds the limit, none does. */
  lemma SurvivesExactly(storage: seq<Item>, drift: nat, max: nat, i: nat)
    requires i < |storage|
    ensures EvictedCount(storage, Total(storage) + drift, max) <= i <==> drift + Total(storage[i..]) <= max
  {
    StaysExactly(storage, Total(storage) + drift, max, i);
    TotalSplit(storage[..i], storage[i..]);
    assert storage[..i] + storage[i..] == storage;
  }
}

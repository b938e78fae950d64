/** The in-process memory: entries with deadlines, a bound on their size, and locks.
    packages/core/memory/in-memory.ts */
module InMemories {
  import opened Options
  import opened Storages
  import opened LockRuns

  datatype Lease = Lease(resourceKey: string, token: int)

  function DeadlineOf(ttl: Option<int>, now: int): Option<int> {
    if ttl.Some? && ttl.value != 0 then Some(now + ttl.value) else None
  }

  /** A value that is not overwritten or deleted is read up to its deadline: forever without a time to live,
      and when the deadline is the zero of the clock. */
  lemma ReadUntilDeadline(plain: Plain, key: string, value: Text, ttl: Option<int>, written: int, now: int)
    ensures
      var until := DeadlineOf(ttl, written);
      PlainGet(plain[key := Deadlined(value, until)], key, now) ==
      if ttl == None || ttl == Some(0) || written + ttl.value == 0 || now <= written + ttl.value then Some(value)
      else None
  {}

  function Matching(storage: seq<Item>, matches: string -> bool): seq<string> {
    if storage == [] then []
    else (if matches(storage[0].key) then [storage[0].key] else []) + Matching(storage[1..], matches)
  }

  lemma {:induction false} MatchingFacts(storage: seq<Item>, matches: string -> bool)
    requires UniqueKeys(storage)
    ensures forall k :: k in Matching(storage, matches) <==> matches(k) && HasKey(storage, k)
    ensures forall i, j :: 0 <= i < j < |Matching(storage, matches)| ==>
              Matching(storage, matches)[i] != Matching(storage, matches)[j]
  {
    hide HasKey, UniqueKeys, Find;
    if storage == [] {
      NothingStored();
      forall k ensures !HasKey(storage, k) { assert Find(storage, k) == None; }
    } else {
      var head, rest := storage[0], storage[1..];
      assert storage == [head] + rest;
      UniqueTail(storage);
      MatchingFacts(rest, matches);
      forall k ensures HasKey(storage, k) <==> head.key == k || HasKey(rest, k) {
        HasKeyCons(head, rest, k);
      }
      assert !HasKey(rest, head.key) by { assert Find(rest, head.key) == None; }
    }
  }

  lemma {:induction false} MatchingOneMore(storage: seq<Item>, item: Item, matches: string -> bool)
    ensures Matching(storage + [item], matches) ==
            Matching(storage, matches) + if matches(item.key) then [item.key] else []
  {
    if storage == [] {
      assert storage + [item] == [item] && [item][1..] == [];
    } else {
      var head := if matches(storage[0].key) then [storage[0].key] else [];
      assert (storage + [item])[1..] == storage[1..] + [item] && (storage + [item])[0] == storage[0];
      MatchingOneMore(storage[1..], item, matches);
      assert Matching(storage, matches) == head + Matching(storage[1..], matches);
      assert Matching(storage + [item], matches) == head + Matching(storage[1..] + [item], matches);
    }
  }

  /** Forgetting keys that are not stored. */
  lemma AgreesWithout(storage: seq<Item>, plain: Plain, less: Plain, now: int, evicts: bool)
    requires Agrees(storage, plain, now, evicts)
    requires forall k :: k in less ==> k in plain && less[k] == plain[k]
    requires forall k :: k in plain && k !in less ==> Find(storage, k) == None
    ensures Agrees(storage, less, now, evicts)
  {
    hide Find;
    forall key, t | now <= t
      ensures StoredGet(storage, key, t) == PlainGet(less, key, t) || (evicts && StoredGet(storage, key, t) == None)
    {
      assert StoredGet(storage, key, t) == PlainGet(plain, key, t) || (evicts && StoredGet(storage, key, t) == None);
    }
  }

  function MostAttempts(retryCount: Option<int>): int {
    var count := if retryCount.Some? then retryCount.value else 10;
    if count < 1 then 1 else count
  }

  /** One step over the entries of the storage. */
  lemma KeysStep(all: seq<Item>, i: nat, now: int, matches: string -> bool)
    requires UniqueKeys(all) && i < |all|
    ensures
      var before, after := Cleaned(all[..i], now) + all[i..], Cleaned(all[..i + 1], now) + all[i + 1..];
      after == if Expired(all[i].expiresAt, now) then Removed(before, all[i].key) else before
    ensures
      Matching(Cleaned(all[..i + 1], now), matches) ==
      Matching(Cleaned(all[..i], now), matches) +
      if !Expired(all[i].expiresAt, now) && matches(all[i].key) then [all[i].key] else []
  {
    hide *;
    CleanedStep(all, i, now);
    CleanedOneMore(all[..i], all[i], now);
    MatchingOneMore(Cleaned(all[..i], now), all[i], matches);
    assert all[..i + 1] == all[..i] + [all[i]];
  }

  lemma NothingMatches(matches: string -> bool)
    ensures Matching([], matches) == []
  {}

  lemma StillCounted(before: seq<Item>, size: int, after: seq<Item>, less: int, max: nat)
    requires Counted(before, size, max) && less <= size && (|before| == 0 ==> |after| == 0)
    ensures Counted(after, less, max)
  {}

  lemma NoneCounted(storage: seq<Item>, size: int)
    ensures Counted(storage, size, 0)
  {}

  lemma NothingRemoved(key: string)
    ensures Removed([], key) == []
  {}

  lemma NothingCleaned(now: int)
    ensures Cleaned([], now) == []
  {}

  /** Where the loops over all entries start and end. */
  lemma CleanedEnds(all: seq<Item>, now: int)
    ensures Cleaned(all[..0], now) + all[0..] == all
    ensures Cleaned(all[..|all|], now) + all[|all|..] == Cleaned(all, now)
    ensures |all| == 0 ==> |Cleaned(all, now)| == 0
  {
    assert all[..|all|] == all && all[..0] == [];
  }

  /** A memory that holds anything counts no more bytes than it may. */
  ghost predicate Counted(storage: seq<Item>, size: int, max: nat) {
    max > 0 && |storage| > 0 ==> size <= max
  }

  class InMemory {
    var storage: seq<Item>
    var locks: Table
    const maxSizeBytes: nat
    var approximatedSize: int
    /** The map that the entries stand for, without deadlines passing or evictions. */
    ghost var plain: Plain
    /** What became of the lock requests. */
    ghost var history: History
    ghost var clock: int

    ghost predicate Valid()
      reads this
    {
      && UniqueKeys(storage) && Total(storage) <= approximatedSize
      && (maxSizeBytes > 0 ==> Total(storage) <= maxSizeBytes)
      && Counted(storage, approximatedSize, maxSizeBytes)
      && Agrees(storage, plain, clock, maxSizeBytes > 0)
      && Sound(locks, history, clock)
    }

    /** What the counted size exceeds the stored one by. */
    ghost function Drift(): int
      reads this
    {
      approximatedSize - Total(storage)
    }

    constructor (maxSizeBytes: nat)
      ensures Valid() && this.maxSizeBytes == maxSizeBytes
      ensures storage == [] && locks == map[] && Drift() == 0 && plain == map[] && history == [] && clock == 0
    {
      storage, locks, this.maxSizeBytes, approximatedSize := [], map[], maxSizeBytes, 0;
      plain, history, clock := map[], [], 0;
    }

    ghost method Tick(now: int)
      requires Valid() && clock <= now
      modifies `clock
      ensures Valid() && clock == now
    {
      hide Agrees, Sound;
      AgreesLater(storage, plain, clock, now, maxSizeBytes > 0);
      TimePasses(locks, history, clock, now);
      clock := now;
    }

    /** The value of an entry that has not expired. */
    method Get(key: string, now: int) returns (value: Option<Text>)
      requires Valid() && clock <= now
      modifies this
      ensures Valid() && clock == now && plain == old(plain) && history == old(history) && Drift() == old(Drift())
      ensures maxSizeBytes == 0 ==> value == PlainGet(plain, key, now)
      ensures value == StoredGet(old(storage), key, now)
      ensures value.Some? ==> value == PlainGet(plain, key, now)
      ensures storage == old(storage) || storage == Cleaned(old(storage), now)
    {
      hide Sound, UniqueKeys, Find, Counted;
      Tick(now);
      var entry := Find(storage, key);
      assert StoredGet(storage, key, now) == PlainGet(plain, key, now) ||
             (maxSizeBytes > 0 && StoredGet(storage, key, now) == None);
      if entry.None? {
        return None;
      }
      if Expired(entry.value.expiresAt, now) {
        CleanupExpired(now);
        return None;
      }
      value := Some(entry.value.value);
    }

    /** The entries written after the expired ones are cleaned up, and then removed from the start until
        the counted size fits. */
    method Set(key: string, value: Text, ttl: Option<int>, now: int)
      requires Valid() && clock <= now
      modifies this
      ensures Valid() && clock == now && history == old(history)
      ensures plain == old(plain)[key := Deadlined(value, DeadlineOf(ttl, now))]
      ensures
        var written := Written(Cleaned(old(storage), now), Item(key, value, DeadlineOf(ttl, now)));
        var size := Total(Cleaned(old(storage), now)) + old(Drift()) + value.bytes;
        storage == if maxSizeBytes == 0 then written else written[EvictedCount(written, size, maxSizeBytes)..]
      ensures Drift() == old(Drift()) + BytesOf(Find(Cleaned(old(storage), now), key))
    {
      hide Sound, Agrees, UniqueKeys, Find, Written, Cleaned, Total, HasKey, BytesOf, DeadlineOf, EvictedCount, Counted;
      CleanupExpired(now);
      WriteItem(Item(key, value, DeadlineOf(ttl, now)));
      if maxSizeBytes > 0 {
        Evict();
      } else {
        NoneCounted(storage, approximatedSize);
      }
    }

    /** Writes an entry and counts its bytes, but does not take off those of the one it overwrites. */
    method WriteItem(item: Item)
      requires UniqueKeys(storage) && Total(storage) <= approximatedSize
      requires Agrees(storage, plain, clock, maxSizeBytes > 0)
      modifies `storage, `plain, `approximatedSize
      ensures UniqueKeys(storage) && Total(storage) <= approximatedSize
      ensures Agrees(storage, plain, clock, maxSizeBytes > 0)
      ensures storage == Written(old(storage), item)
      ensures plain == old(plain)[item.key := Deadlined(item.value, item.expiresAt)]
      ensures approximatedSize == old(approximatedSize) + item.value.bytes
      ensures Drift() == old(Drift()) + BytesOf(Find(old(storage), item.key))
    {
      hide Agrees, UniqueKeys, Find, Written, Total, HasKey, BytesOf;
      WrittenFacts(storage, item);
      AgreesWritten(storage, plain, clock, maxSizeBytes > 0, item);
      storage := Written(storage, item);
      plain := plain[item.key := Deadlined(item.value, item.expiresAt)];
      approximatedSize := approximatedSize + item.value.bytes;
    }

    method Evict()
      requires UniqueKeys(storage) && Total(storage) <= approximatedSize && maxSizeBytes > 0
      requires Agrees(storage, plain, clock, true) && Sound(locks, history, clock)
      modifies `storage, `approximatedSize
      ensures Valid() && Drift() == old(Drift())
      ensures storage == old(storage[EvictedCount(storage, approximatedSize, maxSizeBytes)..])
    {
      hide Sound, Agrees, UniqueKeys, Find, Removed, Total;
      ghost var all, size := storage, approximatedSize;
      ghost var gone := 0;
      EvictedFits(storage, approximatedSize, maxSizeBytes);
      while approximatedSize > maxSizeBytes && storage != []
        invariant UniqueKeys(storage) && Agrees(storage, plain, clock, true)
        invariant Total(storage) <= approximatedSize && Drift() == old(Drift())
        invariant 0 <= gone <= |all| && storage == all[gone..]
        invariant EvictedCount(all, size, maxSizeBytes) == gone + EvictedCount(storage, approximatedSize, maxSizeBytes)
        decreases |storage|
      {
        var oldestKey := storage[0].key;
        AgreesEvicted(storage, plain, clock, oldestKey);
        FirstRemoved(storage);
        var deleted := DeleteEntry(oldestKey);
        gone := gone + 1;
      }
    }

    /** Deletes an entry and takes its bytes off the counted size, which never falls below zero. */
    method DeleteEntry(key: string) returns (deleted: bool)
      requires UniqueKeys(storage) && Total(storage) <= approximatedSize
      modifies `storage, `approximatedSize
      ensures deleted == old(HasKey(storage, key)) && storage == Removed(old(storage), key)
      ensures UniqueKeys(storage) && Total(storage) <= approximatedSize && Drift() == old(Drift())
      ensures approximatedSize == old(approximatedSize - BytesOf(Find(storage, key)))
    {
      hide UniqueKeys, Find, Total;
      var entry := Find(storage, key);
      RemovedFacts(storage, key);
      if entry.None? {
        NoneRemoved(storage, key);
        return false;
      }
      storage := Removed(storage, key);
      approximatedSize := approximatedSize - entry.value.value.bytes;
      approximatedSize := if approximatedSize < 0 then 0 else approximatedSize;
      deleted := true;
    }

    method Delete(key: string, now: int) returns (deleted: bool)
      requires Valid() && clock <= now
      modifies this
      ensures Valid() && clock == now && plain == old(plain) - {key} && history == old(history)
      ensures deleted == old(HasKey(storage, key)) && storage == Removed(old(storage), key) && Drift() == old(Drift())
    {
      hide Sound, Agrees, UniqueKeys, Find, Removed, HasKey, Counted;
      Tick(now);
      AgreesRemoved(storage, plain, now, maxSizeBytes > 0, key);
      RemovedFacts(storage, key);
      NothingRemoved(key);
      deleted := DeleteEntry(key);
      plain := plain - {key};
      StillCounted(old(storage), old(approximatedSize), storage, approximatedSize, maxSizeBytes);
    }

    /** Removes the expired entries and locks. */
    method CleanupExpired(now: int)
      requires Valid() && clock <= now
      modifies this
      ensures Valid() && clock == now && plain == old(plain) && history == old(history) && Drift() == old(Drift())
      ensures storage == Cleaned(old(storage), now)
      ensures locks == map r | r in old(locks) && now <= old(locks)[r].until :: old(locks)[r]
    {
      hide Sound, Agrees, UniqueKeys, Find, Removed, Cleaned, Total, HasKey, Counted;
      Tick(now);
      var all := storage;
      CleanedFacts(all, now);
      AgreesCleaned(all, plain, now, maxSizeBytes > 0);
      CleanedEnds(all, now);
      for i := 0 to |all|
        invariant storage == Cleaned(all[..i], now) + all[i..] && UniqueKeys(storage) && UniqueKeys(all)
        invariant Total(storage) <= approximatedSize <= old(approximatedSize) && Drift() == old(Drift())
        invariant locks == old(locks) && plain == old(plain) && history == old(history) && clock == now
      {
        CleanedStep(all, i, now);
        if Expired(all[i].expiresAt, now) {
          var deleted := DeleteEntry(all[i].key);
        }
      }
      StillCounted(all, old(approximatedSize), storage, approximatedSize, maxSizeBytes);
      CleanupLocks(now);
    }

    method CleanupLocks(now: int)
      requires Sound(locks, history, now)
      modifies `locks
      ensures Sound(locks, history, now)
      ensures locks == map r | r in old(locks) && now <= old(locks)[r].until :: old(locks)[r]
    {
      hide Sound;
      var rest := locks.Keys;
      while rest != {}
        invariant rest <= locks.Keys <= old(locks).Keys
        invariant locks == map r | r in old(locks) && (r in rest || now <= old(locks)[r].until) :: old(locks)[r]
      {
        var key :| key in rest;
        if locks[key].until < now {
          locks := locks - {key};
        }
        rest := rest - {key};
      }
      Dropped(old(locks), history, now, locks);
    }

    /** The unexpired keys that match. The expired entries met on the way go, but their bytes stay counted. */
    method Keys(matches: string -> bool, now: int) returns (matching: seq<string>)
      requires Valid() && clock <= now
      modifies this
      ensures Valid() && clock == now && plain == old(plain) && history == old(history)
      ensures storage == Cleaned(old(storage), now) && matching == Matching(storage, matches)
      ensures Drift() == old(Drift()) + old(Total(storage)) - Total(storage)
    {
      hide Sound, Agrees, UniqueKeys, Find, Removed, Cleaned, Total, HasKey, Matching, Expired, Counted;
      Tick(now);
      var all := storage;
      CleanedFacts(all, now);
      AgreesCleaned(all, plain, now, maxSizeBytes > 0);
      matching := [];
      CleanedEnds(all, now);
      assert matching == Matching(Cleaned(all[..0], now), matches) by {
        NothingCleaned(now);
        NothingMatches(matches);
      }
      for i := 0 to |all|
        invariant storage == Cleaned(all[..i], now) + all[i..] && matching == Matching(Cleaned(all[..i], now), matches)
        invariant locks == old(locks) && plain == old(plain) && history == old(history) && clock == now
        invariant approximatedSize == old(approximatedSize)
      {
        var entry := all[i];
        KeysStep(all, i, now, matches);
        if Expired(entry.expiresAt, now) {
          storage := Removed(storage, entry.key);
        } else if matches(entry.key) {
          matching := matching + [entry.key];
        }
      }
      assert all[..|all|] == all;
      StillCounted(all, old(approximatedSize), storage, approximatedSize, maxSizeBytes);
    }

    /** Deletes the unexpired entries that match, and counts them. */
    method DeleteMatching(matches: string -> bool, now: int) returns (count: nat)
      requires Valid() && clock <= now
      modifies this
      ensures Valid() && clock == now && history == old(history)
      ensures plain == map k | k in old(plain) && !matches(k) :: old(plain)[k]
      ensures forall k :: Find(storage, k) == if matches(k) then None else Unexpired(Find(old(storage), k), now)
      ensures count == |Matching(Cleaned(old(storage), now), matches)|
      ensures Drift() >= old(Drift())
    {
      hide Sound, Agrees, UniqueKeys, Find, Removed, Cleaned, Total, HasKey, Matching, Counted, Unexpired;
      CleanedFacts(storage, now);
      var keys := Keys(matches, now);
      ghost var cleaned, before := storage, plain;
      MatchingFacts(cleaned, matches);
      count := 0;
      for i := 0 to |keys|
        invariant Valid() && clock == now && history == old(history) && count == i
        invariant forall k :: Find(storage, k) == if k in keys[..i] then None else Find(cleaned, k)
        invariant plain == before - set k | k in keys[..i]
        invariant Drift() >= old(Drift())
      {
        assert keys[..i + 1] == keys[..i] + [keys[i]];
        assert Find(cleaned, keys[i]).Some? && keys[i] !in keys[..i];
        assert Find(storage, keys[i]).Some?;
        RemovedFacts(storage, keys[i]);
        var deleted := Delete(keys[i], now);
        count := count + if deleted then 1 else 0;
      }
      assert keys[..|keys|] == keys;
      ghost var less := map k | k in before && !matches(k) :: before[k];
      forall k | matches(k) ensures Find(storage, k) == None {
        assert Find(cleaned, k).None? || k in keys;
      }
      forall k | !matches(k) ensures Find(storage, k) == Find(cleaned, k) {
        assert k !in keys;
      }
      AgreesWithout(storage, plain, less, now, maxSizeBytes > 0);
      plain := less;
    }

    // Locks

    /** One attempt at a lock. It succeeds exactly when nobody holds the lock. */
    method Attempt(resourceKey: string, lockValue: int, expireMs: int, now: int) returns (granted: bool)
      requires Valid() && clock <= now && Fresh(history, lockValue)
      modifies `locks, `history, `clock
      ensures Valid() && clock == now
      ensures granted <==> !Held(old(history), resourceKey, now)
      ensures history == old(history) + [if granted then Granted(resourceKey, lockValue, now, now + expireMs)
                                         else Refused(resourceKey, now)]
    {
      hide Agrees, UniqueKeys, Sound, Held, Fresh, Counted;
      Tick(now);
      if resourceKey in locks && locks[resourceKey].until < now {
        Dropped(locks, history, now, locks - {resourceKey});
        locks := locks - {resourceKey};
      }
      granted := resourceKey !in locks;
      if granted {
        Grants(locks, history, now, resourceKey, lockValue, now + expireMs);
        locks := locks[resourceKey := Holder(lockValue, now + expireMs)];
        history := history + [Granted(resourceKey, lockValue, now, now + expireMs)];
      } else {
        Refuses(locks, history, now, resourceKey);
        history := history + [Refused(resourceKey, now)];
      }
    }

    /** Waits while other callers use the memory. They may do anything but draw the token. */
    method Delay(ms: int, lockValue: int, now: int) returns (later: int)
      requires Valid() && clock <= now && Fresh(history, lockValue)
      modifies this
      ensures Valid() && clock <= later && now <= later && now + ms <= later
      ensures Fresh(history, lockValue) && old(history) <= history
    {
      later := if ms > 0 then now + ms else now;
      Tick(later);
    }

    /** Attempts the lock until it is granted, at most retryCount times but at least once. */
    method Lock(resource: string, expireMs: Option<int>, retryCount: Option<int>, retryDelay: Option<int>,
                lockValue: int, now: int)
      returns (lease: Option<Lease>, attempts: nat, ghost refusals: seq<nat>)
      requires Valid() && clock <= now && Fresh(history, lockValue)
      modifies this
      ensures Valid() && old(history) <= history
      ensures 1 <= attempts && (retryCount.None? ==> attempts <= 10 && (lease.None? ==> attempts == 10))
      ensures retryCount.Some? ==>
                (attempts == 1 || attempts <= retryCount.value) && (lease.None? ==> attempts >= retryCount.value)
      ensures |refusals| == attempts - (if lease.Some? then 1 else 0)
      ensures forall k :: 0 <= k < |refusals| ==> RefusedAt(history, refusals[k], "lock:" + resource)
      ensures var delay := if retryDelay.Some? then retryDelay.value else 200;
              exists time :: Paced(history, refusals, delay, time) && (lease.Some? ==> time == clock)
      ensures lease.Some? ==>
                lease.value == Lease("lock:" + resource, lockValue) && history != [] &&
                history[|history| - 1] == Granted("lock:" + resource, lockValue, clock,
                                                  clock + if expireMs.Some? then expireMs.value else 5000)
    {
      hide Agrees, UniqueKeys, Sound, Held, Fresh, Total, Counted, Paced;
      var time := now;
      var delay := if retryDelay.Some? then retryDelay.value else 200;
      NonePaced(history, delay, time);
      var resourceKey := "lock:" + resource;
      attempts, refusals := 0, [];
      while attempts == 0 || attempts < (if retryCount.Some? then retryCount.value else 10)
        invariant Valid() && clock <= time && Fresh(history, lockValue) && old(history) <= history
        invariant attempts <= MostAttempts(retryCount) && |refusals| == attempts
        invariant forall k :: 0 <= k < |refusals| ==> RefusedAt(history, refusals[k], resourceKey)
        invariant Paced(history, refusals, delay, time)
        decreases MostAttempts(retryCount) - attempts
      {
        ghost var before := history;
        var granted := Attempt(resourceKey, lockValue, if expireMs.Some? then expireMs.value else 5000, time);
        attempts := attempts + 1;
        if granted {
          lease := Some(Lease(resourceKey, lockValue));
          PacedStays(before, refusals, delay, history, time);
          return;
        }
        assert RefusedAt(history, |before|, resourceKey);
        StillFresh(before, Refused(resourceKey, time), lockValue);
        ghost var at, earlier := time, refusals;
        refusals := refusals + [|before|];
        time := Delay(delay, lockValue, time);
        PacedOneMore(before, earlier, delay, Refused(resourceKey, at), history, time);
      }
      lease := None;
    }

    /** Releases a lock, unless by then it has another token or none. */
    method Release(lease: Lease, now: int) returns (released: bool)
      requires Valid() && clock <= now
      modifies `locks, `history, `clock
      ensures Valid() && clock == now && history == old(history) + [Released(lease.resourceKey, lease.token, now)]
      ensures released == old(lease.resourceKey in locks && locks[lease.resourceKey].token == lease.token)
      ensures locks == if released then old(locks) - {lease.resourceKey} else old(locks)
    {
      hide Agrees, UniqueKeys, Sound, Counted;
      Tick(now);
      Releases(locks, history, now, lease.resourceKey, lease.token);
      released := lease.resourceKey in locks && locks[lease.resourceKey].token == lease.token;
      if released {
        locks := locks - {lease.resourceKey};
      }
      history := history + [Released(lease.resourceKey, lease.token, now)];
    }
  }
}

/** The cache itself: its flags, its guard, and the operations they protect. packages/core/cache/cache.ts */
module CacheGuard {
  import opened Options
  import opened CacheRuns
  import opened CacheMemories

  datatype Outcome<T> = Answer(value: T) | Thrown

  function Held(entries: Entries, key: string): Option<Entry> {
    if key in entries then Some(entries[key]) else None
  }

  class Cache {
    const store: Store
    const memory: Memory
    const evictionIndex: EvictionIndex
    const skipOnError: bool
    var entryMeta: set<string>
    var unavailable: bool
    var stale: bool
    /** The history of the invalidation requests, which stamps the written entries. */
    var requests: seq<Request>

    ghost predicate Valid()
      reads this, memory
    {
      memory.Valid() && store.matches == memory.matches && (unavailable ==> stale)
    }

    ghost function Now(): State
      reads this, memory
    {
      State(memory.entries, stale, requests)
    }

    constructor (prefix: string, memory: Memory, skipOnError: bool)
      requires memory.Valid()
      ensures Valid() && this.memory == memory && this.skipOnError == skipOnError && fresh(evictionIndex)
      ensures Now() == State(memory.entries, false, [])
    {
      store := Store(prefix, memory.matches);
      this.memory := memory;
      evictionIndex := new EvictionIndex();
      this.skipOnError := skipOnError;
      entryMeta, unavailable, stale, requests := {}, false, false, [];
    }

    /** The entries that a pattern deletes. */
    ghost function Matched(entries: Entries, pattern: string): set<string> {
      set k | k in entries && memory.matches(store.AddPrefix(pattern), k)
    }

    /** What the eviction picked since it had picked the first `n` keys. */
    ghost function EvictedSince(n: nat): set<string>
      requires n <= |evictionIndex.picked|
      reads evictionIndex
    {
      set k | k in evictionIndex.picked[n..] :: store.AddPrefix(k)
    }

    /** With a clean start the cache is cleared at once, or on its first use once the memory connects. */
    method OnInit(cleanStart: bool) returns (outcome: Outcome<nat>)
      requires Valid()
      modifies this, memory
      ensures Valid() && Lost(old(memory.entries), memory.entries)
      ensures cleanStart && outcome.Answer? && !stale ==> store.Swept(memory.entries)
      ensures memory.failures >= old(memory.failures)
      ensures cleanStart && memory.failures == old(memory.failures) ==>
                outcome.Answer? && !stale && store.Swept(memory.entries)
      ensures !cleanStart ==> outcome == Answer(0) && Now() == old(Now())
    {
      outcome := Answer(0);
      if cleanStart {
        var available := memory.IsAvailable();
        if available {
          ghost var carried, deleted;
          outcome, carried, deleted := DeleteMatching("*");
          assert carried ==> forall k :: k in memory.entries && store.prefix <= k ==> !store.Hits(Matching("*"), k);
        } else {
          stale := true;
        }
      }
    }

    method MarkUnavailable()
      modifies this`stale, this`unavailable
      ensures stale && unavailable
    {
      stale := true;
      if !unavailable {
        unavailable := true;
      }
    }

    /** What an operation that does not complete gives: the fallback, or the error itself. */
    method Fail<T>(fallback: T) returns (outcome: Outcome<T>)
      requires Valid()
      modifies this`stale, this`unavailable
      ensures Valid() && stale == (old(stale) || skipOnError)
      ensures outcome == if skipOnError then Answer(fallback) else Thrown
    {
      if skipOnError {
        MarkUnavailable();
        outcome := Answer(fallback);
      } else {
        outcome := Thrown;
      }
    }

    /** The guard up to the action: whether the memory may be used, cleared first if it is stale. */
    method Enter() returns (ok: bool)
      requires Valid()
      modifies this`stale, this`unavailable, this`entryMeta, memory
      ensures Valid() && Lost(old(memory.entries), memory.entries)
      ensures ok ==> !stale && (old(stale) ==> store.Swept(memory.entries))
      ensures !ok ==> stale == old(stale)
      ensures memory.failures >= old(memory.failures) && (memory.failures == old(memory.failures) ==> ok)
      ensures old(memory.expired) <= memory.expired
      ensures !old(stale) ==> memory.entries == old(memory.entries)
      ensures Kept(old(memory.entries), memory.entries, memory.expired, Matched(old(memory.entries), "*"))
    {
      ok := true;
      if skipOnError {
        ok := memory.IsAvailable();
      }
      if ok && stale {
        ok := Recover();
      }
    }

    method Recover() returns (ok: bool)
      requires Valid()
      modifies this`stale, this`unavailable, this`entryMeta, memory
      ensures Valid() && Lost(old(memory.entries), memory.entries)
      ensures ok ==> !stale && store.Swept(memory.entries)
      ensures !ok ==> stale == old(stale)
      ensures memory.failures >= old(memory.failures) && (memory.failures == old(memory.failures) ==> ok)
      ensures old(memory.expired) <= memory.expired
      ensures Kept(old(memory.entries), memory.entries, memory.expired, Matched(old(memory.entries), "*"))
    {
      var count;
      ghost var deleted;
      ok, count, deleted := DeleteEntries("*");
      if ok {
        entryMeta := {};
        stale := false;
        unavailable := false;
      }
    }

    /** Deletes the entries that match, and counts them. */
    method DeleteEntries(pattern: string) returns (ok: bool, count: nat, ghost deleted: set<string>)
      requires memory.Valid()
      modifies this`entryMeta, memory
      ensures memory.Valid() && Lost(old(memory.entries), memory.entries) && old(memory.expired) <= memory.expired
      ensures memory.failures >= old(memory.failures) && (memory.failures == old(memory.failures) ==> ok)
      ensures ok ==>
                forall k :: k in old(memory.entries) && k !in memory.entries && k !in memory.expired ==> k in deleted
      ensures Kept(old(memory.entries), memory.entries, memory.expired, Matched(old(memory.entries), pattern))
      ensures ok ==> forall k :: k in memory.entries ==> !memory.matches(store.AddPrefix(pattern), k)
      ensures count == |deleted|
      ensures ok ==>
                forall k :: k in deleted ==> k in old(memory.entries) && memory.matches(store.AddPrefix(pattern), k)
    {
      var keys;
      ok, keys := memory.Keys(store.AddPrefix(pattern));
      count, deleted := |keys|, keys;
      if ok {
        ok := memory.DeleteMatching(store.AddPrefix(pattern));
        if ok {
          entryMeta := entryMeta - keys;
        }
      }
    }

    method Get(key: string) returns (outcome: Outcome<Option<Entry>>)
      requires Valid()
      modifies this, memory
      ensures Valid()
      ensures store.Step(skipOnError, old(Now()), Read(key, if outcome.Answer? then outcome.value else None), Now())
      ensures !skipOnError && outcome == Answer(None) ==> store.AddPrefix(key) !in memory.entries
      ensures memory.failures >= old(memory.failures)
      ensures memory.failures == old(memory.failures) ==>
                !stale && outcome.Answer? && var prefixedKey := store.AddPrefix(key);
                if outcome.value.None? then
                  prefixedKey !in memory.entries &&
                  (prefixedKey in old(memory.entries) ==>
                     prefixedKey in memory.expired || (old(stale) && memory.matches(store.AddPrefix("*"), prefixedKey)))
                else
                  outcome.value == Held(old(memory.entries), prefixedKey) &&
                  (outcome.value == Held(memory.entries, prefixedKey) || prefixedKey in memory.expired)
    {
      var ok := Enter();
      if ok {
        var prefixedKey := store.AddPrefix(key);
        var found;
        ok, found := memory.Get(prefixedKey);
        if ok && found.Some? {
          if prefixedKey !in entryMeta {
            ok := memory.SizeBytes(prefixedKey);
          }
          if ok {
            entryMeta := entryMeta + {prefixedKey};
          }
        } else if ok {
          entryMeta := entryMeta - {prefixedKey};
        }
        if ok {
          return Answer(found);
        }
      }
      outcome := Fail(None);
    }

    /** Whether a key is held, which is never answered by a stale entry. */
    method Has(key: string) returns (outcome: Outcome<bool>)
      requires Valid()
      modifies this, memory
      ensures Valid()
      ensures store.Step(skipOnError, old(Now()), Read(key, None), Now())
      ensures outcome == Answer(true) ==> !stale && store.AddPrefix(key) in old(memory.entries)
      ensures outcome == Answer(true) && store.Sweepable(store.AddPrefix(key)) ==> !old(stale)
      ensures memory.failures >= old(memory.failures)
      ensures memory.failures == old(memory.failures) ==>
                !stale && outcome == Answer(store.AddPrefix(key) in memory.entries) &&
                (store.AddPrefix(key) in old(memory.entries) && !outcome.value ==>
                   store.AddPrefix(key) in memory.expired ||
                   (old(stale) && memory.matches(store.AddPrefix("*"), store.AddPrefix(key))))
    {
      var ok := Enter();
      if ok {
        var has;
        ok, has := memory.Has(store.AddPrefix(key));
        if ok {
          store.PrefixIsKept(key);
          return Answer(has);
        }
      }
      outcome := Fail(false);
    }

    method Set(key: string, value: int) returns (outcome: Outcome<bool>)
      requires Valid()
      modifies this, memory, evictionIndex
      ensures Valid() && |evictionIndex.picked| >= |old(evictionIndex.picked)|
      ensures store.Step(skipOnError, old(Now()), Write(key, value), Now())
      ensures memory.failures >= old(memory.failures)
      ensures memory.failures == old(memory.failures) ==>
                !stale && outcome == Answer(true) &&
                (Held(memory.entries, store.AddPrefix(key)) == Some(Entry(value, |requests|)) ||
                 store.AddPrefix(key) in memory.expired ||
                 store.AddPrefix(key) in EvictedSince(|old(evictionIndex.picked)|))
    {
      var ok := Enter();
      if ok {
        ok := WriteEntry(key, value);
        if ok {
          return Answer(true);
        }
      }
      outcome := Fail(false);
    }

    method WriteEntry(key: string, value: int) returns (ok: bool)
      requires Valid() && !stale
      modifies this`stale, this`unavailable, this`entryMeta, memory, evictionIndex
      ensures |evictionIndex.picked| >= |old(evictionIndex.picked)|
      ensures Valid() && store.Written(old(Now()), key, value, memory.entries)
      ensures memory.failures >= old(memory.failures)
      ensures memory.failures == old(memory.failures) ==>
                ok && !stale &&
                (Held(memory.entries, store.AddPrefix(key)) == Some(Entry(value, |requests|)) ||
                 store.AddPrefix(key) in memory.expired ||
                 store.AddPrefix(key) in EvictedSince(|old(evictionIndex.picked)|))
    {
      var prefixedKey := store.AddPrefix(key);
      ok := Evict();
      if ok {
        ok := memory.Set(prefixedKey, Entry(value, |requests|));
        if ok {
          ok := memory.SizeBytes(prefixedKey);
          if ok {
            entryMeta := entryMeta + {prefixedKey};
            ok := Evict();
          }
        }
      }
    }

    /** Deletes the entries the eviction index picks, whichever they are. */
    method Evict() returns (ok: bool)
      requires Valid()
      modifies this`stale, this`unavailable, this`entryMeta, memory, evictionIndex
      ensures old(evictionIndex.picked) <= evictionIndex.picked
      ensures Valid() && Lost(old(memory.entries), memory.entries) && old(memory.expired) <= memory.expired
      ensures memory.failures >= old(memory.failures)
      ensures memory.failures == old(memory.failures) && !old(stale) ==>
                ok && !stale &&
                Kept(old(memory.entries), memory.entries, memory.expired, EvictedSince(|old(evictionIndex.picked)|))
    {
      var candidates := evictionIndex.EvictionCandidates();
      ok := true;
      for i := 0 to |candidates|
        invariant evictionIndex.picked == old(evictionIndex.picked) + candidates
        invariant Valid() && Lost(old(memory.entries), memory.entries) && old(memory.expired) <= memory.expired
        invariant memory.failures >= old(memory.failures)
        invariant memory.failures == old(memory.failures) && !old(stale) ==>
                    ok && !stale &&
                    Kept(old(memory.entries), memory.entries, memory.expired, EvictedSince(|old(evictionIndex.picked)|))
      {
        assert evictionIndex.picked[|old(evictionIndex.picked)|..] == candidates && candidates[i] in candidates;
        var outcome;
        ghost var carried;
        outcome, carried := RemoveGuarded(candidates[i]);
        ok := ok && outcome.Answer?;
      }
    }

    /** Removes an entry, and tells whether there was one. */
    method RemoveGuarded(key: string) returns (outcome: Outcome<bool>, ghost carried: bool)
      requires Valid()
      modifies this`stale, this`unavailable, this`entryMeta, memory
      ensures Valid() && Lost(old(memory.entries), memory.entries)
      ensures old(stale) && !stale ==> store.Swept(memory.entries)
      ensures carried ==> store.AddPrefix(key) !in memory.entries
      ensures if skipOnError then outcome.Answer? && (!carried ==> stale) else carried <==> outcome.Answer?
      ensures outcome == Answer(true) ==> store.AddPrefix(key) in old(memory.entries)
      ensures memory.failures >= old(memory.failures) && old(memory.expired) <= memory.expired
      ensures memory.failures == old(memory.failures) ==> carried && outcome.Answer? && !stale
      ensures memory.failures == old(memory.failures) && !old(stale) ==>
                Kept(old(memory.entries), memory.entries, memory.expired, {store.AddPrefix(key)}) &&
                (outcome.value <==>
                   store.AddPrefix(key) in old(memory.entries) && store.AddPrefix(key) !in memory.expired)
    {
      carried := false;
      var ok := Enter();
      if ok {
        var existed;
        ok, existed := memory.Delete(store.AddPrefix(key));
        if ok {
          entryMeta := entryMeta - {store.AddPrefix(key)};
          return Answer(existed), true;
        }
      }
      outcome := Fail(false);
    }

    method Delete(key: string) returns (outcome: Outcome<bool>, ghost carried: bool)
      requires Valid()
      modifies this, memory
      ensures Valid()
      ensures store.Step(skipOnError, old(Now()), Invalidate(Single(key), carried), Now())
      ensures !skipOnError ==> (carried <==> outcome.Answer?)
      ensures outcome == Answer(true) ==> store.AddPrefix(key) in old(memory.entries)
      ensures memory.failures >= old(memory.failures)
      ensures memory.failures == old(memory.failures) ==> carried && outcome.Answer? && !stale
      ensures memory.failures == old(memory.failures) && !old(stale) ==>
                Kept(old(memory.entries), memory.entries, memory.expired, {store.AddPrefix(key)}) &&
                (outcome.value <==>
                   store.AddPrefix(key) in old(memory.entries) && store.AddPrefix(key) !in memory.expired)
    {
      requests := requests + [Single(key)];
      outcome, carried := RemoveGuarded(key);
    }

    method DeleteMatching(pattern: string)
      returns (outcome: Outcome<nat>, ghost carried: bool, ghost deleted: set<string>)
      requires Valid()
      modifies this, memory
      ensures Valid()
      ensures store.Step(skipOnError, old(Now()), Invalidate(Matching(pattern), carried), Now())
      ensures !skipOnError ==> (carried <==> outcome.Answer?)
      ensures carried ==> outcome == Answer(|deleted|)
      ensures carried ==>
                forall k :: k in deleted ==> k in old(memory.entries) && memory.matches(store.AddPrefix(pattern), k)
      ensures memory.failures >= old(memory.failures)
      ensures memory.failures == old(memory.failures) ==> carried && !stale
      ensures memory.failures == old(memory.failures) && !old(stale) ==>
                forall k :: k in old(memory.entries) && k !in memory.entries && k !in memory.expired ==> k in deleted
    {
      requests := requests + [Matching(pattern)];
      carried, deleted := false, {};
      var ok := Enter();
      if ok {
        var count;
        ok, count, deleted := DeleteEntries(pattern);
        if ok {
          return Answer(count), true, deleted;
        }
      }
      outcome := Fail(0);
    }

    method Keys(pattern: string) returns (outcome: Outcome<set<string>>)
      requires Valid()
      modifies this, memory
      ensures Valid()
      ensures store.Step(skipOnError, old(Now()), Read(pattern, None), Now())
      ensures outcome.Answer? ==> outcome.value <= old(memory.entries).Keys
      ensures outcome.Answer? ==> forall k :: k in outcome.value ==> !stale && (store.Sweepable(k) ==> !old(stale))
      ensures memory.failures >= old(memory.failures)
      ensures memory.failures == old(memory.failures) ==>
                !stale && outcome == Answer(set k | k in memory.entries && memory.matches(store.AddPrefix(pattern), k))
    {
      var ok := Enter();
      if ok {
        var keys;
        ok, keys := memory.Keys(store.AddPrefix(pattern));
        if ok {
          return Answer(keys);
        }
      }
      outcome := Fail({});
    }
  }
}

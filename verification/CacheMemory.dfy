/** The memory a cache is kept in, as the cache sees it. packages/core/memory/memory.ts */
module CacheMemories {
  import opened Options
  import opened CacheRuns

  /** What was held is held, but for what expired and the exceptions. */
  ghost predicate Kept(before: Entries, after: Entries, expired: set<string>, except: set<string>) {
    forall k :: k in before && k !in except ==> k in after || k in expired
  }

  /** A memory whose commands may fail, with or without their effect, and that loses entries as they
      expire. Whatever it does, it does to entries it holds. */
  class Memory {
    const matches: (string, string) -> bool
    var entries: Entries
    /** The keys whose last entry expired. */
    ghost var expired: set<string>
    /** How often the memory was not available, or did not answer a command. */
    ghost var failures: nat

    ghost predicate Valid()
      reads this
    {
      expired !! entries.Keys
    }

    constructor (matches: (string, string) -> bool)
      ensures Valid() && entries == map[] && this.matches == matches
    {
      this.matches := matches;
      entries, expired, failures := map[], {}, 0;
    }

    method IsAvailable() returns (available: bool)
      modifies this`failures
      ensures failures == old(failures) + if available then 0 else 1
    {
      available := Succeeds();
    }

    method Succeeds() returns (ok: bool)
      modifies this`failures
      ensures failures == old(failures) + if ok then 0 else 1
    {
      ok := *;
      failures := failures + if ok then 0 else 1;
    }

    method Expire()
      requires Valid()
      modifies this`entries, this`expired
      ensures Valid() && Lost(old(entries), entries) && old(expired) <= expired
      ensures Kept(old(entries), entries, expired, {})
    {
      var gone: set<string> := *;
      expired := expired + gone * entries.Keys;
      entries := entries - gone;
    }

    method Keys(pattern: string) returns (ok: bool, keys: set<string>)
      requires Valid()
      modifies this
      ensures Valid() && Lost(old(entries), entries) && old(expired) <= expired
      ensures Kept(old(entries), entries, expired, {})
      ensures failures == old(failures) + if ok then 0 else 1
      ensures ok ==> keys == set k | k in entries && matches(pattern, k)
    {
      Expire();
      ok := Succeeds();
      keys := set k | k in entries && matches(pattern, k);
    }

    method DeleteMatching(pattern: string) returns (ok: bool)
      requires Valid()
      modifies this
      ensures Valid() && Lost(old(entries), entries) && old(expired) <= expired
      ensures Kept(old(entries), entries, expired, set k | k in old(entries) && matches(pattern, k))
      ensures failures == old(failures) + if ok then 0 else 1
      ensures ok ==> forall k :: k in entries ==> !matches(pattern, k)
    {
      Expire();
      var matching := set k | k in entries && matches(pattern, k);
      var reached: set<string> := *;
      entries := entries - matching * reached;
      ok := Succeeds();
      if ok {
        entries := entries - matching;
      }
    }

    method Get(key: string) returns (ok: bool, found: Option<Entry>)
      requires Valid()
      modifies this
      ensures Valid() && Lost(old(entries), entries) && old(expired) <= expired
      ensures Kept(old(entries), entries, expired, {})
      ensures failures == old(failures) + if ok then 0 else 1
      ensures ok ==> found == (if key in entries then Some(entries[key]) else None)
    {
      Expire();
      ok := Succeeds();
      found := if key in entries then Some(entries[key]) else None;
    }

    method Has(key: string) returns (ok: bool, has: bool)
      requires Valid()
      modifies this
      ensures Valid() && Lost(old(entries), entries) && old(expired) <= expired
      ensures Kept(old(entries), entries, expired, {})
      ensures failures == old(failures) + if ok then 0 else 1
      ensures ok ==> has == (key in entries)
    {
      Expire();
      ok := Succeeds();
      has := key in entries;
    }

    method Set(key: string, entry: Entry) returns (ok: bool)
      requires Valid()
      modifies this
      ensures Valid() && old(expired) - {key} <= expired
      ensures Lost(old(entries)[key := entry], entries) || Lost(old(entries), entries)
      ensures Kept(old(entries), entries, expired, {key})
      ensures failures == old(failures) + if ok then 0 else 1
      ensures ok ==> key in expired || (key in entries && entries[key] == entry)
    {
      ok := Succeeds();
      var stored: bool := *;
      if ok || stored {
        entries := entries[key := entry];
        expired := expired - {key};
      }
      Expire();
    }

    method Delete(key: string) returns (ok: bool, existed: bool)
      requires Valid()
      modifies this
      ensures Valid() && Lost(old(entries), entries) && old(expired) <= expired
      ensures Kept(old(entries), entries, expired, {key})
      ensures failures == old(failures) + if ok then 0 else 1
      ensures ok ==> key !in entries && (existed <==> key in old(entries) && key !in expired)
    {
      Expire();
      ok := Succeeds();
      existed := key in entries;
      var reached: bool := *;
      if ok || reached {
        entries := entries - {key};
      }
    }

    method SizeBytes(key: string) returns (ok: bool)
      requires Valid()
      modifies this
      ensures Valid() && Lost(old(entries), entries) && old(expired) <= expired
      ensures Kept(old(entries), entries, expired, {})
      ensures failures == old(failures) + if ok then 0 else 1
    {
      Expire();
      ok := Succeeds();
    }
  }

  /** Picks the entries to evict, by whatever strategy. packages/core/cache/eviction/eviction.ts */
  class EvictionIndex {
    /** The keys picked so far, in order. */
    ghost var picked: seq<string>

    constructor ()
      ensures picked == []
    {
      picked := [];
    }

    method EvictionCandidates() returns (keys: seq<string>)
      modifies this
      ensures picked == old(picked) + keys
    {
      keys := *;
      picked := picked + keys;
    }
  }
}

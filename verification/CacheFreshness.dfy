/** What the invalidation of models promises of the cached responses, over the memory in process and its
    outages. packages/core/cache/cache-service.ts, packages/core/cache/cache.ts */
module CacheFreshness {
  import opened CacheKeys
  import opened CacheRuns
  import opened Globs

  /** The cache with this prefix over a memory that matches keys with the globs in process. */
  function InProcess(prefix: string): Store {
    Store(prefix, Matches)
  }

  lemma OneLineIsSweepable(prefix: string, key: string)
    requires OneLine(prefix) && OneLine(key)
    ensures InProcess(prefix).Sweepable(InProcess(prefix).AddPrefix(key))
  {
    hide Matches, OneLine;
    var rest := Unprefixed(prefix, key);
    assert AddPrefix(prefix, key) == prefix + rest;
    SweepHitsExactly(prefix, rest);
    OneLineParts(prefix, key);
  }

  /** With errors skipped, no read of a response returns a value from before an earlier invalidation of a
      model it depends on, whatever failed in between, the invalidation included: the value was written after
      it. The key of the response is in one line, and does not begin with a prefix that holds the mark. */
  lemma DependentReadsAreFresh(prefix: string, states: seq<State>, ops: seq<Op>, i: nat, j: nat,
                               data: KeyData, modelName: string)
    returns (w: int)
    requires InProcess(prefix).Run(true, states, ops) && i < j < |ops|
    requires ops[i].Invalidate? && ops[i].request == Matching(RelatedPattern(modelName))
    requires ops[j].Read? && ops[j].found.Some? && ops[j].key == BuildCacheKey(data)
    requires modelName in data.allRelations && !data.skipInvalidation
    requires OneLine(prefix) && OneLine(modelName) && OneLine(BuildCacheKey(data))
    requires '!' !in prefix || !(prefix <= BuildCacheKey(data))
    ensures i < w < j && ops[w].Write? && ops[w].value == ops[j].found.value.value
    ensures InProcess(prefix).AddPrefix(ops[w].key) == InProcess(prefix).AddPrefix(BuildCacheKey(data))
  {
    hide Matches, OneLine, BuildCacheKey, RelatedPattern;
    var store := InProcess(prefix);
    DependentKeyIsHit(prefix, data, modelName);
    OneLineIsSweepable(prefix, BuildCacheKey(data));
    assert store.Hits(ops[i].request, store.AddPrefix(ops[j].key));
    w := store.ReadsAreFresh(states, ops, i, j);
  }

  /** Where errors are not skipped the same holds of an invalidation that was carried out. */
  lemma CarriedReadsAreFresh(prefix: string, skip: bool, states: seq<State>, ops: seq<Op>, i: nat, j: nat,
                             data: KeyData, modelName: string)
    returns (w: nat)
    requires InProcess(prefix).Run(skip, states, ops) && i < j < |ops|
    requires ops[i].Invalidate? && ops[i].carried && ops[i].request == Matching(RelatedPattern(modelName))
    requires ops[j].Read? && ops[j].found.Some? && ops[j].key == BuildCacheKey(data)
    requires modelName in data.allRelations && !data.skipInvalidation
    requires OneLine(prefix) && OneLine(modelName) && OneLine(BuildCacheKey(data))
    requires '!' !in prefix || !(prefix <= BuildCacheKey(data))
    ensures i < w < j && ops[w].Write? && ops[w].value == ops[j].found.value.value
    ensures InProcess(prefix).AddPrefix(ops[w].key) == InProcess(prefix).AddPrefix(BuildCacheKey(data))
  {
    hide Matches, OneLine, BuildCacheKey, RelatedPattern;
    var store := InProcess(prefix);
    DependentKeyIsHit(prefix, data, modelName);
    assert store.Hits(ops[i].request, store.AddPrefix(ops[j].key));
    w := store.StaleReadNeedsFailure(skip, states, ops, i, j);
  }
}

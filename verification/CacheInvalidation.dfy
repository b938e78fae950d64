/** The invalidation of cached responses, at once or at the commit of a transaction.
    packages/core/cache/cache-service.ts, packages/core/context/transaction-scope.ts */
module CacheInvalidation {
  import opened CacheKeys
  import opened Globs

  datatype Strategy = ExpireRelated | ExpireAll | NoExpiry

  /** The patterns a strategy issues for a model. */
  function PatternsOf(strategy: Strategy, modelName: string): seq<string> {
    match strategy
    case ExpireRelated => [RelatedPattern(modelName)]
    case ExpireAll => ["*:inv"]
    case NoExpiry => []
  }

  /** How the memory answers a deletion: done, or an error that leaves these keys in place. */
  datatype Deletion = Done | Failed(left: set<string>)

  predicate Leaves(deletion: Deletion, key: string) {
    deletion.Failed? && key in deletion.left
  }

  class CacheService {
    const enabled: bool
    const strategy: Strategy
    const prefix: string
    /** The prefixed keys in the store. */
    var stored: set<string>
    /** The models to invalidate at the commit, in the order they were registered. */
    var commitCallbacks: seq<string>
    /** The invalidation errors logged. */
    var errors: nat

    constructor (enabled: bool, strategy: Strategy, prefix: string)
      ensures this.enabled == enabled && this.strategy == strategy && this.prefix == prefix
      ensures stored == {} && commitCallbacks == [] && errors == 0
    {
      this.enabled, this.strategy, this.prefix := enabled, strategy, prefix;
      stored, commitCallbacks, errors := {}, [], 0;
    }

    /** A stored key that the invalidation of a model hits. */
    predicate Hits(modelName: string, key: string) {
      exists i :: 0 <= i < |PatternsOf(strategy, modelName)| &&
        Matches(AddPrefix(prefix, PatternsOf(strategy, modelName)[i]), key)
    }

    /** The keys left by the invalidation of a model. */
    function Remaining(before: set<string>, modelName: string, deletion: Deletion): set<string> {
      set k | k in before && (!Hits(modelName, k) || Leaves(deletion, k))
    }

    method DeleteMatching(pattern: string, deletion: Deletion) returns (failed: bool)
      modifies `stored
      ensures failed == deletion.Failed?
      ensures stored == set k | k in old(stored) && (!Matches(AddPrefix(prefix, pattern), k) || Leaves(deletion, k))
    {
      stored := set k | k in stored && (!Matches(AddPrefix(prefix, pattern), k) || Leaves(deletion, k));
      failed := deletion.Failed?;
    }

    /** Invalidates a model, or waits for the commit of the transaction it is called in. An error of the
        memory is logged and goes no further. */
    method InvalidateCache(modelName: string, inTransaction: bool, deletion: Deletion)
      modifies this
      ensures stored == if enabled && !inTransaction then Remaining(old(stored), modelName, deletion) else old(stored)
      ensures commitCallbacks == if enabled && inTransaction && modelName !in old(commitCallbacks)
                                 then old(commitCallbacks) + [modelName] else old(commitCallbacks)
      ensures errors == if enabled && !inTransaction && strategy != NoExpiry && deletion.Failed?
                        then old(errors) + 1 else old(errors)
    {
      hide Matches, AddPrefix, RelatedPattern;
      if !enabled {
        return;
      }
      if inTransaction {
        AfterCommit(modelName);
        return;
      }
      var failed := false;
      match strategy {
        case ExpireRelated =>
          assert PatternsOf(strategy, modelName)[0] == RelatedPattern(modelName);
          failed := DeleteMatching(RelatedPattern(modelName), deletion);
        case ExpireAll =>
          assert PatternsOf(strategy, modelName)[0] == "*:inv";
          failed := DeleteMatching("*:inv", deletion);
        case NoExpiry =>
      }
      if failed {
        errors := errors + 1;
      }
    }

    /** Registers the invalidation of a model once. */
    method AfterCommit(modelName: string)
      modifies `commitCallbacks
      ensures commitCallbacks == if modelName in old(commitCallbacks) then old(commitCallbacks)
                                 else old(commitCallbacks) + [modelName]
    {
      if modelName !in commitCallbacks {
        commitCallbacks := commitCallbacks + [modelName];
      }
    }

    /** Ends the transaction. A commit invalidates every model registered in it, also after the deletion
        for an earlier one failed, and a rollback none. */
    method SettleTransaction(committed: bool, deletions: string -> Deletion)
      requires enabled
      modifies this
      ensures commitCallbacks == []
      ensures stored ==
              if committed
              then set k | k in old(stored) &&
                           forall m :: m in old(commitCallbacks) ==> !Hits(m, k) || Leaves(deletions(m), k)
              else old(stored)
    {
      hide Hits, Leaves;
      var callbacks := if committed then commitCallbacks else [];
      commitCallbacks := [];
      for i := 0 to |callbacks|
        invariant commitCallbacks == []
        invariant stored == set k | k in old(stored) &&
                                    forall m :: m in callbacks[..i] ==> !Hits(m, k) || Leaves(deletions(m), k)
      {
        assert callbacks[..i + 1] == callbacks[..i] + [callbacks[i]];
        InvalidateCache(callbacks[i], false, deletions(callbacks[i]));
      }
      assert callbacks[..|callbacks|] == callbacks;
    }

    /** Whether a strategy other than none hits a key of a model, decided on the key. */
    ghost predicate Reaches(modelName: string, key: string) {
      match strategy
      case ExpireRelated => Marked(Unprefixed(prefix, key), modelName)
      case ExpireAll => Suffixed(Unprefixed(prefix, key))
      case NoExpiry => false
    }

    lemma HitsExactly(modelName: string, key: string)
      requires Plain(prefix) && Plain(modelName)
      ensures Hits(modelName, AddPrefix(prefix, key)) <==> Reaches(modelName, key)
    {
      hide Matches, AddPrefix, RelatedPattern, Marked, Suffixed, Unprefixed, Plain;
      match strategy {
        case ExpireRelated =>
          InvalidationHitsExactly(prefix, key, modelName);
          assert PatternsOf(strategy, modelName)[0] == RelatedPattern(modelName);
        case ExpireAll =>
          SuffixHitsExactly(prefix, key);
          assert PatternsOf(strategy, modelName)[0] == "*:inv";
        case NoExpiry =>
      }
    }

    /** Which keys an invalidation leaves in the store: for any key, those it does not reach, and with an error
        those the memory left. */
    lemma LeftExactly(before: set<string>, key: string, modelName: string, deletion: Deletion)
      requires Plain(prefix) && Plain(modelName)
      ensures AddPrefix(prefix, key) in Remaining(before, modelName, deletion) <==>
              AddPrefix(prefix, key) in before &&
              (!Reaches(modelName, key) || (deletion.Failed? && AddPrefix(prefix, key) in deletion.left))
    {
      hide Hits, AddPrefix, Reaches;
      HitsExactly(modelName, key);
    }

    /** With the related strategy no key that depends on the model is left, except for keys that hold a line
        terminator, unless the key begins with a prefix that holds the mark. Then it is left exactly when the
        rest behind the prefix does not hold the name of the model between marks. */
    lemma NoRelatedKeyIsLeft(before: set<string>, data: KeyData, modelName: string)
      requires strategy.ExpireRelated? && modelName in data.allRelations && !data.skipInvalidation
      ensures
        var key := BuildCacheKey(data);
        OneLine(prefix) && OneLine(modelName) && ('!' !in prefix || !(prefix <= key)) ==>
          (AddPrefix(prefix, key) in Remaining(before, modelName, Done) <==>
           AddPrefix(prefix, key) in before && !OneLine(key))
      ensures
        var key := BuildCacheKey(data);
        Plain(prefix) && Plain(modelName) ==>
          (AddPrefix(prefix, key) in Remaining(before, modelName, Done) <==>
           AddPrefix(prefix, key) in before && !Marked(Unprefixed(prefix, key), modelName))
    {
      hide Matches, AddPrefix, RelatedPattern, BuildCacheKey, OneLine, Marked, Plain;
      var key := BuildCacheKey(data);
      assert PatternsOf(strategy, modelName)[0] == RelatedPattern(modelName);
      if OneLine(prefix) && OneLine(modelName) && ('!' !in prefix || !(prefix <= key)) {
        DependentKeyIsHit(prefix, data, modelName);
      }
      if Plain(prefix) && Plain(modelName) {
        InvalidationHitsExactly(prefix, key, modelName);
      }
    }
  }
}

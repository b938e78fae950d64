/** The same lock on Redis. packages/redis/redis-memory.ts */
module RedisLocks {
  import opened Options
  import opened LockRuns

  datatype Lease = Lease(resourceKey: string, lockValue: int)

  /** What the server answers to a conditional set. It refuses an expiry that is not positive. */
  datatype Reply = Ok | Nil | InvalidExpiry

  datatype Outcome = Acquired(lease: Lease) | NotAcquired | Thrown

  /** The server, for the keys of locks. A key is gone once it has expired. */
  class RedisClient {
    var keys: Table
    ghost var history: History
    ghost var clock: int

    ghost predicate Valid()
      reads this
    {
      Sound(keys, history, clock)
    }

    constructor ()
      ensures Valid() && keys == map[] && history == [] && clock == 0
    {
      keys, history, clock := map[], [], 0;
    }

    /** Drops a key that has expired, as every command does that uses the key. */
    method ExpireIfNeeded(key: string, now: int)
      requires Valid() && clock <= now
      modifies `keys, `clock
      ensures Valid() && clock == now
      ensures keys == if key in old(keys) && old(keys)[key].until < now then old(keys) - {key} else old(keys)
    {
      hide Sound;
      TimePasses(keys, history, clock, now);
      clock := now;
      if key in keys && keys[key].until < now {
        Dropped(keys, history, now, keys - {key});
        keys := keys - {key};
      }
    }

    /** SET key value PX expiry NX */
    method SetIfAbsent(key: string, value: int, px: int, now: int) returns (reply: Reply)
      requires Valid() && clock <= now && Fresh(history, value)
      modifies this
      ensures Valid() && clock == now
      ensures reply == InvalidExpiry <==> px <= 0
      ensures px > 0 ==> (reply == Ok <==> !Held(old(history), key, now))
      ensures history == old(history) + (match reply
                                         case Ok => [Granted(key, value, now, now + px)]
                                         case Nil => [Refused(key, now)]
                                         case InvalidExpiry => [])
    {
      hide Sound, Held, Fresh;
      ExpireIfNeeded(key, now);
      if px <= 0 {
        assert history + [] == history;
        reply := InvalidExpiry;
      } else if key in keys {
        Refuses(keys, history, now, key);
        history := history + [Refused(key, now)];
        reply := Nil;
      } else {
        Grants(keys, history, now, key, value, now + px);
        keys := keys[key := Holder(value, now + px)];
        history := history + [Granted(key, value, now, now + px)];
        reply := Ok;
      }
    }

    /** The script that deletes a key if it has the value. */
    method ReleaseLock(key: string, value: int, now: int) returns (deleted: nat)
      requires Valid() && clock <= now
      modifies this
      ensures Valid() && clock == now && history == old(history) + [Released(key, value, now)]
      ensures
        var had := key in old(keys) && now <= old(keys)[key].until && old(keys)[key].token == value;
        deleted == (if had then 1 else 0) &&
        (key in old(keys) && now <= old(keys)[key].until && !had ==> keys == old(keys))
    {
      hide Sound;
      ExpireIfNeeded(key, now);
      Releases(keys, history, now, key, value);
      deleted := 0;
      if key in keys && keys[key].token == value {
        keys := keys - {key};
        deleted := 1;
      }
      history := history + [Released(key, value, now)];
    }

    /** Waits while other clients use the server. They may do anything but draw the token. */
    method Delay(ms: int, lockValue: int, now: int) returns (later: int)
      requires Valid() && clock <= now && Fresh(history, lockValue)
      modifies this
      ensures Valid() && clock <= later && now <= later && now + ms <= later
      ensures Fresh(history, lockValue) && old(history) <= history
    {
      later := if ms > 0 then now + ms else now;
      TimePasses(keys, history, clock, later);
      clock := later;
    }
  }

  class RedisLock {
    const client: RedisClient
    const resource: string
    const expireMs: int
    const retryCount: int
    const retryDelay: int

    constructor (client: RedisClient, resource: string, expireMs: Option<int>, retryCount: Option<int>,
                 retryDelay: Option<int>)
      ensures this.client == client && this.resource == resource
      ensures this.expireMs == (if expireMs.Some? then expireMs.value else 5000)
      ensures this.retryDelay == (if retryDelay.Some? then retryDelay.value else 200)
      ensures this.retryCount == if retryCount.Some? then retryCount.value else 10
    {
      this.client, this.resource := client, resource;
      this.expireMs := if expireMs.Some? then expireMs.value else 5000;
      this.retryCount := if retryCount.Some? then retryCount.value else 10;
      this.retryDelay := if retryDelay.Some? then retryDelay.value else 200;
    }

    /** Attempts the lock until it is granted, at most retryCount times but at least once. An expiry that
        the server refuses fails the first attempt. */
    method Lock(lockValue: int, now: int) returns (outcome: Outcome, attempts: nat, ghost refusals: seq<nat>)
      requires client.Valid() && client.clock <= now && Fresh(client.history, lockValue)
      modifies client
      ensures client.Valid() && old(client.history) <= client.history
      ensures 1 <= attempts <= (if retryCount < 1 then 1 else retryCount)
      ensures outcome == Thrown <==> expireMs <= 0
      ensures outcome == Thrown ==> attempts == 1 && client.history == old(client.history)
      ensures outcome == NotAcquired ==> attempts == if retryCount < 1 then 1 else retryCount
      ensures |refusals| == attempts - (if outcome == NotAcquired then 0 else 1)
      ensures forall k :: 0 <= k < |refusals| ==> RefusedAt(client.history, refusals[k], "lock:" + resource)
      ensures exists time :: Paced(client.history, refusals, retryDelay, time) &&
                             (outcome.Acquired? ==> time == client.clock)
      ensures outcome.Acquired? ==>
                outcome.lease == Lease("lock:" + resource, lockValue) && client.history != [] &&
                client.history[|client.history| - 1] ==
                  Granted("lock:" + resource, lockValue, client.clock, client.clock + expireMs)
    {
      hide Sound, Held, Fresh, Paced;
      var time := now;
      NonePaced(client.history, retryDelay, time);
      var resourceKey := "lock:" + resource;
      attempts, refusals := 0, [];
      while attempts == 0 || attempts < retryCount
        invariant client.Valid() && client.clock <= time && Fresh(client.history, lockValue)
        invariant old(client.history) <= client.history && (attempts == 0 ==> client.history == old(client.history))
        invariant attempts > 0 ==> expireMs > 0
        invariant attempts <= (if retryCount < 1 then 1 else retryCount) && |refusals| == attempts
        invariant forall k :: 0 <= k < |refusals| ==> RefusedAt(client.history, refusals[k], resourceKey)
        invariant Paced(client.history, refusals, retryDelay, time)
        decreases (if retryCount < 1 then 1 else retryCount) - attempts
      {
        ghost var before := client.history;
        var reply := client.SetIfAbsent(resourceKey, lockValue, expireMs, time);
        attempts := attempts + 1;
        if reply == InvalidExpiry {
          assert refusals == [];
          outcome := Thrown;
          return;
        }
        if reply == Ok {
          outcome := Acquired(Lease(resourceKey, lockValue));
          PacedStays(before, refusals, retryDelay, client.history, time);
          return;
        }
        assert RefusedAt(client.history, |before|, resourceKey);
        StillFresh(before, Refused(resourceKey, time), lockValue);
        ghost var at, earlier := time, refusals;
        refusals := refusals + [|before|];
        time := client.Delay(retryDelay, lockValue, time);
        PacedOneMore(before, earlier, retryDelay, Refused(resourceKey, at), client.history, time);
      }
      outcome := NotAcquired;
    }

    /** Releases a lock that still has the token. */
    method Release(lease: Lease, now: int) returns (released: bool)
      requires client.Valid() && client.clock <= now
      modifies client
      ensures client.Valid() &&
              client.history == old(client.history) + [Released(lease.resourceKey, lease.lockValue, now)]
      ensures released == old(lease.resourceKey in client.keys && now <= client.keys[lease.resourceKey].until &&
                              client.keys[lease.resourceKey].token == lease.lockValue)
    {
      var deleted := client.ReleaseLock(lease.resourceKey, lease.lockValue, now);
      released := deleted > 0;
    }
  }
}

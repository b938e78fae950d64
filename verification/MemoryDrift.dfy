/** What the counting errors of the in-process memory add up to. packages/core/memory/in-memory.ts */
module MemoryDrift {
  import opened Options
  import opened Storages
  import opened InMemories

  /** A call of the memory, some time after the one before. */
  datatype Call =
    | Getting(key: string, wait: nat)
    | Setting(key: string, value: Text, ttl: Option<int>, wait: nat)
    | Deleting(key: string, wait: nat)
    | Cleaning(wait: nat)
    | Listing(matches: string -> bool, wait: nat)
    | DeletingMatching(matches: string -> bool, wait: nat)

  /** Whatever is called, the drift never falls. */
  method Use(memory: InMemory, call: Call, before: int) returns (now: int)
    requires memory.Valid() && memory.clock <= before
    modifies memory
    ensures memory.Valid() && memory.clock <= now && memory.Drift() >= old(memory.Drift())
  {
    hide Find, Written, Cleaned, EvictedCount, Total, UniqueKeys;
    now := before + call.wait;
    match call {
      case Getting(key, _) =>
        var _ := memory.Get(key, now);
      case Setting(key, value, ttl, _) =>
        memory.Set(key, value, ttl, now);
      case Deleting(key, _) =>
        var _ := memory.Delete(key, now);
      case Cleaning(_) =>
        memory.CleanupExpired(now);
      case Listing(matches, _) =>
        CleanedFacts(memory.storage, now);
        var _ := memory.Keys(matches, now);
      case DeletingMatching(matches, _) =>
        var _ := memory.DeleteMatching(matches, now);
    }
  }

  lemma {:induction false} ItemFits(storage: seq<Item>, item: Item)
    requires item in storage
    ensures item.value.bytes <= Total(storage)
  {
    if item != storage[0] {
      ItemFits(storage[1..], item);
    }
  }

  /** Where the drift leaves no room for as many bytes, no entry of that size is stored. */
  lemma NoneFits(memory: InMemory, bytes: nat)
    requires memory.Valid() && memory.maxSizeBytes > 0 && memory.Drift() + bytes > memory.maxSizeBytes
    ensures forall item :: item in memory.storage ==> item.value.bytes < bytes
  {
    forall item | item in memory.storage ensures item.value.bytes < bytes {
      ItemFits(memory.storage, item);
    }
  }

  lemma OneItem(item: Item, now: int)
    requires item.expiresAt.None?
    ensures Cleaned([item], now) == [item] && Total([item]) == item.value.bytes
    ensures Written([], item) == [item] && Written([item], item) == [item] && Find([item], item.key) == Some(item)
    ensures Cleaned([], now) == [] && Total([]) == 0 && Find([], item.key) == None
  {
    assert [item][1..] == [];
  }

  lemma OneItemEvicted(item: Item, size: int, max: nat)
    ensures [item][EvictedCount([item], size, max)..] == if size <= max then [item] else []
  {
    assert [item][1..] == [];
  }

  /** The memory after some writes of one entry, whose bytes add up to `written`, exactly. */
  ghost predicate Repeated(storage: seq<Item>, drift: int, max: nat, item: Item, written: nat) {
    if written == 0 then drift == 0 && (storage == [] || (storage == [item] && item.value.bytes == 0))
    else if written <= max then storage == [item] && drift == written - item.value.bytes
    else storage == [] && drift <= max < drift + item.value.bytes
  }

  lemma RepeatedOnceMore(storage: seq<Item>, drift: nat, max: nat, item: Item, written: nat, now: int)
    requires item.expiresAt.None? && Repeated(storage, drift, max, item, written)
    ensures
      var cleaned := Cleaned(storage, now);
      var all, size := Written(cleaned, item), Total(cleaned) + drift + item.value.bytes;
      Repeated(all[EvictedCount(all, size, max)..], drift + BytesOf(Find(cleaned, item.key)), max, item,
               written + item.value.bytes)
  {
    OneItem(item, now);
    hide Find, Written, Cleaned, EvictedCount, Total;
    var size := (if storage == [] then 0 else item.value.bytes) + drift + item.value.bytes;
    assert storage == [] || storage == [item];
    OneItemEvicted(item, size, max);
    assert Cleaned(storage, now) == storage && Written(storage, item) == [item];
    assert Total(storage) + drift + item.value.bytes == size;
    assert BytesOf(Find(storage, item.key)) == if storage == [] then 0 else item.value.bytes;
  }

  /** Writing the entry once more. It is stored as long as all its writes together fit, and after that the
      bytes counted for the earlier ones leave no room for it. */
  method SetAgain(memory: InMemory, key: string, value: Text, now: int, ghost written: nat)
    requires memory.Valid() && memory.clock <= now && memory.maxSizeBytes > 0
    requires Repeated(memory.storage, memory.Drift(), memory.maxSizeBytes, Item(key, value, None), written)
    modifies memory
    ensures memory.Valid() && memory.clock <= now
    ensures Repeated(memory.storage, memory.Drift(), memory.maxSizeBytes, Item(key, value, None), written + value.bytes)
  {
    hide Find, Written, Cleaned, EvictedCount, Total, UniqueKeys, Repeated, BytesOf;
    assert DeadlineOf(None, now) == None;
    RepeatedOnceMore(memory.storage, memory.Drift(), memory.maxSizeBytes, Item(key, value, None), written, now);
    memory.Set(key, value, None, now);
  }

  lemma Multiples(n: nat, bytes: nat)
    ensures (n + 1) * bytes == n * bytes + bytes
  {}

  /** A new memory that is given one entry n times, and is used in whatever way then. Once the n writes
      together are beyond the limit, it never stores anything of that size again, not even alone. */
  method WearOut(max: nat, key: string, value: Text, waits: seq<nat>, calls: seq<Call>) returns (memory: InMemory)
    requires max > 0
    ensures fresh(memory) && memory.Valid() && memory.maxSizeBytes == max
    ensures |waits| * value.bytes > max ==>
              memory.Drift() + value.bytes > max &&
              forall item :: item in memory.storage ==> item.value.bytes < value.bytes
  {
    hide Find, Written, Cleaned, EvictedCount, Total, UniqueKeys;
    memory := new InMemory(max);
    var now := 0;
    for i := 0 to |waits|
      invariant fresh(memory) && memory.Valid() && memory.maxSizeBytes == max && memory.clock <= now
      invariant Repeated(memory.storage, memory.Drift(), max, Item(key, value, None), i * value.bytes)
    {
      now := now + waits[i];
      Multiples(i, value.bytes);
      SetAgain(memory, key, value, now, i * value.bytes);
    }
    ghost var drift := memory.Drift();
    for i := 0 to |calls|
      invariant fresh(memory) && memory.Valid() && memory.maxSizeBytes == max && memory.clock <= now
      invariant memory.Drift() >= drift
    {
      now := Use(memory, calls[i], now);
    }
    if |waits| * value.bytes > max {
      NoneFits(memory, value.bytes);
    }
  }
}

/** What the cache promises over a memory that goes up and down or fails midway: the steps of its
    public operations, and runs of them. packages/core/cache/cache.ts */
module CacheRuns {
  import opened Options
  import CacheKeys

  /** A request to invalidate entries, by a glob pattern or by one key. */
  datatype Request = Matching(pattern: string) | Single(key: string)

  /** A stored value with the number of invalidation requests made before it was written. */
  datatype Entry = Entry(value: int, stamp: nat)
  type Entries = map<string, Entry>

  datatype State = State(entries: Entries, stale: bool, requests: seq<Request>)

  datatype Op =
    | Read(key: string, found: Option<Entry>)
    | Write(key: string, value: int)
    | Invalidate(request: Request, carried: bool)

  /** Some entries may be gone, the others are as they were. */
  ghost predicate Lost(before: Entries, after: Entries) {
    forall k :: k in after ==> k in before && after[k] == before[k]
  }

  /** How the memory matches keys, and the prefix the cache puts before them. */
  datatype Store = Store(prefix: string, matches: (string, string) -> bool)
  {
    function AddPrefix(key: string): string {
      CacheKeys.AddPrefix(prefix, key)
    }

    predicate Hits(request: Request, prefixedKey: string) {
      match request
      case Matching(pattern) => matches(AddPrefix(pattern), prefixedKey)
      case Single(key) => AddPrefix(key) == prefixedKey
    }

    /** A key of the cache that the pattern clearing it matches. */
    predicate Sweepable(prefixedKey: string) {
      prefix <= prefixedKey && matches(AddPrefix("*"), prefixedKey)
    }

    ghost predicate Swept(entries: Entries) {
      forall k :: k in entries ==> !Sweepable(k)
    }

    /** No request since the entry was written hits its key. */
    ghost predicate Fresh(requests: seq<Request>, prefixedKey: string, entry: Entry) {
      entry.stamp <= |requests| &&
      forall i :: entry.stamp <= i < |requests| ==> !Hits(requests[i], prefixedKey)
    }

    /** While the cache is not stale, every entry it wrote is newer than the last request hitting it. */
    ghost predicate Invariant(s: State) {
      !s.stale ==> forall k :: k in s.entries && Sweepable(k) ==> Fresh(s.requests, k, s.entries[k])
    }

    ghost predicate Written(s: State, key: string, value: int, entries: Entries) {
      Lost(s.entries[AddPrefix(key) := Entry(value, |s.requests|)], entries) || Lost(s.entries, entries)
    }

    /** One public operation. Entries may get lost at any time, and a stale cache is cleared before it is
        trusted again. A request that is carried out leaves no entry it hits; with `skip`, one that is not
        leaves the cache stale. */
    ghost predicate Step(skip: bool, s: State, op: Op, s': State) {
      match op
      case Read(key, found) =>
        && s'.requests == s.requests && Lost(s.entries, s'.entries)
        && (s.stale && !s'.stale ==> Swept(s'.entries))
        && (found.Some? ==>
              && !s'.stale && AddPrefix(key) in s.entries && s.entries[AddPrefix(key)] == found.value
              && (s.stale ==> !Sweepable(AddPrefix(key))))
      case Write(key, value) =>
        && s'.requests == s.requests && Written(s, key, value, s'.entries)
        && (s.stale && !s'.stale ==>
              Swept(s'.entries - {AddPrefix(key)}) &&
              (AddPrefix(key) in s'.entries && Sweepable(AddPrefix(key)) ==>
                s'.entries[AddPrefix(key)] == Entry(value, |s.requests|)))
      case Invalidate(request, carried) =>
        && s'.requests == s.requests + [request] && Lost(s.entries, s'.entries)
        && (s.stale && !s'.stale ==> Swept(s'.entries))
        && (carried ==> forall k :: k in s'.entries && prefix <= k ==> !Hits(request, k))
        && (skip && !carried ==> s'.stale)
    }

    ghost predicate Run(skip: bool, states: seq<State>, ops: seq<Op>) {
      && |states| == |ops| + 1
      && states[0].requests == [] && (forall k :: k in states[0].entries ==> states[0].entries[k].stamp == 0)
      && forall i :: 0 <= i < |ops| ==> Step(skip, states[i], ops[i], states[i + 1])
    }

    lemma PrefixIsKept(key: string)
      ensures prefix <= AddPrefix(key)
    {}

    /** Every operation keeps the invariant. */
    lemma StepKeepsInvariant(s: State, op: Op, s': State)
      requires Invariant(s) && Step(true, s, op, s')
      ensures Invariant(s')
    {
      if !s'.stale {
        forall k | k in s'.entries && Sweepable(k) ensures Fresh(s'.requests, k, s'.entries[k]) {
          match op
          case Read(_, _) =>
          case Write(key, value) =>
            assert k != AddPrefix(key) ==> k in s'.entries - {AddPrefix(key)};
            assert s'.entries[k] == Entry(value, |s.requests|) || !s.stale;
          case Invalidate(request, _) =>
            assert k in s.entries && Fresh(s.requests, k, s.entries[k]);
        }
      }
    }

    lemma {:induction false} RunKeepsInvariant(states: seq<State>, ops: seq<Op>, n: nat)
      requires Run(true, states, ops) && n < |states|
      ensures Invariant(states[n])
    {
      if n > 0 {
        RunKeepsInvariant(states, ops, n - 1);
        StepKeepsInvariant(states[n - 1], ops[n - 1], states[n]);
      }
    }

    /** The requests of a state are the ones of the invalidations before it, in order. */
    ghost function RequestsOf(ops: seq<Op>): seq<Request> {
      if ops == [] then []
      else RequestsOf(ops[..|ops| - 1]) +
           (if ops[|ops| - 1].Invalidate? then [ops[|ops| - 1].request] else [])
    }

    lemma {:induction false} RequestsAre(skip: bool, states: seq<State>, ops: seq<Op>, n: nat)
      requires Run(skip, states, ops) && n < |states|
      ensures states[n].requests == RequestsOf(ops[..n])
    {
      if n > 0 {
        RequestsAre(skip, states, ops, n - 1);
        assert ops[..n][..n - 1] == ops[..n - 1];
      }
    }

    lemma {:induction false} RequestsGrow(skip: bool, states: seq<State>, ops: seq<Op>, i: nat, n: nat)
      requires Run(skip, states, ops) && i <= n < |states|
      ensures states[i].requests <= states[n].requests
    {
      if i < n {
        RequestsGrow(skip, states, ops, i, n - 1);
      }
    }

    /** An entry with a stamp was stored by a write of the run made after that many requests. */
    lemma {:induction false} EntryWasWritten(skip: bool, states: seq<State>, ops: seq<Op>, n: nat, k: string)
      returns (w: int)
      requires Run(skip, states, ops) && n < |states| && k in states[n].entries
      ensures w == -1 ==> states[n].entries[k].stamp == 0
      ensures w != -1 ==>
                && 0 <= w < n && ops[w].Write? && AddPrefix(ops[w].key) == k
                && states[n].entries[k] == Entry(ops[w].value, |states[w].requests|)
    {
      if n == 0 {
        w := -1;
      } else if k in states[n - 1].entries && states[n].entries[k] == states[n - 1].entries[k] {
        w := EntryWasWritten(skip, states, ops, n - 1, k);
      } else {
        w := n - 1;
      }
    }

    /** With errors skipped, no read returns an entry that an earlier request hits, even one missed during
        an outage: the value it returns was written after that request. */
    lemma ReadsAreFresh(states: seq<State>, ops: seq<Op>, i: nat, j: nat) returns (w: int)
      requires Run(true, states, ops) && i < j < |ops|
      requires ops[j].Read? && ops[j].found.Some?
      requires ops[i].Invalidate? && Hits(ops[i].request, AddPrefix(ops[j].key))
      requires Sweepable(AddPrefix(ops[j].key))
      ensures i < w < j && ops[w].Write? && AddPrefix(ops[w].key) == AddPrefix(ops[j].key)
      ensures ops[w].value == ops[j].found.value.value
    {
      var k := AddPrefix(ops[j].key);
      assert Step(true, states[j], ops[j], states[j + 1]) && Step(true, states[i], ops[i], states[i + 1]);
      RunKeepsInvariant(states, ops, j);
      PrefixIsKept(ops[j].key);
      w := EntryWasWritten(true, states, ops, j, k);
      RequestsGrow(true, states, ops, i + 1, j);
      var at := |states[i].requests|;
      assert states[j].requests[at] == ops[i].request;
      assert Fresh(states[j].requests, k, states[j].entries[k]);
      if w != -1 && w <= i {
        RequestsGrow(true, states, ops, w, i);
      }
    }

    /** An entry that is in the memory but was not some operations earlier was written in between. */
    lemma {:induction false} WrittenBetween(skip: bool, states: seq<State>, ops: seq<Op>, i: nat, n: nat, k: string)
      returns (w: nat)
      requires Run(skip, states, ops) && i <= n < |states| && k !in states[i].entries && k in states[n].entries
      ensures i <= w < n && ops[w].Write? && AddPrefix(ops[w].key) == k && states[n].entries[k].value == ops[w].value
    {
      assert Step(skip, states[n - 1], ops[n - 1], states[n]);
      if k in states[n - 1].entries && states[n].entries[k] == states[n - 1].entries[k] {
        w := WrittenBetween(skip, states, ops, i, n - 1, k);
      } else {
        w := n - 1;
      }
    }

    /** Whether errors are skipped or not, and whatever the memory matches: a read that returns an entry
        from before a request that hits it needs that request to have failed. */
    lemma StaleReadNeedsFailure(skip: bool, states: seq<State>, ops: seq<Op>, i: nat, j: nat) returns (w: nat)
      requires Run(skip, states, ops) && i < j < |ops|
      requires ops[j].Read? && ops[j].found.Some?
      requires ops[i].Invalidate? && ops[i].carried && Hits(ops[i].request, AddPrefix(ops[j].key))
      ensures i < w < j && ops[w].Write? && AddPrefix(ops[w].key) == AddPrefix(ops[j].key)
      ensures ops[w].value == ops[j].found.value.value
    {
      var k := AddPrefix(ops[j].key);
      assert Step(skip, states[j], ops[j], states[j + 1]) && Step(skip, states[i], ops[i], states[i + 1]);
      PrefixIsKept(ops[j].key);
      w := WrittenBetween(skip, states, ops, i + 1, j, k);
    }

    /** Without skipping errors the promise does not hold: a failed request can be followed by a read
        that returns the entry it was to invalidate. */
    lemma UnskippedErrorsLeaveEntries(key: string) returns (states: seq<State>, ops: seq<Op>)
      ensures Run(false, states, ops) && |ops| == 3
      ensures ops[0].Write? && ops[1] == Invalidate(Single(key), false) && ops[2].Read? && ops[2].found.Some?
      ensures Hits(ops[1].request, AddPrefix(ops[2].key)) && ops[2].found.value.value == ops[0].value
    {
      var entry := Entry(7, 0);
      var full: Entries := map[AddPrefix(key) := entry];
      ops := [Write(key, 7), Invalidate(Single(key), false), Read(key, Some(entry))];
      states := [State(map[], false, []), State(full, false, []),
                 State(full, false, [Single(key)]), State(full, false, [Single(key)])];
      assert Step(false, states[0], ops[0], states[1]);
      assert Step(false, states[1], ops[1], states[2]);
      assert Step(false, states[2], ops[2], states[3]);
    }
  }
}

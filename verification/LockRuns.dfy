/** Runs of an expiring token lock: what every implementation of it keeps.
    packages/core/memory/in-memory.ts, packages/redis/redis-memory.ts */
module LockRuns {
  /** An entry of the lock table. It expires after `until`. */
  datatype Holder = Holder(token: int, until: int)

  type Table = map<string, Holder>

  datatype Event =
    | Granted(resource: string, token: int, at: int, until: int)
    | Refused(resource: string, at: int)
    | Released(resource: string, token: int, at: int)

  type History = seq<Event>

  predicate Ends(e: Event, grant: Event)
    requires grant.Granted?
  {
    e.Released? && e.resource == grant.resource && e.token == grant.token
  }

  /** The i-th event granted the lock, which since then neither was released nor has expired. */
  ghost predicate Holds(history: History, i: int, now: int) {
    && 0 <= i < |history| && history[i].Granted? && now <= history[i].until
    && forall j :: i < j < |history| ==> !Ends(history[j], history[i])
  }

  ghost predicate Held(history: History, resource: string, now: int) {
    exists i :: Holds(history, i, now) && history[i].resource == resource
  }

  /** Locks are granted exactly when nobody holds them. */
  ghost predicate Legal(history: History) {
    forall i :: 0 <= i < |history| ==>
      (history[i].Granted? ==> !Held(history[..i], history[i].resource, history[i].at)) &&
      (history[i].Refused? ==> Held(history[..i], history[i].resource, history[i].at))
  }

  ghost predicate Past(history: History, now: int) {
    forall i :: 0 <= i < |history| ==> history[i].at <= now
  }

  ghost predicate Fresh(history: History, token: int) {
    forall i :: 0 <= i < |history| && history[i].Granted? ==> history[i].token != token
  }

  ghost predicate Lists(table: Table, history: History, i: int)
    requires 0 <= i < |history| && history[i].Granted?
  {
    history[i].resource in table && table[history[i].resource] == Holder(history[i].token, history[i].until)
  }

  /** The unexpired entries of the table are the locks held. */
  ghost predicate Shows(table: Table, history: History, now: int) {
    && (forall i :: Holds(history, i, now) ==> Lists(table, history, i))
    && (forall r :: r in table && now <= table[r].until ==>
          exists i :: Holds(history, i, now) && history[i].resource == r && Lists(table, history, i))
  }

  /** What an implementation keeps between its steps. */
  ghost predicate Sound(table: Table, history: History, now: int) {
    Legal(history) && Past(history, now) && Shows(table, history, now)
  }

  /** At any time at most one holder has the lock of a resource. */
  lemma AtMostOneHolder(history: History, now: int, i: int, j: int)
    requires Legal(history) && Past(history, now)
    requires Holds(history, i, now) && Holds(history, j, now) && history[i].resource == history[j].resource
    ensures i == j
  {
    if i < j {
      HeldBefore(history, now, i, j);
    } else if j < i {
      HeldBefore(history, now, j, i);
    }
  }

  lemma HeldBefore(history: History, now: int, i: int, j: int)
    requires Past(history, now) && Holds(history, i, now) && i < j < |history|
    ensures Held(history[..j], history[i].resource, history[j].at)
  {
    assert Holds(history[..j], i, history[j].at);
  }

  lemma TimePasses(table: Table, history: History, now: int, later: int)
    requires Sound(table, history, now) && now <= later
    ensures Sound(table, history, later)
  {
    forall i | Holds(history, i, later) ensures Lists(table, history, i) {
      assert Holds(history, i, now);
    }
    forall r | r in table && later <= table[r].until
      ensures exists i :: Holds(history, i, later) && history[i].resource == r && Lists(table, history, i)
    {
      var i :| Holds(history, i, now) && history[i].resource == r && Lists(table, history, i);
      assert Holds(history, i, later);
    }
  }

  /** Expired entries may be dropped at any time. */
  lemma Dropped(table: Table, history: History, now: int, less: Table)
    requires Sound(table, history, now)
    requires forall r :: r in less ==> r in table && less[r] == table[r]
    requires forall r :: r in table && now <= table[r].until ==> r in less
    ensures Sound(less, history, now)
  {
    forall r | r in less && now <= less[r].until
      ensures exists i :: Holds(history, i, now) && history[i].resource == r && Lists(less, history, i)
    {
      var i :| Holds(history, i, now) && history[i].resource == r && Lists(table, history, i);
      assert Lists(less, history, i);
    }
  }

  lemma LegalOneMore(history: History, e: Event, now: int)
    requires Legal(history) && Past(history, now) && e.at == now
    requires e.Granted? ==> !Held(history, e.resource, now)
    requires e.Refused? ==> Held(history, e.resource, now)
    ensures Legal(history + [e]) && Past(history + [e], now)
  {
    var more := history + [e];
    forall i | 0 <= i < |more|
      ensures (more[i].Granted? ==> !Held(more[..i], more[i].resource, more[i].at)) &&
              (more[i].Refused? ==> Held(more[..i], more[i].resource, more[i].at))
    {
      if i == |history| {
        assert more[..i] == history;
      } else {
        assert more[..i] == history[..i] && more[i] == history[i];
      }
    }
  }

  lemma HoldsOneMore(history: History, e: Event, i: int, now: int)
    requires 0 <= i < |history|
    ensures Holds(history + [e], i, now) <==> Holds(history, i, now) && !Ends(e, history[i])
  {
    var more := history + [e];
    assert more[i] == history[i] && more[|history|] == e;
    forall j | i < j < |history| ensures more[j] == history[j] {}
    if Holds(history, i, now) && !Ends(e, history[i]) {
      forall j | i < j < |more| ensures !Ends(more[j], more[i]) {
        assert j < |history| ==> !Ends(history[j], history[i]);
      }
    }
    if Holds(more, i, now) {
      forall j | i < j < |history| ensures !Ends(history[j], history[i]) {
        assert !Ends(more[j], more[i]);
      }
    }
  }

  /** Without an unexpired entry the lock is granted. */
  lemma Grants(table: Table, history: History, now: int, resource: string, token: int, until: int)
    requires Sound(table, history, now) && Fresh(history, token)
    requires resource in table ==> table[resource].until < now
    ensures !Held(history, resource, now)
    ensures Sound(table[resource := Holder(token, until)], history + [Granted(resource, token, now, until)], now)
  {
    var e := Granted(resource, token, now, until);
    var next, more := table[resource := Holder(token, until)], history + [e];
    LegalOneMore(history, e, now);
    forall i | Holds(more, i, now) ensures Lists(next, more, i) {
      if i < |history| {
        HoldsOneMore(history, e, i, now);
        assert Lists(table, history, i);
      }
    }
    forall r | r in next && now <= next[r].until
      ensures exists i :: Holds(more, i, now) && more[i].resource == r && Lists(next, more, i)
    {
      if r == resource {
        assert Holds(more, |history|, now) && Lists(next, more, |history|);
      } else {
        var i :| Holds(history, i, now) && history[i].resource == r && Lists(table, history, i);
        HoldsOneMore(history, e, i, now);
        assert Lists(next, more, i);
      }
    }
  }

  /** With one it is refused. */
  lemma Refuses(table: Table, history: History, now: int, resource: string)
    requires Sound(table, history, now) && resource in table && now <= table[resource].until
    ensures Held(history, resource, now) && Sound(table, history + [Refused(resource, now)], now)
  {
    var e := Refused(resource, now);
    LegalOneMore(history, e, now);
    SameHolds(table, history, e, now);
  }

  lemma SameHolds(table: Table, history: History, e: Event, now: int)
    requires Shows(table, history, now) && !e.Granted?
    requires forall i :: Holds(history, i, now) ==> !Ends(e, history[i])
    ensures Shows(table, history + [e], now)
  {
    var more := history + [e];
    forall i | Holds(more, i, now) ensures Lists(table, more, i) {
      assert i < |history|;
      HoldsOneMore(history, e, i, now);
    }
    forall r | r in table && now <= table[r].until
      ensures exists i :: Holds(more, i, now) && more[i].resource == r && Lists(table, more, i)
    {
      var i :| Holds(history, i, now) && history[i].resource == r && Lists(table, history, i);
      HoldsOneMore(history, e, i, now);
    }
  }

  /** A release removes the entry that has the token, if any. */
  lemma Releases(table: Table, history: History, now: int, resource: string, token: int)
    requires Sound(table, history, now)
    ensures
      var next := if resource in table && table[resource].token == token then table - {resource} else table;
      Sound(next, history + [Released(resource, token, now)], now)
  {
    var e := Released(resource, token, now);
    var more := history + [e];
    LegalOneMore(history, e, now);
    if resource in table && table[resource].token == token {
      var next := table - {resource};
      forall i | Holds(more, i, now) ensures Lists(next, more, i) {
        assert i < |history|;
        HoldsOneMore(history, e, i, now);
        assert Lists(table, history, i);
      }
      forall r | r in next && now <= next[r].until
        ensures exists i :: Holds(more, i, now) && more[i].resource == r && Lists(next, more, i)
      {
        var i :| Holds(history, i, now) && history[i].resource == r && Lists(table, history, i);
        HoldsOneMore(history, e, i, now);
        assert Lists(next, more, i);
      }
    } else {
      forall i | Holds(history, i, now) ensures !Ends(e, history[i]) {
        assert Lists(table, history, i);
      }
      SameHolds(table, history, e, now);
    }
  }

  /** A release with another token, as by a holder whose lock expired and was taken since, ends no hold. */
  lemma StaleReleaseEndsNothing(history: History, now: int, i: int, resource: string, token: int)
    requires Holds(history, i, now) && (history[i].resource != resource || history[i].token != token)
    ensures Holds(history + [Released(resource, token, now)], i, now)
  {
    HoldsOneMore(history, Released(resource, token, now), i, now);
  }

  /** The refused attempts are at least the delay apart, and from the given time. */
  ghost predicate Paced(history: History, refusals: seq<nat>, delay: int, time: int) {
    && (forall k :: 0 <= k < |refusals| ==> refusals[k] < |history| && history[refusals[k]].at + delay <= time)
    && (forall k, l :: 0 <= k < l < |refusals| ==> history[refusals[k]].at + delay <= history[refusals[l]].at)
  }

  lemma NonePaced(history: History, delay: int, time: int)
    ensures Paced(history, [], delay, time)
  {}

  lemma PacedStays(before: History, refusals: seq<nat>, delay: int, history: History, time: int)
    requires Paced(before, refusals, delay, time) && before <= history
    ensures Paced(history, refusals, delay, time)
  {
    forall i | 0 <= i < |before| ensures history[i] == before[i] {}
  }

  lemma PacedOneMore(before: History, refusals: seq<nat>, delay: int, e: Event, history: History, later: int)
    requires Paced(before, refusals, delay, e.at) && before + [e] <= history
    requires e.at <= later && e.at + delay <= later
    ensures Paced(history, refusals + [|before|], delay, later)
  {
    forall i | 0 <= i < |before| ensures history[i] == before[i] {
      assert (before + [e])[i] == before[i];
    }
    assert (before + [e])[|before|] == e;
  }

  ghost predicate RefusedAt(history: History, i: nat, resourceKey: string) {
    i < |history| && history[i].Refused? && history[i].resource == resourceKey
  }

  lemma StillFresh(history: History, e: Event, token: int)
    requires Fresh(history, token) && !e.Granted?
    ensures Fresh(history + [e], token)
  {}
}

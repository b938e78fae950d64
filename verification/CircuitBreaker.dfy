/** The circuit breaker. packages/redis/circuit-breaker.ts */
module CircuitBreakers {
  import opened Options

  datatype Event = Asked(at: int, granted: bool) | Succeeded(at: int) | Failed(at: int)

  datatype Notification = Opened(failures: int) | Closed

  /** The failures since the last success. */
  ghost function Failures(log: seq<Event>): nat {
    if log == [] || log[|log| - 1].Succeeded? then 0
    else Failures(log[..|log| - 1]) + if log[|log| - 1].Failed? then 1 else 0
  }

  ghost predicate OpenAfter(threshold: int, log: seq<Event>) {
    threshold > 0 && Failures(log) >= threshold
  }

  /** The failure that opened the breaker. */
  ghost function Opening(threshold: int, log: seq<Event>): (i: nat)
    requires OpenAfter(threshold, log)
    ensures i < |log| && log[i].Failed? && OpenAfter(threshold, log[..i + 1]) && !OpenAfter(threshold, log[..i])
  {
    var init := log[..|log| - 1];
    if OpenAfter(threshold, init) then
      var i := Opening(threshold, init);
      assert log[..i + 1] == init[..i + 1] && log[..i] == init[..i];
      i
    else
      assert log[..|log|] == log;
      |log| - 1
  }

  /** The calls granted from the i-th event on. */
  ghost function GrantedSince(log: seq<Event>, i: nat): nat {
    if |log| <= i then 0
    else GrantedSince(log[..|log| - 1], i) + if log[|log| - 1].Asked? && log[|log| - 1].granted then 1 else 0
  }

  /** While open, the calls granted are a cooldown apart from each other and from the opening. */
  ghost predicate Spaced(threshold: int, cooldown: int, log: seq<Event>, now: int) {
    OpenAfter(threshold, log) ==>
      var i := Opening(threshold, log);
      GrantedSince(log, i) * cooldown <= now - log[i].at
  }

  /** The time of the last call granted or failure. */
  ghost function LastTry(log: seq<Event>): int {
    if log == [] then 0
    else
      var last := log[|log| - 1];
      if last.Failed? || (last.Asked? && last.granted) then last.at else LastTry(log[..|log| - 1])
  }

  ghost predicate Alternating(notified: seq<Notification>) {
    forall i :: 0 <= i < |notified| ==> (notified[i].Opened? <==> i % 2 == 0)
  }

  lemma OneMore(threshold: int, log: seq<Event>, e: Event)
    ensures Failures(log + [e]) == if e.Succeeded? then 0 else Failures(log) + if e.Failed? then 1 else 0
    ensures OpenAfter(threshold, log) && !e.Succeeded? ==>
              OpenAfter(threshold, log + [e]) && Opening(threshold, log + [e]) == Opening(threshold, log) &&
              GrantedSince(log + [e], Opening(threshold, log)) ==
                GrantedSince(log, Opening(threshold, log)) + if e.Asked? && e.granted then 1 else 0
    ensures !OpenAfter(threshold, log) && OpenAfter(threshold, log + [e]) ==>
              Opening(threshold, log + [e]) == |log| && e.Failed? && GrantedSince(log + [e], |log|) == 0
    ensures LastTry(log + [e]) == if e.Failed? || (e.Asked? && e.granted) then e.at else LastTry(log)
  {
    var more := log + [e];
    assert more[..|more| - 1] == log;
  }

  class CircuitBreaker {
    const threshold: int
    const cooldown: int
    var failures: int
    var openedAt: Option<int>
    /** The calls made to the listener. */
    var notified: seq<Notification>
    ghost var log: seq<Event>
    ghost var clock: int

    ghost predicate Valid()
      reads this
    {
      && failures == (if threshold > 0 then Failures(log) else 0)
      && (openedAt.Some? <==> OpenAfter(threshold, log))
      && (openedAt.Some? ==>
            openedAt.value == LastTry(log) <= clock && Spaced(threshold, cooldown, log, openedAt.value))
      && Alternating(notified) && (openedAt.Some? <==> |notified| % 2 == 1)
    }

    constructor (threshold: int, cooldown: int)
      ensures Valid() && this.threshold == threshold && this.cooldown == cooldown
      ensures openedAt == None && notified == [] && log == [] && clock == 0
    {
      this.threshold, this.cooldown := threshold, cooldown;
      failures, openedAt, notified, log, clock := 0, None, [], [], 0;
    }

    function Remaining(now: int): (ms: int)
      reads this
      ensures ms >= 0
    {
      if openedAt.None? then 0
      else if openedAt.value + cooldown - now > 0 then openedAt.value + cooldown - now else 0
    }

    predicate IsOpen(now: int)
      reads this
    {
      openedAt.Some? && Remaining(now) > 0
    }

    /** What is left to wait for the next call to be let through: a cooldown from the last one that was, or
        from the last failure. */
    lemma RemainingIs(now: int)
      requires Valid()
      ensures Remaining(now) == 0 <==> !IsOpen(now)
      ensures IsOpen(now) <==> OpenAfter(threshold, log) && now < LastTry(log) + cooldown
      ensures IsOpen(now) ==> now + Remaining(now) == LastTry(log) + cooldown
    {}

    /** Grants every call while closed, and one call per cooldown while open. */
    method Acquire(now: int) returns (granted: bool)
      requires Valid() && clock <= now
      modifies this
      ensures Valid() && clock == now && log == old(log) + [Asked(now, granted)]
      ensures OpenAfter(threshold, log) <==> OpenAfter(threshold, old(log))
      ensures !OpenAfter(threshold, log) ==> granted
      ensures OpenAfter(threshold, log) ==> (granted <==> LastTry(old(log)) + cooldown <= now)
      ensures Spaced(threshold, cooldown, log, now) && notified == old(notified)
    {
      hide Failures, GrantedSince, Opening, LastTry;
      OneMore(threshold, log, Asked(now, true));
      OneMore(threshold, log, Asked(now, false));
      granted := !IsOpen(now);
      if granted && openedAt.Some? {
        openedAt := Some(now);
      }
      log, clock := log + [Asked(now, granted)], now;
    }

    /** Closes the breaker, and tells so if it was open. */
    method Success(now: int)
      requires Valid() && clock <= now
      modifies this
      ensures Valid() && clock == now && log == old(log) + [Succeeded(now)] && !OpenAfter(threshold, log)
      ensures notified == if OpenAfter(threshold, old(log)) then old(notified) + [Closed] else old(notified)
    {
      hide GrantedSince, Opening, LastTry;
      OneMore(threshold, log, Succeeded(now));
      failures := 0;
      if openedAt.Some? {
        openedAt := None;
        notified := notified + [Closed];
      }
      log, clock := log + [Succeeded(now)], now;
    }

    /** Opens the breaker at the threshold, and then tells so once, with the threshold as the count. */
    method Failure(now: int)
      requires Valid() && clock <= now
      modifies this
      ensures Valid() && clock == now && log == old(log) + [Failed(now)]
      ensures OpenAfter(threshold, log) ==> Spaced(threshold, cooldown, log, now)
      ensures notified == if !OpenAfter(threshold, old(log)) && OpenAfter(threshold, log)
                          then old(notified) + [Opened(threshold)] else old(notified)
    {
      hide Failures, GrantedSince, Opening, LastTry;
      OneMore(threshold, log, Failed(now));
      log, clock := log + [Failed(now)], now;
      if threshold <= 0 {
        return;
      }
      failures := failures + 1;
      if openedAt.Some? {
        openedAt := Some(now);
      } else if failures >= threshold {
        openedAt := Some(now);
        notified := notified + [Opened(failures)];
      }
    }
  }
}

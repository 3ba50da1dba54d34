/** The sliding-window log: `RequestTimestamps` keeps the timestamps of the
    admitted calls, oldest first; `SlidingWindowLogsRateLimiter` keeps one
    `RequestTimestamps` per user id. */
module SlidingWindowLog {
  import opened RateLimitResults

  const DefaultRequests := 100
  const DefaultWindowTimeInSec := 60

  /** Oldest first, never decreasing. */
  ghost predicate Sorted(s: seq<int>)
  {
    forall i, j :: 0 <= i <= j < |s| ==> s[i] <= s[j]
  }

  /** No timestamp lies after `now`. */
  ghost predicate NotAfter(s: seq<int>, now: int)
  {
    forall i :: 0 <= i < |s| ==> s[i] <= now
  }

  /** The log after `evictOlderTimestamps(now)`: the front is dropped while
      it is more than `window` seconds old. The result is a suffix of the
      log, every dropped entry is strictly older than the window (so an entry
      exactly `window` seconds old is kept), and the first kept entry is
      within the window. */
  function EvictStale(log: seq<int>, now: int, window: int): (r: seq<int>)
    ensures |r| <= |log|
    ensures forall i :: 0 <= i < |log| - |r| ==> now - log[i] > window
    ensures r == [] || now - r[0] <= window
    decreases |log|
  {
    if |log| > 0 && now - log[0] > window then EvictStale(log[1..], now, window) else log
  }

  /** What eviction keeps is the log with its first entries dropped. */
  lemma {:induction false} EvictStaleSuffix(log: seq<int>, now: int, window: int)
    ensures EvictStale(log, now, window) == log[|log| - |EvictStale(log, now, window)|..]
    decreases |log|
  {
    if |log| > 0 && now - log[0] > window {
      EvictStaleSuffix(log[1..], now, window);
      assert log[1..][|log| - 1 - |EvictStale(log[1..], now, window)|..]
          == log[|log| - |EvictStale(log[1..], now, window)|..];
    }
  }

  /** Eviction at a fixed time leaves nothing more to evict. */
  lemma EvictStaleIdempotent(log: seq<int>, now: int, window: int)
    ensures EvictStale(EvictStale(log, now, window), now, window) == EvictStale(log, now, window)
  {
  }

  /** On a sorted log with nothing after `now`, what eviction keeps lies in
      `[now - window, now]` and is still sorted. */
  lemma EvictStaleWithinWindow(log: seq<int>, now: int, window: int)
    requires Sorted(log) && NotAfter(log, now)
    ensures Sorted(EvictStale(log, now, window))
    ensures forall i :: 0 <= i < |EvictStale(log, now, window)| ==>
      now - window <= EvictStale(log, now, window)[i] <= now
  {
    var r := EvictStale(log, now, window);
    var d := |log| - |r|;
    EvictStaleSuffix(log, now, window);
    SortedSuffix(log, d);
    forall i | 0 <= i < |r|
      ensures now - window <= r[i] <= now
    {
      assert r[0] <= r[i];
      assert r[i] == log[d + i];
    }
  }

  lemma SortedSuffix(s: seq<int>, d: nat)
    requires Sorted(s) && d <= |s|
    ensures Sorted(s[d..])
  {
  }

  lemma SortedAppend(s: seq<int>, x: int)
    requires Sorted(s) && NotAfter(s, x)
    ensures Sorted(s + [x]) && NotAfter(s + [x], x)
  {
  }

  /** When every entry is more than `window` seconds old, eviction empties the log. */
  lemma {:induction false} EvictStaleAllStale(log: seq<int>, now: int, window: int)
    requires forall i :: 0 <= i < |log| ==> now - log[i] > window
    ensures EvictStale(log, now, window) == []
    decreases |log|
  {
    if |log| > 0 {
      EvictStaleAllStale(log[1..], now, window);
    }
  }

  /** The decision of `shouldAllowServiceCall` at `now`: after eviction the
      log holds fewer entries than the limit. */
  function LogAllows(log: seq<int>, now: int, window: int, requestLimit: int): bool
  {
    |EvictStale(log, now, window)| < requestLimit
  }

  /** The log after that call: evicted, and `now` appended only when allowed. */
  function LogAfterCall(log: seq<int>, now: int, window: int, requestLimit: int): seq<int>
  {
    var kept := EvictStale(log, now, window);
    if |kept| < requestLimit then kept + [now] else kept
  }

  /** What the registry keeps true of each log. */
  ghost predicate LogInvariant(log: seq<int>, requestLimit: int)
  {
    Sorted(log) && (|log| <= requestLimit || log == [])
  }

  /** A call records `now` only when it is allowed: an allowed call grows the
      evicted log by exactly `now`, a rejected one only evicts. A call keeps
      the log sorted and never longer than the limit. */
  lemma LogCallPreservesInvariant(log: seq<int>, now: int, window: int, requestLimit: int)
    requires LogInvariant(log, requestLimit) && NotAfter(log, now)
    ensures LogAllows(log, now, window, requestLimit) ==>
      LogAfterCall(log, now, window, requestLimit) == EvictStale(log, now, window) + [now]
    ensures !LogAllows(log, now, window, requestLimit) ==>
      LogAfterCall(log, now, window, requestLimit) == EvictStale(log, now, window)
    ensures LogInvariant(LogAfterCall(log, now, window, requestLimit), requestLimit)
    ensures NotAfter(LogAfterCall(log, now, window, requestLimit), now)
  {
    var kept := EvictStale(log, now, window);
    EvictStaleWithinWindow(log, now, window);
    if |kept| < requestLimit {
      SortedAppend(kept, now);
    }
  }

  /** `k` calls at the same instant, starting from `log`. */
  function LogBurst(log: seq<int>, now: int, window: int, requestLimit: int, k: nat): seq<int>
  {
    if k == 0 then log
    else LogAfterCall(LogBurst(log, now, window, requestLimit, k - 1), now, window, requestLimit)
  }

  /** A call on a log with nothing stale and room left appends `now`. */
  lemma CallWithoutStaleEntries(log: seq<int>, now: int, window: int, requestLimit: int)
    requires log == [] || now - log[0] <= window
    requires |log| < requestLimit
    ensures LogAfterCall(log, now, window, requestLimit) == log + [now]
  {
  }

  /** Up to the limit, `k` calls at one instant on a fresh user leave `k`
      copies of that instant in the log. */
  lemma {:induction false} LogBurstFills(now: int, window: int, requestLimit: int, k: nat)
    requires 0 <= window && k <= requestLimit
    ensures |LogBurst([], now, window, requestLimit, k)| == k
    ensures forall i :: 0 <= i < k ==> LogBurst([], now, window, requestLimit, k)[i] == now
  {
    if k > 0 {
      LogBurstFills(now, window, requestLimit, k - 1);
      var prev := LogBurst([], now, window, requestLimit, k - 1);
      var next := prev + [now];
      assert LogBurst([], now, window, requestLimit, k) == next by {
        assert prev == [] || now - prev[0] <= window;
        CallWithoutStaleEntries(prev, now, window, requestLimit);
      }
      assert forall i :: 0 <= i < k ==> next[i] == now;
    }
  }

  /** For a fresh user with limit `N >= 1` and a window of at least zero,
      the first `N` calls at one instant are allowed and the next is rejected. */
  lemma LogFreshUserBurst(now: int, window: int, requestLimit: int, k: nat)
    requires 0 <= window && 1 <= requestLimit && k <= requestLimit
    ensures LogAllows(LogBurst([], now, window, requestLimit, k), now, window, requestLimit) <==> k < requestLimit
  {
    LogBurstFills(now, window, requestLimit, k);
  }

  /** Once `now` is more than `window` seconds past the newest entry of a
      sorted log, the log is emptied and the next call is allowed. */
  lemma FullWindowReset(log: seq<int>, now: int, window: int, requestLimit: int)
    requires Sorted(log) && 1 <= requestLimit
    requires log != [] ==> now - log[|log| - 1] > window
    ensures EvictStale(log, now, window) == []
    ensures LogAllows(log, now, window, requestLimit)
    ensures LogAfterCall(log, now, window, requestLimit) == [now]
  {
    EvictStaleAllStale(log, now, window);
  }

  /** A user with limit 3 and a 10-second window: three calls at time 0 are
      allowed, a fourth at time 0 is rejected and not recorded, and a call at
      time 11 is allowed again. */
  lemma LogExampleScenario()
    ensures LogAllows([], 0, 10, 3) && LogAfterCall([], 0, 10, 3) == [0]
    ensures LogAllows([0], 0, 10, 3) && LogAfterCall([0], 0, 10, 3) == [0, 0]
    ensures LogAllows([0, 0], 0, 10, 3) && LogAfterCall([0, 0], 0, 10, 3) == [0, 0, 0]
    ensures !LogAllows([0, 0, 0], 0, 10, 3) && LogAfterCall([0, 0, 0], 0, 10, 3) == [0, 0, 0]
    ensures LogAllows([0, 0, 0], 11, 10, 3) && LogAfterCall([0, 0, 0], 11, 10, 3) == [11]
  {
    assert EvictStale([0], 0, 10) == [0];
    assert EvictStale([0, 0], 0, 10) == [0, 0];
    assert EvictStale([0, 0, 0], 0, 10) == [0, 0, 0];
    EvictStaleAllStale([0, 0, 0], 11, 10);
  }

  // ---------------------------------------------------------------------
  // RequestTimestamps
  // ---------------------------------------------------------------------

  /** The per-user log of admitted calls. */
  class RequestTimestamps {
    const requestLimit: int
    const windowTimeInSec: int
    var timestamps: seq<int>

    constructor (requestLimit: int, windowTimeInSec: int)
      ensures this.requestLimit == requestLimit && this.windowTimeInSec == windowTimeInSec
      ensures timestamps == []
    {
      this.requestLimit := requestLimit;
      this.windowTimeInSec := windowTimeInSec;
      timestamps := [];
    }

    /** Pops from the front while the first entry is more than the window old. */
    method EvictOlderTimestamps(currentTimestamp: int)
      modifies this
      ensures timestamps == EvictStale(old(timestamps), currentTimestamp, windowTimeInSec)
    {
      while |timestamps| > 0 && currentTimestamp - timestamps[0] > windowTimeInSec
        invariant EvictStale(timestamps, currentTimestamp, windowTimeInSec)
               == EvictStale(old(timestamps), currentTimestamp, windowTimeInSec)
        decreases |timestamps|
      {
        timestamps := timestamps[1..];
      }
    }

    /** Appends one timestamp at the end. */
    method AddTimestamp(timestamp: int)
      modifies this
      ensures timestamps == old(timestamps) + [timestamp]
    {
      timestamps := timestamps + [timestamp];
    }

    /** Evicts, then answers whether fewer entries than the limit remain. */
    method ShouldAllowRequest(currentTimestamp: int) returns (allowed: bool)
      modifies this
      ensures timestamps == EvictStale(old(timestamps), currentTimestamp, windowTimeInSec)
      ensures allowed <==> LogAllows(old(timestamps), currentTimestamp, windowTimeInSec, requestLimit)
    {
      EvictOlderTimestamps(currentTimestamp);
      allowed := |timestamps| < requestLimit;
    }
  }

  // ---------------------------------------------------------------------
  // SlidingWindowLogsRateLimiter
  // ---------------------------------------------------------------------

  /** The registry: one log per user id. */
  class SlidingWindowLogsRateLimiter {
    var rateLimiterMap: map<int, RequestTimestamps>
    ghost var Repr: set<RequestTimestamps>

    /** Every log is sorted and no longer than its limit, and no two users
        share one. */
    ghost predicate Valid()
      reads this, Repr
    {
      && Repr == rateLimiterMap.Values
      && (forall u :: u in rateLimiterMap ==>
            LogInvariant(rateLimiterMap[u].timestamps, rateLimiterMap[u].requestLimit))
      && (forall u, v :: u in rateLimiterMap && v in rateLimiterMap && u != v ==>
            rateLimiterMap[u] != rateLimiterMap[v])
    }

    constructor ()
      ensures Valid() && rateLimiterMap == map[]
    {
      rateLimiterMap := map[];
      Repr := {};
    }

    /** Registers a fresh, empty log for `userId`, or fails when the id is
        already present and leaves the registry as it was. */
    method AddUser(userId: int, requests: int := DefaultRequests, windowTimeInSec: int := DefaultWindowTimeInSec)
      returns (r: Outcome)
      requires Valid()
      modifies this
      ensures Valid()
      ensures old(userId in rateLimiterMap) ==>
        r == Fail(UserAlreadyPresent) && rateLimiterMap == old(rateLimiterMap) && Repr == old(Repr)
      ensures old(userId !in rateLimiterMap) ==>
        && r == Pass
        && userId in rateLimiterMap
        && fresh(rateLimiterMap[userId])
        && rateLimiterMap == old(rateLimiterMap)[userId := rateLimiterMap[userId]]
        && rateLimiterMap[userId].requestLimit == requests
        && rateLimiterMap[userId].windowTimeInSec == windowTimeInSec
        && rateLimiterMap[userId].timestamps == []
    {
      if userId in rateLimiterMap {
        return Fail(UserAlreadyPresent);
      }
      var log := new RequestTimestamps(requests, windowTimeInSec);
      rateLimiterMap := rateLimiterMap[userId := log];
      Repr := rateLimiterMap.Values;
      r := Pass;
    }

    /** Drops the log of `userId`; an absent id is not an error. */
    method RemoveUser(userId: int)
      requires Valid()
      modifies this
      ensures Valid()
      ensures rateLimiterMap == old(rateLimiterMap) - {userId}
    {
      rateLimiterMap := rateLimiterMap - {userId};
      Repr := rateLimiterMap.Values;
    }

    /** Evicts, decides on the evicted log and records `now` only when the
        call is allowed. Fails on an unregistered id. The clock must not run
        backwards: `now` is not before any stored timestamp of the user.
        Only this user's log changes, it stays within the limit, and it
        holds nothing after `now`, so a further call at `now` may follow. */
    method ShouldAllowServiceCall(userId: int, now: int) returns (r: Result<bool>)
      requires Valid()
      requires userId in rateLimiterMap ==> NotAfter(rateLimiterMap[userId].timestamps, now)
      modifies if userId in rateLimiterMap then {rateLimiterMap[userId]} else {}
      ensures Valid() && rateLimiterMap == old(rateLimiterMap) && Repr == old(Repr)
      ensures userId !in rateLimiterMap ==> r == Err(UserNotPresent)
      ensures userId in rateLimiterMap ==>
        var log := rateLimiterMap[userId];
        && r == Ok(LogAllows(old(log.timestamps), now, log.windowTimeInSec, log.requestLimit))
        && log.timestamps == LogAfterCall(old(log.timestamps), now, log.windowTimeInSec, log.requestLimit)
        && (|log.timestamps| <= log.requestLimit || log.timestamps == [])
      ensures userId in rateLimiterMap ==> NotAfter(rateLimiterMap[userId].timestamps, now)
    {
      if userId !in rateLimiterMap {
        return Err(UserNotPresent);
      }
      var userTimestamps := rateLimiterMap[userId];
      ghost var before := userTimestamps.timestamps;
      LogCallPreservesInvariant(before, now, userTimestamps.windowTimeInSec, userTimestamps.requestLimit);
      var allowed := userTimestamps.ShouldAllowRequest(now);
      if !allowed {
        return Ok(false);
      }
      userTimestamps.AddTimestamp(now);
      r := Ok(true);
    }
  }
}

# Per-user rate limiters in Dafny

This project models the two rate limiters of a small Kotlin library. Both
decide, for each service call of a registered user, whether the call fits
the user's quota of `requestLimit` calls per `windowTimeInSec` seconds.

- **Sliding-window counter** (`src/SlidingWindowCounter.kt`, module
  `SlidingWindowCounter`). `RequestCounters` keeps a map from bucket index
  to call count, plus a running total `totalCounts`. Each call evicts old
  buckets, records itself, and then compares the total with the limit, so a
  rejected call is counted too. `SlidingWindowCounterLimiter` maps each user
  id to one `RequestCounters`.
- **Sliding-window log** (`src/SlidingWindowLog.kt`, module
  `SlidingWindowLog`). `RequestTimestamps` keeps the timestamps of admitted
  calls, oldest first. Each call pops stale entries from the front, decides
  on the remaining length, and records itself only when it is allowed.
  `SlidingWindowLogsRateLimiter` maps each user id to one `RequestTimestamps`.

Both per-user states and both registries are classes whose methods update
their fields, as in the Kotlin code. The pure functions beside them
(`KeepFrom`, `CallCounts`, `EvictStale`, `LogAfterCall`, ...) say what one
call does to a state given as a value. The methods are proved equal to
those functions. The lemmas then state the limiters' properties about the
functions.

The wall clock becomes a parameter `now: int` of `ShouldAllowServiceCall`.
The exceptions become values of `RateLimitResults.Result` and
`RateLimitResults.Outcome` (module `RateLimitResults`, file `common.dfy`).

Design points taken from the code:

- `getBucket` is kept exactly as written: `(t / W) * (W / bucketSize)`,
  using Kotlin's truncating division (`KotlinDiv`). The bucket index is
  therefore the window number times a spacing factor, not a
  `W / bucketSize`-second slot. Eviction removes only the buckets of windows
  before the window of `now - W`. `EvictionHorizon` proves that a call
  survives for at least `W` and less than `2 * W` seconds.
  `SmearExample` shows a call 119 seconds old still counted under the
  default 60-second window. The header comment of
  `src/SlidingWindowCounter.kt` (lines 1-5) describes ten buckets of 6
  seconds each, which would smear by at most one bucket width. The model
  follows the code, and "## Findings" records the difference.
- With `W < bucketSize` the factor is 0. Every call then lands in bucket 0,
  nothing is ever evicted, and the total only grows
  (`DegenerateNeverEvicts`).
- A zero `windowTimeInSec` makes `getBucket` divide by zero. The counter
  registry returns `Err(DivisionByZero)` before it changes anything, where
  Kotlin throws `ArithmeticException` from `evictOlderBuckets`.
- The two limiters differ on purpose, and the model keeps the difference.
  The counter records before it decides: with limit `N`, only the first
  `N - 1` calls at one instant are allowed (`CounterFreshUserBurst`). The
  log decides before it records: the first `N` calls are allowed
  (`LogFreshUserBurst`).

## Model

| member | source | states |
|---|---|---|
| `SlidingWindowCounter.KotlinDiv` | src/SlidingWindowCounter.kt:27-28 | Kotlin's `/` rounds the magnitude down, and its sign is the product of the operands' signs (truncation toward zero, so `now - W < 0` is handled as Kotlin does) |
| `SlidingWindowCounter.KotlinDivMonotone` | src/SlidingWindowCounter.kt:28 | for a positive divisor, truncating division never decreases as the dividend grows, including across zero |
| `SlidingWindowCounter.GetBucket` | src/SlidingWindowCounter.kt:26-31 | when the window is shorter than the bucket size (factor 0) every timestamp maps to bucket 0; for non-negative times and positive sizes the index is not negative |
| `SlidingWindowCounter.GetBucketMonotone` | src/SlidingWindowCounter.kt:26-31 | a later timestamp never maps to an earlier bucket, so the bucket recorded at `now` is never below the eviction threshold `getBucket(now - W)` |
| `SlidingWindowCounter.EvictionHorizon` | src/SlidingWindowCounter.kt:14-31 | with `now >= W`, eviction never removes a call made within the last `W` seconds, and nothing older than `2 * W` seconds survives it |
| `SlidingWindowCounter.SmearExample` | src/SlidingWindowCounter.kt:14-31 | with `W = 60` and 10 buckets, a call at time 60 is still in a live bucket at time 179 |
| `SlidingWindowCounter.SumRemove` | src/SlidingWindowCounter.kt:18-21 | removing any one bucket takes exactly that bucket's count off the sum of all counts, which is what keeps `totalCounts` equal to that sum during eviction |
| `SlidingWindowCounter.SumUpdate` | src/SlidingWindowCounter.kt:36-37 | setting one bucket's count changes the sum by exactly the difference, which is what keeps `totalCounts` equal to the sum when a bucket is incremented |
| `SlidingWindowCounter.SumAtLeastSize` | src/SlidingWindowCounter.kt:36-37 | when every bucket holds at least one call, the total is at least the number of buckets, hence never negative |
| `SlidingWindowCounter.KeepFromIdempotent` | src/SlidingWindowCounter.kt:14-24 | evicting twice at the same time is the same as evicting once |
| `SlidingWindowCounter.CallRecordsBeforeDeciding` | src/SlidingWindowCounter.kt:72-78 | a call adds exactly one to the total of the surviving buckets, whatever the decision (a rejected call is still counted), and keeps every bucket count at least 1 |
| `SlidingWindowCounter.DegenerateNeverEvicts` | src/SlidingWindowCounter.kt:14-31 | when the window is shorter than the bucket size, eviction removes nothing, bucket 0 is the only key, and every call adds one to the total |
| `SlidingWindowCounter.CounterBurstSingleBucket` | src/SlidingWindowCounter.kt:72-78 | `k` calls at one instant on a fresh user leave exactly one bucket, that of the instant, holding `k` |
| `SlidingWindowCounter.CounterFreshUserBurst` | src/SlidingWindowCounter.kt:72-78 | for a fresh user with limit `N`, the `(k+1)`-th call at one instant is allowed if and only if `k + 1 < N`, so only the first `N - 1` calls pass |
| `SlidingWindowCounter.CounterResetWhenAllStale` | src/SlidingWindowCounter.kt:14-31 | once every bucket lies below the eviction threshold of `now`, a call leaves only its own bucket at 1 and is allowed exactly when the limit exceeds 1 |
| `SlidingWindowCounter.CounterResetAfterTwoWindows` | src/SlidingWindowCounter.kt:14-31 | as written, when every bucket holds only calls at least `2 * W` seconds old, rejected ones included, the next call starts afresh and is allowed exactly when the limit exceeds 1 |
| `SlidingWindowCounter.CounterSilenceRejected` | src/SlidingWindowCounter.kt:26-31 | as written, with `W = 60`, 10 buckets and limit 2: calls at 60 (allowed) and 61 (rejected, counted) leave bucket 6 at 2, and a call at 179, more than `W` plus one bucket width later, is still rejected |
| `SlidingWindowCounter.BucketWidth` | src/SlidingWindowCounter.kt:1-5 | the bucket width `W / bucketSize` is at least 1 second and at most the window when `0 < bucketSize <= W` |
| `SlidingWindowCounter.IntendedBucket` | src/SlidingWindowCounter.kt:1-5 | the index of the bucket-width slot holding `t`, not negative for non-negative times |
| `SlidingWindowCounter.IntendedEvictionHorizon` | src/SlidingWindowCounter.kt:1-5 | with the intended buckets, a call within the last `W` seconds is never evicted and a surviving call is less than `W` plus one bucket width old |
| `SlidingWindowCounter.IntendedResetAfterSilence` | src/SlidingWindowCounter.kt:1-5 | with the intended buckets, when every bucket holds only calls at least `W` plus one bucket width old, the next call starts afresh and is allowed exactly when the limit exceeds 1 |
| `SlidingWindowCounter.IntendedSilenceAllowed` | src/SlidingWindowCounter.kt:1-5 | the scenario of `CounterSilenceRejected` with the intended buckets: the calls at 60 and 61 share slot 10, which is evicted at 179, so that call is allowed |
| `SlidingWindowCounter.RequestCounters.constructor` | src/SlidingWindowCounter.kt:9-12 | a new counter keeps the given limit, window and bucket size (default 10), has no buckets and a total of 0, and satisfies the invariant |
| `SlidingWindowCounter.RequestCounters.EvictOlderBuckets` | src/SlidingWindowCounter.kt:14-24 | afterwards no bucket lies below `getBucket(now - W)`, the buckets at or above it keep exactly their counts, and `totalCounts` still equals the sum of the counts |
| `SlidingWindowCounter.RequestCounters.IncrementBucketCount` | src/SlidingWindowCounter.kt:33-39 | the bucket of the timestamp grows by one (created at 1), no other bucket changes, and `totalCounts` grows by exactly one, keeping the invariant |
| `SlidingWindowCounter.RequestCounters.IsWithinRateLimit` | src/SlidingWindowCounter.kt:41-43 | reads only, and answers whether the calls held in the buckets are fewer than the limit |
| `SlidingWindowCounter.SlidingWindowCounterLimiter.constructor` | src/SlidingWindowCounter.kt:46-50 | a new registry holds no user |
| `SlidingWindowCounter.SlidingWindowCounterLimiter.AddUser` | src/SlidingWindowCounter.kt:53-60 | on a registered id it fails and leaves the registry unchanged; otherwise it adds a fresh, empty counter with the given limit and window (defaults 100 and 60) under that id only |
| `SlidingWindowCounter.SlidingWindowCounterLimiter.RemoveUser` | src/SlidingWindowCounter.kt:62-66 | the id is gone and every other entry is kept; an absent id is a no-op, so removal is idempotent |
| `SlidingWindowCounter.SlidingWindowCounterLimiter.ShouldAllowServiceCall` | src/SlidingWindowCounter.kt:72-79 | fails on an unregistered id, and on a zero window fails without touching the counter; otherwise the user's buckets become evict-then-record of the old ones, the answer is whether that recorded total is below the limit, and no other user's state changes |
| `SlidingWindowLog.EvictStale` | src/SlidingWindowLog.kt:8-14 | eviction keeps a suffix of the log; every dropped entry is strictly more than `W` seconds old, so an entry exactly `W` seconds old is kept; the first kept entry is within the window |
| `SlidingWindowLog.EvictStaleIdempotent` | src/SlidingWindowLog.kt:8-14 | evicting twice at the same time is the same as evicting once |
| `SlidingWindowLog.EvictStaleWithinWindow` | src/SlidingWindowLog.kt:10-11 | on a sorted log with nothing after `now`, every kept entry lies in `[now - W, now]` and the kept log is sorted |
| `SlidingWindowLog.EvictStaleAllStale` | src/SlidingWindowLog.kt:10-11 | when every entry is more than `W` seconds old, eviction empties the log |
| `SlidingWindowLog.LogCallPreservesInvariant` | src/SlidingWindowLog.kt:54-64 | an allowed call appends exactly `now` to the evicted log and a rejected call only evicts; either way the log stays sorted, is no longer than the limit, and holds nothing after `now` |
| `SlidingWindowLog.LogBurstFills` | src/SlidingWindowLog.kt:54-64 | up to the limit, `k` calls at one instant on a fresh user leave exactly `k` copies of that instant in the log |
| `SlidingWindowLog.LogFreshUserBurst` | src/SlidingWindowLog.kt:22-27 | for a fresh user with limit `N >= 1` and window at least 0, the first `N` calls at one instant are allowed and the `(N+1)`-th is rejected |
| `SlidingWindowLog.FullWindowReset` | src/SlidingWindowLog.kt:8-27 | once `now` is more than `W` seconds past the newest entry of a sorted log, eviction empties it, the call is allowed (limit at least 1) and the log becomes `[now]` |
| `SlidingWindowLog.LogExampleScenario` | src/SlidingWindowLog.kt:54-64 | with limit 3 and a 10-second window: three calls at time 0 are allowed, a fourth is rejected and not recorded, and a call at time 11 is allowed with the log reset to `[11]` |
| `SlidingWindowLog.RequestTimestamps.constructor` | src/SlidingWindowLog.kt:4-6 | a new log keeps the given limit and window and is empty |
| `SlidingWindowLog.RequestTimestamps.EvictOlderTimestamps` | src/SlidingWindowLog.kt:8-14 | the loop that pops from the front leaves exactly `EvictStale` of the old log |
| `SlidingWindowLog.RequestTimestamps.AddTimestamp` | src/SlidingWindowLog.kt:16-20 | the log becomes the old log with exactly the one timestamp appended at the end |
| `SlidingWindowLog.RequestTimestamps.ShouldAllowRequest` | src/SlidingWindowLog.kt:22-27 | evicts as above, then answers whether the evicted log is shorter than the limit |
| `SlidingWindowLog.SlidingWindowLogsRateLimiter.constructor` | src/SlidingWindowLog.kt:30-33 | a new registry holds no user |
| `SlidingWindowLog.SlidingWindowLogsRateLimiter.AddUser` | src/SlidingWindowLog.kt:35-42 | on a registered id it fails and leaves the registry unchanged; otherwise it adds a fresh, empty log with the given limit and window (defaults 100 and 60) under that id only |
| `SlidingWindowLog.SlidingWindowLogsRateLimiter.RemoveUser` | src/SlidingWindowLog.kt:44-48 | the id is gone and every other entry is kept; an absent id is a no-op, so removal is idempotent |
| `SlidingWindowLog.SlidingWindowLogsRateLimiter.ShouldAllowServiceCall` | src/SlidingWindowLog.kt:54-64 | fails on an unregistered id; otherwise the answer is whether the evicted log is shorter than the limit, `now` is recorded only when allowed, the log stays sorted and no longer than the limit, it holds nothing after `now` (so the next call's clock requirement holds again at the same `now`), and no other user's log changes |

## Findings

| source | as written | input that shows it | evidently intended | confidence | as-written member | corrected member |
|---|---|---|---|---|---|---|
| src/SlidingWindowCounter.kt:26-31 | `getBucket` returns `(t / W) * (W / bucketSize)`, so a bucket spans a whole window and a call can stay counted for up to `2 * W` seconds; a silence longer than `W` plus one bucket width does not reset the counter | `W = 60`, bucket size 10, limit 2: calls at 60, 61 and 179; the call at 179 comes 118 seconds after the last one and is rejected | `t / (W / bucketSize)`, ten 6-second buckets as the header comment at lines 1-5 says, so a silence of `W` plus one bucket width always resets the counter | not executed; high that the header comment and the code disagree, medium on which one the authors meant | `SlidingWindowCounter.CounterSilenceRejected` | `SlidingWindowCounter.IntendedResetAfterSilence` |

The classes model the code as written and use `GetBucket`. The intended
buckets (`IntendedBucket`, `IntendedCallCounts`) stand beside them with
their own proved reset (`IntendedResetAfterSilence`, `IntendedSilenceAllowed`).

## Left out

- Locking. The `synchronized` blocks and the unlocked reads (the map lookup at `src/SlidingWindowCounter.kt:73` and `totalCounts` at line 42) are concurrency. Each call is modelled as atomic and sequential.
- The wall clock. `getCurrentTimestampInSec` (`System.currentTimeMillis() / 1000`) is replaced by the `now` parameter.
- Both `main` functions. They are demonstration drivers that print and sleep.
- 32- and 64-bit overflow. `Int` and `Long` are unbounded `int`s.
- Exception messages. Only the kind of error is kept (`RateLimitResults.Error`).
- The `ArrayDeque` representation. The log is a `seq<int>` that is reassigned, so its amortised cost and in-place storage are not modelled.
- Removal order in eviction. The counter's eviction loop removes the doomed buckets in an arbitrary order, taken from a set. Kotlin walks a list filtered from the key set, and the order does not change the result.
- SlidingWindowCounter.RequestCounters.EvictOlderBuckets: requires a non-zero window and bucket size. Kotlin throws `ArithmeticException` from `getBucket` otherwise. The registry always uses bucket size 10 and turns a zero window into `Err(DivisionByZero)`.
- SlidingWindowCounter.RequestCounters.IncrementBucketCount: requires a non-zero window and bucket size, for the same reason.
- SlidingWindowLog.SlidingWindowLogsRateLimiter.ShouldAllowServiceCall: requires that `now` is not before any stored timestamp of the user. This models a clock that does not run backwards, and it keeps the log sorted. Kotlin has no such check.

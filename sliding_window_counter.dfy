/** The bucketed sliding-window counter: `RequestCounters` keeps a map from
    bucket index to the number of calls recorded in it and a running total;
    `SlidingWindowCounterLimiter` keeps one `RequestCounters` per user id. */
module SlidingWindowCounter {
  import opened RateLimitResults

  const DefaultRequests := 100
  const DefaultWindowTimeInSec := 60
  const DefaultBucketSize := 10

  function Abs(x: int): nat
  {
    if x < 0 then -x else x
  }

  lemma DivBounds(x: nat, d: int)
    requires 0 < d
    ensures (x / d) * d <= x < (x / d) * d + d
  {
    assert x == d * (x / d) + x % d;
  }

  /** Kotlin's `/` on `Int` and `Long`: the magnitude is rounded down and the
      sign is the product of the operands' signs (truncation toward zero). */
  function KotlinDiv(a: int, b: int): (q: int)
    requires b != 0
    ensures Abs(q) * Abs(b) <= Abs(a) < Abs(q) * Abs(b) + Abs(b)
    ensures (a < 0) == (b < 0) ==> q >= 0
    ensures (a < 0) != (b < 0) ==> q <= 0
  {
    var m := Abs(a) / Abs(b);
    DivBounds(Abs(a), Abs(b));
    if (a < 0) == (b < 0) then
      assert Abs(m) == m;
      m
    else
      assert Abs(-m) == m;
      -m
  }

  lemma MulLe(a: int, b: int, c: int)
    requires a <= b && 0 <= c
    ensures a * c <= b * c
  {
  }

  lemma MulLeCancel(a: int, b: int, c: int)
    requires 0 < c && a * c <= b * c
    ensures a <= b
  {
  }

  lemma MulLtCancel(a: int, b: int, c: int)
    requires 0 < c && a * c < b * c
    ensures a < b
  {
  }

  lemma DivMonotone(x: int, y: int, d: int)
    requires 0 <= x <= y && 0 < d
    ensures x / d <= y / d
  {
    var qx, qy := x / d, y / d;
    DivBounds(x, d);
    DivBounds(y, d);
    assert (qy + 1) * d == qy * d + d;
    assert qx * d < (qy + 1) * d;
    MulLtCancel(qx, qy + 1, d);
  }

  /** Truncating division by a positive divisor never decreases as the
      dividend grows, across zero too. */
  lemma {:induction false} KotlinDivMonotone(a1: int, a2: int, b: int)
    requires a1 <= a2 && b > 0
    ensures KotlinDiv(a1, b) <= KotlinDiv(a2, b)
  {
    if 0 <= a1 {
      DivMonotone(a1, a2, b);
    } else if a2 < 0 {
      DivMonotone(-a2, -a1, b);
    }
  }

  /** `getBucket`: the window index of `t` times the number of buckets'
      width in a window, both by truncating division. */
  function GetBucket(t: int, windowTimeInSec: int, bucketSize: int): (r: int)
    requires windowTimeInSec != 0 && bucketSize != 0
    ensures Abs(windowTimeInSec) < Abs(bucketSize) ==> r == 0
    ensures 0 <= t && 0 < windowTimeInSec && 0 < bucketSize ==> 0 <= r
  {
    var factor := KotlinDiv(windowTimeInSec, bucketSize);
    var timeIndex := KotlinDiv(t, windowTimeInSec);
    assert Abs(windowTimeInSec) < Abs(bucketSize) ==> factor == 0;
    assert 0 <= timeIndex && 0 <= factor ==> 0 <= timeIndex * factor by {
      if 0 <= timeIndex && 0 <= factor {
        MulLe(0, timeIndex, factor);
      }
    }
    timeIndex * factor
  }

  /** Later timestamps never map to earlier buckets. */
  lemma {:induction false} GetBucketMonotone(t1: int, t2: int, windowTimeInSec: int, bucketSize: int)
    requires t1 <= t2 && 0 < windowTimeInSec && 0 < bucketSize
    ensures GetBucket(t1, windowTimeInSec, bucketSize) <= GetBucket(t2, windowTimeInSec, bucketSize)
  {
    KotlinDivMonotone(t1, t2, windowTimeInSec);
    var f := KotlinDiv(windowTimeInSec, bucketSize);
    var q1, q2 := KotlinDiv(t1, windowTimeInSec), KotlinDiv(t2, windowTimeInSec);
    MulLe(q1, q2, f);
  }

  /** The effective window of the counter at time `now` (with `now - W`
      not negative): a call recorded within the last `W` seconds is never
      evicted, and no call older than `2 * W` seconds survives eviction.
      Buckets are whole windows, so the smear is up to one full window. */
  lemma {:induction false} EvictionHorizon(t: int, now: int, windowTimeInSec: int, bucketSize: int)
    requires 0 < bucketSize <= windowTimeInSec && 0 <= t && windowTimeInSec <= now
    ensures now - windowTimeInSec <= t ==>
      GetBucket(t, windowTimeInSec, bucketSize) >= GetBucket(now - windowTimeInSec, windowTimeInSec, bucketSize)
    ensures GetBucket(t, windowTimeInSec, bucketSize) >= GetBucket(now - windowTimeInSec, windowTimeInSec, bucketSize) ==>
      now - t < 2 * windowTimeInSec
  {
    var w := windowTimeInSec;
    if now - w <= t {
      GetBucketMonotone(now - w, t, w, bucketSize);
    }
    if GetBucket(t, w, bucketSize) >= GetBucket(now - w, w, bucketSize) {
      var f := KotlinDiv(w, bucketSize);
      var q1, q2 := KotlinDiv(t, w), KotlinDiv(now - w, w);
      MulLeCancel(q2, q1, f);
      MulLe(q2, q1, w);
      assert (q2 + 1) * w == q2 * w + w;
    }
  }

  /** The bucket of a call at time 60 is still present at time 179 with the
      default 60-second window, although the call is 119 seconds old. */
  lemma SmearExample()
    ensures GetBucket(60, 60, 10) == 6
    ensures GetBucket(179 - 60, 60, 10) == 6
    ensures 6 in KeepFrom(map[6 := 1], GetBucket(179 - 60, 60, 10))
  {
  }

  // ---------------------------------------------------------------------
  // The sum of the bucket counts
  // ---------------------------------------------------------------------

  ghost function PickKey(m: map<int, int>): (k: int)
    requires m != map[]
    ensures k in m
  {
    assert exists k :: k in m by {
      if forall k :: k !in m { assert false; }
    }
    var k :| k in m; k
  }

  lemma RemoveShrinks(m: map<int, int>, k: int)
    requires k in m
    ensures |m - {k}| == |m| - 1
  {
    assert (m - {k}).Keys == m.Keys - {k};
  }

  /** The sum of all counts in a map of bucket counts. */
  ghost function Sum(m: map<int, int>): int
    decreases |m|
  {
    if m == map[] then 0
    else
      var k := PickKey(m);
      RemoveShrinks(m, k);
      m[k] + Sum(m - {k})
  }

  /** Removing any one bucket takes exactly its count off the sum. */
  lemma {:induction false} SumRemove(m: map<int, int>, k: int)
    requires k in m
    ensures Sum(m) == m[k] + Sum(m - {k})
    decreases |m|
  {
    var j := PickKey(m);
    if j != k {
      RemoveShrinks(m, j);
      RemoveShrinks(m, k);
      SumRemove(m - {j}, k);
      SumRemove(m - {k}, j);
      assert m - {j} - {k} == m - {k} - {j};
    }
  }

  /** Setting one bucket to `v` changes the sum by the difference. */
  lemma {:induction false} SumUpdate(m: map<int, int>, k: int, v: int)
    ensures Sum(m[k := v]) == Sum(m) - (if k in m then m[k] else 0) + v
  {
    SumRemove(m[k := v], k);
    if k in m {
      SumRemove(m, k);
      assert m[k := v] - {k} == m - {k};
    } else {
      assert m[k := v] - {k} == m;
    }
  }

  /** Every bucket holds at least one call. */
  ghost predicate AllPositive(m: map<int, int>)
  {
    forall b :: b in m ==> m[b] >= 1
  }

  /** When every bucket holds a call, the sum is at least the number of
      buckets, hence never negative. */
  lemma {:induction false} SumAtLeastSize(m: map<int, int>)
    requires AllPositive(m)
    ensures Sum(m) >= |m| >= 0
    decreases |m|
  {
    if m != map[] {
      var k := PickKey(m);
      RemoveShrinks(m, k);
      SumAtLeastSize(m - {k});
    }
  }

  // ---------------------------------------------------------------------
  // One call on the counter, as values
  // ---------------------------------------------------------------------

  /** The buckets that eviction keeps: those at or above `oldest`. */
  function KeepFrom(m: map<int, int>, oldest: int): map<int, int>
  {
    map b | b in m && b >= oldest :: m[b]
  }

  /** The buckets after recording one call in bucket `b`. */
  function Bump(m: map<int, int>, b: int): map<int, int>
  {
    m[b := (if b in m then m[b] else 0) + 1]
  }

  /** The buckets after one `shouldAllowServiceCall` at time `now`: evict,
      then record. */
  function CallCounts(counts: map<int, int>, windowTimeInSec: int, bucketSize: int, now: int): map<int, int>
    requires windowTimeInSec != 0 && bucketSize != 0
  {
    var kept := KeepFrom(counts, GetBucket(now - windowTimeInSec, windowTimeInSec, bucketSize));
    Bump(kept, GetBucket(now, windowTimeInSec, bucketSize))
  }

  /** The decision of that call, taken on the total after recording. */
  ghost predicate CallAllowed(counts: map<int, int>, windowTimeInSec: int, bucketSize: int, requestLimit: int, now: int)
    requires windowTimeInSec != 0 && bucketSize != 0
  {
    Sum(CallCounts(counts, windowTimeInSec, bucketSize, now)) < requestLimit
  }

  /** Eviction at a fixed time leaves nothing more to evict. */
  lemma KeepFromIdempotent(m: map<int, int>, oldest: int)
    ensures KeepFrom(KeepFrom(m, oldest), oldest) == KeepFrom(m, oldest)
  {
  }

  /** A call always adds one to the total of the buckets that survive
      eviction, whatever is decided: a rejected call is counted too.
      The bucket of `now` gains exactly one and the others keep their counts. */
  lemma {:induction false} CallRecordsBeforeDeciding(counts: map<int, int>, windowTimeInSec: int, bucketSize: int, now: int)
    requires windowTimeInSec != 0 && bucketSize != 0
    ensures var oldest := GetBucket(now - windowTimeInSec, windowTimeInSec, bucketSize);
            Sum(CallCounts(counts, windowTimeInSec, bucketSize, now)) == Sum(KeepFrom(counts, oldest)) + 1
    ensures AllPositive(counts) ==> AllPositive(CallCounts(counts, windowTimeInSec, bucketSize, now))
  {
    var kept := KeepFrom(counts, GetBucket(now - windowTimeInSec, windowTimeInSec, bucketSize));
    var b := GetBucket(now, windowTimeInSec, bucketSize);
    SumUpdate(kept, b, (if b in kept then kept[b] else 0) + 1);
  }

  /** With a window shorter than a bucket every index is 0: eviction never
      removes anything and every call adds one to the total forever. */
  lemma {:induction false} DegenerateNeverEvicts(counts: map<int, int>, windowTimeInSec: int, bucketSize: int, now: int)
    requires windowTimeInSec != 0 && bucketSize != 0 && Abs(windowTimeInSec) < Abs(bucketSize)
    requires forall b :: b in counts ==> b == 0
    ensures KeepFrom(counts, GetBucket(now - windowTimeInSec, windowTimeInSec, bucketSize)) == counts
    ensures CallCounts(counts, windowTimeInSec, bucketSize, now).Keys == {0}
    ensures Sum(CallCounts(counts, windowTimeInSec, bucketSize, now)) == Sum(counts) + 1
  {
    CallRecordsBeforeDeciding(counts, windowTimeInSec, bucketSize, now);
    assert KeepFrom(counts, 0) == counts;
  }

  /** `k` calls at the same instant, starting from `counts`. */
  function CounterBurst(counts: map<int, int>, windowTimeInSec: int, bucketSize: int, now: int, k: nat): map<int, int>
    requires windowTimeInSec != 0 && bucketSize != 0
  {
    if k == 0 then counts
    else CallCounts(CounterBurst(counts, windowTimeInSec, bucketSize, now, k - 1), windowTimeInSec, bucketSize, now)
  }

  /** `k` calls at one instant on a fresh user all land in the bucket of that instant. */
  lemma {:induction false} CounterBurstSingleBucket(windowTimeInSec: int, bucketSize: int, now: int, k: nat)
    requires 0 < windowTimeInSec && 0 < bucketSize
    ensures CounterBurst(map[], windowTimeInSec, bucketSize, now, k)
         == if k == 0 then map[] else map[GetBucket(now, windowTimeInSec, bucketSize) := k]
  {
    if k > 0 {
      CounterBurstSingleBucket(windowTimeInSec, bucketSize, now, k - 1);
      GetBucketMonotone(now - windowTimeInSec, now, windowTimeInSec, bucketSize);
    }
  }

  /** For a fresh user with limit `N`, the `(k+1)`-th call at one instant is
      allowed exactly when `k + 1 < N`: only the first `N - 1` calls pass. */
  lemma {:induction false} CounterFreshUserBurst(windowTimeInSec: int, bucketSize: int, requestLimit: int, now: int, k: nat)
    requires 0 < windowTimeInSec && 0 < bucketSize
    ensures CallAllowed(CounterBurst(map[], windowTimeInSec, bucketSize, now, k), windowTimeInSec, bucketSize, requestLimit, now)
        <==> k + 1 < requestLimit
  {
    CounterBurstSingleBucket(windowTimeInSec, bucketSize, now, k + 1);
    var b := GetBucket(now, windowTimeInSec, bucketSize);
    SumUpdate(map[], b, k + 1);
    assert map[][b := k + 1] == map[b := k + 1];
  }

  // ---------------------------------------------------------------------
  // A full reset after silence: as written, and with the intended buckets
  // ---------------------------------------------------------------------

  /** Once every bucket lies below the eviction threshold of `now`, the call
      starts afresh: it leaves only its own bucket, at 1, and is allowed
      exactly when the limit exceeds 1. */
  lemma {:induction false} CounterResetWhenAllStale(counts: map<int, int>, windowTimeInSec: int, bucketSize: int, requestLimit: int, now: int)
    requires windowTimeInSec != 0 && bucketSize != 0
    requires forall b :: b in counts ==> b < GetBucket(now - windowTimeInSec, windowTimeInSec, bucketSize)
    ensures CallCounts(counts, windowTimeInSec, bucketSize, now) == map[GetBucket(now, windowTimeInSec, bucketSize) := 1]
    ensures CallAllowed(counts, windowTimeInSec, bucketSize, requestLimit, now) <==> 1 < requestLimit
  {
    var oldest := GetBucket(now - windowTimeInSec, windowTimeInSec, bucketSize);
    var b := GetBucket(now, windowTimeInSec, bucketSize);
    assert KeepFrom(counts, oldest) == map[];
    SumUpdate(map[], b, 1);
    assert map[][b := 1] == map[b := 1];
  }

  /** As written, a reset needs two whole windows of silence: when every
      bucket holds only calls made at least `2 * W` seconds ago, the next
      call is allowed exactly when the limit exceeds 1. */
  lemma {:induction false} CounterResetAfterTwoWindows(counts: map<int, int>, windowTimeInSec: int, bucketSize: int, requestLimit: int, now: int)
    requires 0 < bucketSize <= windowTimeInSec
    requires forall b :: b in counts ==>
      exists t :: 0 <= t && 2 * windowTimeInSec <= now - t && b == GetBucket(t, windowTimeInSec, bucketSize)
    ensures CallCounts(counts, windowTimeInSec, bucketSize, now) == map[GetBucket(now, windowTimeInSec, bucketSize) := 1]
    ensures CallAllowed(counts, windowTimeInSec, bucketSize, requestLimit, now) <==> 1 < requestLimit
  {
    var w := windowTimeInSec;
    forall b | b in counts
      ensures b < GetBucket(now - w, w, bucketSize)
    {
      var t :| 0 <= t && 2 * w <= now - t && b == GetBucket(t, w, bucketSize);
      EvictionHorizon(t, now, w, bucketSize);
    }
    CounterResetWhenAllStale(counts, w, bucketSize, requestLimit, now);
  }

  /** As written, more than a window of silence does not reset the counter:
      with limit 2, a call at 60 is allowed, a call at 61 is rejected but
      counted, and a call at 179, 118 seconds after the last one, is
      still rejected because bucket 6 survives the eviction at 179. */
  lemma CounterSilenceRejected()
    ensures CallCounts(map[], 60, 10, 60) == map[6 := 1]
    ensures CallAllowed(map[], 60, 10, 2, 60)
    ensures CallCounts(map[6 := 1], 60, 10, 61) == map[6 := 2]
    ensures !CallAllowed(map[6 := 1], 60, 10, 2, 61)
    ensures 179 - 61 > 60 + 60 / 10
    ensures CallCounts(map[6 := 2], 60, 10, 179) == map[6 := 2, 12 := 1]
    ensures !CallAllowed(map[6 := 2], 60, 10, 2, 179)
  {
    SumUpdate(map[], 6, 1);
    assert map[][6 := 1] == map[6 := 1];
    SumUpdate(map[], 6, 2);
    assert map[][6 := 2] == map[6 := 2];
    SumUpdate(map[6 := 2], 12, 1);
  }

  /** The width of a bucket in seconds, `W / bucketSize`: 6 for the defaults. */
  function BucketWidth(windowTimeInSec: int, bucketSize: int): (width: int)
    requires 0 < bucketSize <= windowTimeInSec
    ensures 1 <= width <= windowTimeInSec
  {
    var q := KotlinDiv(windowTimeInSec, bucketSize);
    assert Abs(q) == q;
    MulLe(1, bucketSize, q);
    q
  }

  /** The bucket index the Kotlin file's header comment describes: the
      number of the `W / bucketSize`-second slot holding `t`. */
  function IntendedBucket(t: int, windowTimeInSec: int, bucketSize: int): (r: int)
    requires 0 < bucketSize <= windowTimeInSec
    ensures 0 <= t ==> 0 <= r
  {
    KotlinDiv(t, BucketWidth(windowTimeInSec, bucketSize))
  }

  /** With the intended buckets, a call within the last `W` seconds is never
      evicted, and a surviving call is less than `W` plus one bucket width
      old: the smear is at most one bucket. */
  lemma {:induction false} IntendedEvictionHorizon(t: int, now: int, windowTimeInSec: int, bucketSize: int)
    requires 0 < bucketSize <= windowTimeInSec && 0 <= t && windowTimeInSec <= now
    ensures now - windowTimeInSec <= t ==>
      IntendedBucket(t, windowTimeInSec, bucketSize) >= IntendedBucket(now - windowTimeInSec, windowTimeInSec, bucketSize)
    ensures IntendedBucket(t, windowTimeInSec, bucketSize) >= IntendedBucket(now - windowTimeInSec, windowTimeInSec, bucketSize) ==>
      now - t < windowTimeInSec + BucketWidth(windowTimeInSec, bucketSize)
  {
    var w, width := windowTimeInSec, BucketWidth(windowTimeInSec, bucketSize);
    if now - w <= t {
      KotlinDivMonotone(now - w, t, width);
    }
    var q1, q2 := KotlinDiv(t, width), KotlinDiv(now - w, width);
    if q1 >= q2 {
      assert Abs(q1) == q1 && Abs(q2) == q2;
      MulLe(q2, q1, width);
      assert (q2 + 1) * width == q2 * width + width;
    }
  }

  /** One call with the intended buckets: evict, then record. */
  function IntendedCallCounts(counts: map<int, int>, windowTimeInSec: int, bucketSize: int, now: int): map<int, int>
    requires 0 < bucketSize <= windowTimeInSec
  {
    var kept := KeepFrom(counts, IntendedBucket(now - windowTimeInSec, windowTimeInSec, bucketSize));
    Bump(kept, IntendedBucket(now, windowTimeInSec, bucketSize))
  }

  /** The decision of that call, still taken after recording. */
  ghost predicate IntendedCallAllowed(counts: map<int, int>, windowTimeInSec: int, bucketSize: int, requestLimit: int, now: int)
    requires 0 < bucketSize <= windowTimeInSec
  {
    Sum(IntendedCallCounts(counts, windowTimeInSec, bucketSize, now)) < requestLimit
  }

  /** With the intended buckets, a silence of `W` plus one bucket width
      resets the counter whatever was recorded before, rejected calls
      included: the next call leaves only its own bucket, at 1, and is
      allowed exactly when the limit exceeds 1. */
  lemma {:induction false} IntendedResetAfterSilence(counts: map<int, int>, windowTimeInSec: int, bucketSize: int, requestLimit: int, now: int)
    requires 0 < bucketSize <= windowTimeInSec
    requires forall b :: b in counts ==>
      exists t :: 0 <= t && windowTimeInSec + BucketWidth(windowTimeInSec, bucketSize) <= now - t
               && b == IntendedBucket(t, windowTimeInSec, bucketSize)
    ensures IntendedCallCounts(counts, windowTimeInSec, bucketSize, now) == map[IntendedBucket(now, windowTimeInSec, bucketSize) := 1]
    ensures IntendedCallAllowed(counts, windowTimeInSec, bucketSize, requestLimit, now) <==> 1 < requestLimit
  {
    var w := windowTimeInSec;
    var oldest := IntendedBucket(now - w, w, bucketSize);
    forall b | b in counts
      ensures b < oldest
    {
      var t :| 0 <= t && w + BucketWidth(w, bucketSize) <= now - t && b == IntendedBucket(t, w, bucketSize);
      IntendedEvictionHorizon(t, now, w, bucketSize);
    }
    var b := IntendedBucket(now, w, bucketSize);
    assert KeepFrom(counts, oldest) == map[];
    SumUpdate(map[], b, 1);
    assert map[][b := 1] == map[b := 1];
  }

  /** The scenario of `CounterSilenceRejected` with the intended buckets:
      the calls at 60 and 61 share slot 10, which the eviction at 179
      removes, so the call at 179 is allowed. */
  lemma IntendedSilenceAllowed()
    ensures IntendedCallCounts(map[], 60, 10, 60) == map[10 := 1]
    ensures IntendedCallCounts(map[10 := 1], 60, 10, 61) == map[10 := 2]
    ensures IntendedCallCounts(map[10 := 2], 60, 10, 179) == map[29 := 1]
    ensures IntendedCallAllowed(map[10 := 2], 60, 10, 2, 179)
  {
    assert BucketWidth(60, 10) == 6;
    assert IntendedBucket(60, 60, 10) == 10 && IntendedBucket(61, 60, 10) == 10;
    assert IntendedBucket(0, 60, 10) == 0 && IntendedBucket(1, 60, 10) == 0;
    assert IntendedBucket(119, 60, 10) == 19 && IntendedBucket(179, 60, 10) == 29;
    SumUpdate(map[], 29, 1);
    assert map[][29 := 1] == map[29 := 1];
  }

  // ---------------------------------------------------------------------
  // RequestCounters
  // ---------------------------------------------------------------------

  /** The per-user counter: bucket index to count, and the running total. */
  class RequestCounters {
    const requestLimit: int
    const windowTimeInSec: int
    const bucketSize: int
    var totalCounts: int
    var counts: map<int, int>

    /** The running total is the sum of the buckets, and every bucket holds a call. */
    ghost predicate Valid()
      reads this
    {
      totalCounts == Sum(counts) && AllPositive(counts)
    }

    constructor (requestLimit: int, windowTimeInSec: int, bucketSize: int := DefaultBucketSize)
      ensures Valid()
      ensures this.requestLimit == requestLimit && this.windowTimeInSec == windowTimeInSec
      ensures this.bucketSize == bucketSize
      ensures counts == map[] && totalCounts == 0
    {
      this.requestLimit := requestLimit;
      this.windowTimeInSec := windowTimeInSec;
      this.bucketSize := bucketSize;
      totalCounts := 0;
      counts := map[];
    }

    /** Deletes every bucket below the bucket of `currentTimestamp - W`,
        taking its count off the total; the others keep their counts. */
    method EvictOlderBuckets(currentTimestamp: int)
      requires Valid() && windowTimeInSec != 0 && bucketSize != 0
      modifies this
      ensures Valid()
      ensures counts == KeepFrom(old(counts), GetBucket(currentTimestamp - windowTimeInSec, windowTimeInSec, bucketSize))
      ensures forall b :: b in counts ==> b >= GetBucket(currentTimestamp - windowTimeInSec, windowTimeInSec, bucketSize)
      ensures forall b :: b in old(counts) && b >= GetBucket(currentTimestamp - windowTimeInSec, windowTimeInSec, bucketSize) ==>
        b in counts && counts[b] == old(counts)[b]
    {
      var oldestValidBucket := GetBucket(currentTimestamp - windowTimeInSec, windowTimeInSec, bucketSize);
      var bucketsToBeDeleted := set b | b in counts && b < oldestValidBucket;
      while bucketsToBeDeleted != {}
        invariant Valid()
        invariant bucketsToBeDeleted <= counts.Keys
        invariant forall b :: b in bucketsToBeDeleted ==> b < oldestValidBucket
        invariant forall b :: b in counts && b !in bucketsToBeDeleted ==> b >= oldestValidBucket
        invariant KeepFrom(counts, oldestValidBucket) == KeepFrom(old(counts), oldestValidBucket)
        decreases bucketsToBeDeleted
      {
        var bucket :| bucket in bucketsToBeDeleted;
        var bucketCount := counts[bucket];
        SumRemove(counts, bucket);
        totalCounts := totalCounts - bucketCount;
        counts := counts - {bucket};
        bucketsToBeDeleted := bucketsToBeDeleted - {bucket};
      }
      assert counts == KeepFrom(counts, oldestValidBucket);
    }

    /** Adds one call to the bucket of `currentTimeStamp` (creating it at 1)
        and one to the total. */
    method IncrementBucketCount(currentTimeStamp: int)
      requires Valid() && windowTimeInSec != 0 && bucketSize != 0
      modifies this
      ensures Valid()
      ensures counts == Bump(old(counts), GetBucket(currentTimeStamp, windowTimeInSec, bucketSize))
      ensures totalCounts == old(totalCounts) + 1
    {
      var currentBucket := GetBucket(currentTimeStamp, windowTimeInSec, bucketSize);
      var previous := if currentBucket in counts then counts[currentBucket] else 0;
      SumUpdate(counts, currentBucket, previous + 1);
      counts := counts[currentBucket := previous + 1];
      totalCounts := totalCounts + 1;
    }

    /** The decision: the calls in the live buckets are below the limit. */
    function IsWithinRateLimit(): (r: bool)
      reads this
      requires Valid()
      ensures r <==> Sum(counts) < requestLimit
    {
      totalCounts < requestLimit
    }
  }

  // ---------------------------------------------------------------------
  // SlidingWindowCounterLimiter
  // ---------------------------------------------------------------------

  /** The registry: one counter per user id. */
  class SlidingWindowCounterLimiter {
    var rateLimiterMap: map<int, RequestCounters>
    ghost var Repr: set<RequestCounters>

    /** Every registered counter is valid, uses the default bucket size,
        and no two users share one. */
    ghost predicate Valid()
      reads this, Repr
    {
      && Repr == rateLimiterMap.Values
      && (forall u :: u in rateLimiterMap ==>
            rateLimiterMap[u].Valid() && rateLimiterMap[u].bucketSize == DefaultBucketSize)
      && (forall u, v :: u in rateLimiterMap && v in rateLimiterMap && u != v ==>
            rateLimiterMap[u] != rateLimiterMap[v])
    }

    constructor ()
      ensures Valid() && rateLimiterMap == map[]
    {
      rateLimiterMap := map[];
      Repr := {};
    }

    /** Registers a fresh, empty counter for `userid`, or fails when the id
        is already present and leaves the registry as it was. */
    method AddUser(userid: int, requests: int := DefaultRequests, windowTimeInSec: int := DefaultWindowTimeInSec)
      returns (r: Outcome)
      requires Valid()
      modifies this
      ensures Valid()
      ensures old(userid in rateLimiterMap) ==>
        r == Fail(UserAlreadyPresent) && rateLimiterMap == old(rateLimiterMap) && Repr == old(Repr)
      ensures old(userid !in rateLimiterMap) ==>
        && r == Pass
        && userid in rateLimiterMap
        && fresh(rateLimiterMap[userid])
        && rateLimiterMap == old(rateLimiterMap)[userid := rateLimiterMap[userid]]
        && rateLimiterMap[userid].requestLimit == requests
        && rateLimiterMap[userid].windowTimeInSec == windowTimeInSec
        && rateLimiterMap[userid].counts == map[]
    {
      if userid in rateLimiterMap {
        return Fail(UserAlreadyPresent);
      }
      var counters := new RequestCounters(requests, windowTimeInSec);
      rateLimiterMap := rateLimiterMap[userid := counters];
      Repr := rateLimiterMap.Values;
      r := Pass;
    }

    /** Drops the counter of `userid`; an absent id is not an error. */
    method RemoveUser(userid: int)
      requires Valid()
      modifies this
      ensures Valid()
      ensures rateLimiterMap == old(rateLimiterMap) - {userid}
    {
      rateLimiterMap := rateLimiterMap - {userid};
      Repr := rateLimiterMap.Values;
    }

    /** Evicts, records and then decides on the recorded total: a rejected
        call is counted as well. Fails on an unregistered id, and with a zero
        window fails before touching the counter. Only this user's counter changes. */
    method ShouldAllowServiceCall(userid: int, now: int) returns (r: Result<bool>)
      requires Valid()
      modifies if userid in rateLimiterMap then {rateLimiterMap[userid]} else {}
      ensures Valid() && rateLimiterMap == old(rateLimiterMap) && Repr == old(Repr)
      ensures userid !in rateLimiterMap ==> r == Err(UserNotPresent)
      ensures userid in rateLimiterMap && rateLimiterMap[userid].windowTimeInSec == 0 ==>
        r == Err(DivisionByZero) && unchanged(rateLimiterMap[userid])
      ensures userid in rateLimiterMap && rateLimiterMap[userid].windowTimeInSec != 0 ==>
        var c := rateLimiterMap[userid];
        && c.counts == CallCounts(old(c.counts), c.windowTimeInSec, c.bucketSize, now)
        && r == Ok(CallAllowed(old(c.counts), c.windowTimeInSec, c.bucketSize, c.requestLimit, now))
    {
      if userid !in rateLimiterMap {
        return Err(UserNotPresent);
      }
      var requestCounter := rateLimiterMap[userid];
      if requestCounter.windowTimeInSec == 0 {
        return Err(DivisionByZero);
      }
      requestCounter.EvictOlderBuckets(now);
      requestCounter.IncrementBucketCount(now);
      r := Ok(requestCounter.IsWithinRateLimit());
    }
  }
}

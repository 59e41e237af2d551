/** The daemon's request limiter (`apps/daemon/src/rate-limit.ts`): one counter per key and window. */
module FixedWindow {
  import opened JsText
  import opened RateLimit

  datatype Counter = Counter(count: nat, resetAt: int)

  function Lookup(buckets: map<string, Counter>, key: string): Option<Counter>
  {
    if key in buckets then Some(buckets[key]) else None
  }

  /** The bucket a request at time `now` is counted in, the request included. */
  function CountRequest(bucket: Option<Counter>, windowMs: int, now: int): Counter
  {
    if bucket.None? || now >= bucket.value.resetAt then Counter(1, now + windowMs)
    else Counter(bucket.value.count + 1, bucket.value.resetAt)
  }

  class DaemonRateLimit {
    var buckets: map<string, Counter>

    constructor ()
      ensures buckets == map[]
    {
      buckets := map[];
    }

    /** The `preHandler` hook for a path that is not exempt; false means status 429. */
    method OnRequest(key: string, windowMs: int, max: int, now: int) returns (allowed: bool)
      modifies this
      ensures max <= 0 ==> allowed && buckets == old(buckets)
      ensures max > 0 ==> buckets == old(buckets)[key := CountRequest(Lookup(old(buckets), key), windowMs, now)]
      ensures max > 0 ==> (allowed <==> buckets[key].count <= max)
    {
      if max <= 0 {
        return true;
      }
      var bucket := Lookup(buckets, key);
      if bucket.None? || now >= bucket.value.resetAt {
        bucket := Some(Counter(0, now + windowMs));
      }
      buckets := buckets[key := Counter(bucket.value.count + 1, bucket.value.resetAt)];
      return buckets[key].count <= max;
    }
  }

  // ----- runs of requests of one key -----

  function CounterAfter(times: seq<int>, windowMs: int): Option<Counter>
  {
    if times == [] then None
    else Some(CountRequest(CounterAfter(times[..|times| - 1], windowMs), windowMs, times[|times| - 1]))
  }

  /** The requests that were let through. */
  function Allowed(times: seq<int>, windowMs: int, max: int): seq<int>
  {
    if times == [] then []
    else
      var before := Allowed(times[..|times| - 1], windowMs, max);
      if CounterAfter(times, windowMs).value.count <= max then before + [times[|times| - 1]] else before
  }

  /** What the current bucket, and the window just before it, have let through. */
  ghost predicate Bounded(allowed: seq<int>, c: Counter, windowMs: int, max: int, last: int)
  {
    var start := c.resetAt - windowMs;
    && c.count >= 1 && start <= last < c.resetAt
    && (forall i | 0 <= i < |allowed| :: allowed[i] <= last)
    && CountFrom(allowed, start, last + 1) <= Min(c.count, max)
    && CountFrom(allowed, start + 1, last + 1) <= Min(c.count, max) - 1
    && CountFrom(allowed, start - windowMs + 1, start) <= max - 1
  }

  lemma {:induction false} CountAppend(s: seq<int>, t: int, a: int, b: int)
    ensures CountFrom(s + [t], a, b) == CountFrom(s, a, b) + (if a <= t < b then 1 else 0)
  {
    assert (s + [t])[..|s|] == s;
  }

  lemma {:induction false} CountSplit(s: seq<int>, a: int, m: int, b: int)
    requires a <= m <= b
    ensures CountFrom(s, a, b) == CountFrom(s, a, m) + CountFrom(s, m, b)
  {
    if s != [] {
      CountSplit(s[..|s| - 1], a, m, b);
    }
  }

  lemma {:induction false} CountNone(s: seq<int>, a: int, b: int)
    requires forall i | 0 <= i < |s| :: !(a <= s[i] < b)
    ensures CountFrom(s, a, b) == 0
  {
    if s != [] {
      CountNone(s[..|s| - 1], a, b);
    }
  }

  lemma {:induction false} BucketsAreBounded(times: seq<int>, windowMs: int, max: int)
    requires NonDecreasing(times) && times != [] && windowMs > 0 && max >= 1
    ensures var allowed, c := Allowed(times, windowMs, max), CounterAfter(times, windowMs).value;
            Bounded(allowed, c, windowMs, max, times[|times| - 1])
  {
    var front, now := times[..|times| - 1], times[|times| - 1];
    var before := Allowed(front, windowMs, max);
    var allowed, c := Allowed(times, windowMs, max), CounterAfter(times, windowMs).value;
    if front == [] {
      assert CountFrom([], now, now + 1) == 0;
      CountAppend([], now, now, now + 1);
      CountAppend([], now, now + 1, now + 1);
      CountAppend([], now, now - windowMs + 1, now);
      assert [] + [now] == [now];
    } else {
      BucketsAreBounded(front, windowMs, max);
      var last, prev := front[|front| - 1], CounterAfter(front, windowMs).value;
      NextRequest(before, prev, windowMs, max, last, now);
    }
  }

  lemma {:induction false} NextRequest(before: seq<int>, prev: Counter, windowMs: int, max: int, last: int, now: int)
    requires windowMs > 0 && max >= 1 && last <= now && Bounded(before, prev, windowMs, max, last)
    ensures var c := CountRequest(Some(prev), windowMs, now);
            Bounded(if c.count <= max then before + [now] else before, c, windowMs, max, now)
  {
    hide CountFrom;
    var c := CountRequest(Some(prev), windowMs, now);
    var start := c.resetAt - windowMs;
    if now >= prev.resetAt {
      var old' := prev.resetAt - windowMs;
      CountNone(before, now, now + 1);
      CountNone(before, now + 1, now + 1);
      CountNarrower(before, now - windowMs + 1, now, old' + 1, last + 1);
      CountAppend(before, now, now, now + 1);
      CountAppend(before, now, now + 1, now + 1);
      CountAppend(before, now, now - windowMs + 1, now);
    } else {
      CountNarrower(before, start, now + 1, start, last + 1);
      CountNarrower(before, start + 1, now + 1, start + 1, last + 1);
      CountAppend(before, now, start, now + 1);
      CountAppend(before, now, start + 1, now + 1);
      CountAppend(before, now, start - windowMs + 1, start);
    }
  }

  /**
   At most 2 * max - 1 requests of a key pass in any half-open interval of length `windowMs`: it
   meets at most two buckets, and not the request that opened the first of them if it meets both.
   */
  lemma {:induction false} UnderTwiceTheLimit(times: seq<int>, windowMs: int, max: int, a: int)
    requires NonDecreasing(times) && max >= 1
    ensures CountFrom(Allowed(times, windowMs, max), a, a + windowMs) <= 2 * max - 1
  {
    if windowMs <= 0 {
      CountNone(Allowed(times, windowMs, max), a, a + windowMs);
    } else if times != [] {
      var front, now := times[..|times| - 1], times[|times| - 1];
      UnderTwiceTheLimit(front, windowMs, max, a);
      BucketsAreBounded(times, windowMs, max);
      hide CountFrom, NonDecreasing;
      CountAppend(Allowed(front, windowMs, max), now, a, a + windowMs);
      if a <= now < a + windowMs {
        BoundedWindow(Allowed(times, windowMs, max), CounterAfter(times, windowMs).value, windowMs, max, now, a);
      }
    }
  }

  lemma {:induction false} BoundedWindow(allowed: seq<int>, c: Counter, windowMs: int, max: int, now: int, a: int)
    requires Bounded(allowed, c, windowMs, max, now) && a <= now < a + windowMs && max >= 1
    ensures CountFrom(allowed, a, a + windowMs) <= 2 * max - 1
  {
    hide CountFrom;
    var start := c.resetAt - windowMs;
    CountNarrower(allowed, a, a + windowMs, a, now + 1);
    if a <= start {
      CountSplit(allowed, a, start, now + 1);
      CountNarrower(allowed, a, start, start - windowMs + 1, start);
    } else {
      CountNarrower(allowed, a, now + 1, start, now + 1);
    }
  }

  // ----- the bound is reached -----

  function Burst(t: int, n: nat): seq<int> { seq(n, _ => t) }

  /** Requests at one moment inside a bucket pass as long as the count allows. */
  lemma {:induction false} BurstPasses(times: seq<int>, t: int, n: nat, windowMs: int, max: int)
    requires CounterAfter(times, windowMs).Some? && t < CounterAfter(times, windowMs).value.resetAt
    requires CounterAfter(times, windowMs).value.count + n <= max
    ensures var c := CounterAfter(times, windowMs).value;
            CounterAfter(times + Burst(t, n), windowMs) == Some(Counter(c.count + n, c.resetAt))
    ensures Allowed(times + Burst(t, n), windowMs, max) == Allowed(times, windowMs, max) + Burst(t, n)
  {
    var all := times + Burst(t, n);
    if n == 0 {
      assert all == times;
    } else {
      BurstPasses(times, t, n - 1, windowMs, max);
      assert all[..|all| - 1] == times + Burst(t, n - 1);
      assert Burst(t, n) == Burst(t, n - 1) + [t];
    }
  }

  lemma {:induction false} CountBurst(s: seq<int>, t: int, n: nat, a: int, b: int)
    requires a <= t < b
    ensures CountFrom(s + Burst(t, n), a, b) == CountFrom(s, a, b) + n
  {
    if n == 0 {
      assert s + Burst(t, 0) == s;
    } else {
      CountBurst(s, t, n - 1, a, b);
      assert s + Burst(t, n) == (s + Burst(t, n - 1)) + [t];
      CountAppend(s + Burst(t, n - 1), t, a, b);
    }
  }

  function TwoBursts(windowMs: int, max: nat): seq<int>
    requires max >= 1
  {
    [0] + Burst(windowMs - 1, max - 1) + [windowMs] + Burst(windowMs, max - 1)
  }

  /** One request, then the rest of the limit as the bucket ends, then a full bucket as the next one starts. */
  lemma {:induction false} BoundIsReached(windowMs: int, max: nat)
    requires windowMs >= 2 && max >= 1
    ensures NonDecreasing(TwoBursts(windowMs, max))
    ensures CountFrom(Allowed(TwoBursts(windowMs, max), windowMs, max), windowMs - 1, 2 * windowMs - 1) == 2 * max - 1
  {
    AllAllowed(windowMs, max);
    hide CountFrom, Allowed, CounterAfter, Burst;
    var a, b := windowMs - 1, 2 * windowMs - 1;
    var first := [0] + Burst(windowMs - 1, max - 1);
    CountNone([0], a, b);
    CountBurst([0], windowMs - 1, max - 1, a, b);
    CountAppend(first, windowMs, a, b);
    CountBurst(first + [windowMs], windowMs, max - 1, a, b);
  }

  lemma {:induction false} AllAllowed(windowMs: int, max: nat)
    requires windowMs >= 2 && max >= 1
    ensures NonDecreasing(TwoBursts(windowMs, max))
    ensures Allowed(TwoBursts(windowMs, max), windowMs, max) == TwoBursts(windowMs, max)
  {
    BurstsInOrder(windowMs, max);
    hide Allowed, CounterAfter, Burst, NonDecreasing;
    var first := [0] + Burst(windowMs - 1, max - 1);
    var second := first + [windowMs];
    FirstBucket(windowMs, max);
    NextBucket(first, windowMs, max);
    BurstPasses(second, windowMs, max - 1, windowMs, max);
  }

  lemma {:induction false} BurstsInOrder(windowMs: int, max: nat)
    requires windowMs >= 2 && max >= 1
    ensures NonDecreasing(TwoBursts(windowMs, max))
  {
    var all := TwoBursts(windowMs, max);
    forall i | 0 <= i < |all|
      ensures all[i] == if i == 0 then 0 else if i < max then windowMs - 1 else windowMs
    {
    }
  }

  lemma {:induction false} NextBucket(first: seq<int>, windowMs: int, max: nat)
    requires max >= 1 && CounterAfter(first, windowMs) == Some(Counter(max, windowMs))
             && Allowed(first, windowMs, max) == first
    ensures CounterAfter(first + [windowMs], windowMs) == Some(Counter(1, 2 * windowMs))
    ensures Allowed(first + [windowMs], windowMs, max) == first + [windowMs]
  {
    assert (first + [windowMs])[..|first|] == first;
  }

  lemma {:induction false} FirstBucket(windowMs: int, max: nat)
    requires windowMs >= 2 && max >= 1
    ensures var first := [0] + Burst(windowMs - 1, max - 1);
            CounterAfter(first, windowMs) == Some(Counter(max, windowMs)) && Allowed(first, windowMs, max) == first
  {
    assert CounterAfter([], windowMs) == None && [0][..0] == [];
    assert CounterAfter([0], windowMs) == Some(Counter(1, windowMs)) && Allowed([0], windowMs, max) == [0];
    BurstPasses([0], windowMs - 1, max - 1, windowMs, max);
  }
}

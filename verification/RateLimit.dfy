/** The sliding-window rule of `rate-limit-store.ts` and its in-memory store. */
module RateLimit {
  import opened JsText

  datatype Bucket = Bucket(hits: seq<int>, windowMs: int)

  datatype Answer = Answer(limited: bool, remaining: int)

  /** The times after `cutoff`, in order. */
  function After(hits: seq<int>, cutoff: int): (r: seq<int>)
    ensures |r| <= |hits|
  {
    if hits == [] then []
    else (if hits[0] > cutoff then [hits[0]] else []) + After(hits[1..], cutoff)
  }

  function PruneHits(hits: seq<int>, windowMs: int, now: int): seq<int> { After(hits, now - windowMs) }

  function ApplyHit(state: Option<Bucket>, windowMs: int, max: int, now: int): (Bucket, Answer)
  {
    var prevHits := if state.Some? then PruneHits(state.value.hits, windowMs, now) else [];
    if |prevHits| >= max then (Bucket(prevHits, windowMs), Answer(true, 0))
    else (Bucket(prevHits + [now], windowMs), Answer(false, Max(0, max - |prevHits + [now]|)))
  }

  // ----- the specification: a limit on the accepted hits of the whole past -----

  /** How many of `times` lie in the half-open interval from `a` up to but not including `b`. */
  function CountFrom(times: seq<int>, a: int, b: int): nat
  {
    if times == [] then 0
    else CountFrom(times[..|times| - 1], a, b) + (if a <= times[|times| - 1] < b then 1 else 0)
  }

  /** The accepted ones among hits at `times`: those with fewer than `max` accepted in the window ending now. */
  function Accepted(times: seq<int>, windowMs: int, max: int): (r: seq<int>)
  {
    if times == [] then []
    else
      var now, before := times[|times| - 1], Accepted(times[..|times| - 1], windowMs, max);
      if CountFrom(before, now - windowMs + 1, now + 1) < max then before + [now] else before
  }

  predicate NonDecreasing(times: seq<int>) { forall i, j | 0 <= i < j < |times| :: times[i] <= times[j] }

  /** What the store holds for a key after hits at `times`. */
  function BucketAfter(times: seq<int>, windowMs: int, max: int): Option<Bucket>
  {
    if times == [] then None
    else Some(ApplyHit(BucketAfter(times[..|times| - 1], windowMs, max), windowMs, max, times[|times| - 1]).0)
  }

  lemma {:induction false} AfterAppend(hits: seq<int>, t: int, cutoff: int)
    ensures After(hits + [t], cutoff) == After(hits, cutoff) + (if t > cutoff then [t] else [])
  {
    if hits == [] {
      assert hits + [t] == [t];
    } else {
      AfterAppend(hits[1..], t, cutoff);
      assert (hits + [t])[1..] == hits[1..] + [t];
    }
  }

  lemma {:induction false} AfterMeans(hits: seq<int>, cutoff: int, h: int)
    ensures h in After(hits, cutoff) <==> h in hits && h > cutoff
  {
    if hits != [] {
      AfterMeans(hits[1..], cutoff, h);
    }
  }

  /** Pruning at an earlier cutoff first makes no difference. */
  lemma {:induction false} AfterTwice(hits: seq<int>, first: int, cutoff: int)
    requires first <= cutoff
    ensures After(After(hits, first), cutoff) == After(hits, cutoff)
  {
    if hits != [] {
      AfterTwice(hits[1..], first, cutoff);
      if hits[0] > first {
        assert After(hits, first)[1..] == After(hits[1..], first);
      } else {
        assert After(hits, first) == After(hits[1..], first);
      }
    }
  }

  lemma {:induction false} CountAfter(hits: seq<int>, cutoff: int, now: int)
    requires forall i | 0 <= i < |hits| :: hits[i] <= now
    ensures |After(hits, cutoff)| == CountFrom(hits, cutoff + 1, now + 1)
  {
    if hits != [] {
      var front, last := hits[..|hits| - 1], hits[|hits| - 1];
      CountAfter(front, cutoff, now);
      AfterAppend(front, last, cutoff);
      assert hits == front + [last];
    }
  }

  lemma {:induction false} AcceptedBounds(times: seq<int>, windowMs: int, max: int, now: int)
    requires forall i | 0 <= i < |times| :: times[i] <= now
    ensures forall i | 0 <= i < |Accepted(times, windowMs, max)| :: Accepted(times, windowMs, max)[i] <= now
  {
    if times != [] {
      AcceptedBounds(times[..|times| - 1], windowMs, max, now);
    }
  }

  /** The accepted hits still inside the window when the last of `times` arrives, before it is judged. */
  function Window(times: seq<int>, windowMs: int, max: int): seq<int>
    requires times != []
  {
    After(Accepted(times[..|times| - 1], windowMs, max), times[|times| - 1] - windowMs)
  }

  lemma {:induction false} WindowCount(times: seq<int>, windowMs: int, max: int)
    requires NonDecreasing(times) && times != []
    ensures var now := times[|times| - 1];
            |Window(times, windowMs, max)|
            == CountFrom(Accepted(times[..|times| - 1], windowMs, max), now - windowMs + 1, now + 1)
  {
    var front, now := times[..|times| - 1], times[|times| - 1];
    AcceptedBounds(front, windowMs, max, now);
    CountAfter(Accepted(front, windowMs, max), now - windowMs, now);
  }

  /** The store forgets all it prunes, and still judges each hit by the whole past. */
  lemma {:induction false} StoreKeepsTheWindow(times: seq<int>, windowMs: int, max: int)
    requires NonDecreasing(times) && times != []
    ensures var now, window := times[|times| - 1], Window(times, windowMs, max);
            BucketAfter(times, windowMs, max)
              == Some(Bucket(if |window| < max then window + [now] else window, windowMs))
    decreases |times|, 0
  {
    var front, now := times[..|times| - 1], times[|times| - 1];
    if front != [] {
      PrunedIsWindow(front, windowMs, max, now);
    }
  }

  /**
   A hit is rejected exactly when the accepted hits of the window ending at it already number
   `max`, and otherwise `remaining` says how many more that window can take.
   */
  lemma {:induction false} RejectedExactlyWhenFull(times: seq<int>, windowMs: int, max: int, now: int)
    requires NonDecreasing(times + [now])
    ensures var used := CountFrom(Accepted(times, windowMs, max), now - windowMs + 1, now + 1);
            ApplyHit(BucketAfter(times, windowMs, max), windowMs, max, now).1
            == if used >= max then Answer(true, 0) else Answer(false, max - used - 1)
  {
    hide After, CountFrom, NonDecreasing;
    var all := times + [now];
    assert all[..|all| - 1] == times;
    WindowCount(all, windowMs, max);
    if times != [] {
      FrontNonDecreasing(times, now);
      PrunedIsWindow(times, windowMs, max, now);
    }
  }

  lemma {:induction false} FrontNonDecreasing(times: seq<int>, now: int)
    requires NonDecreasing(times + [now])
    ensures NonDecreasing(times) && (times != [] ==> times[|times| - 1] <= now)
  {
    var all := times + [now];
    assert all[|times|] == now;
    forall i, j | 0 <= i < j < |times|
      ensures times[i] <= times[j]
    {
      assert all[i] <= all[j];
    }
    assert times != [] ==> all[|times| - 1] <= all[|times|];
  }

  lemma {:induction false} PrunedIsWindow(times: seq<int>, windowMs: int, max: int, now: int)
    requires NonDecreasing(times) && times != [] && times[|times| - 1] <= now
    ensures PruneHits(BucketAfter(times, windowMs, max).value.hits, windowMs, now)
            == After(Accepted(times, windowMs, max), now - windowMs)
    decreases |times|, 1
  {
    hide After, CountFrom;
    var last, window := times[|times| - 1], Window(times, windowMs, max);
    var older := Accepted(times[..|times| - 1], windowMs, max);
    StoreKeepsTheWindow(times, windowMs, max);
    WindowCount(times, windowMs, max);
    AfterTwice(older, last - windowMs, now - windowMs);
    AfterAppend(window, last, now - windowMs);
    AfterAppend(older, last, now - windowMs);
  }

  lemma {:induction false} CountNarrower(times: seq<int>, a: int, b: int, a': int, b': int)
    requires forall i | 0 <= i < |times| :: a <= times[i] < b ==> a' <= times[i] < b'
    ensures CountFrom(times, a, b) <= CountFrom(times, a', b')
  {
    if times != [] {
      CountNarrower(times[..|times| - 1], a, b, a', b');
    }
  }

  /** At most `max` hits are accepted in every half-open interval of length `windowMs`. */
  lemma {:induction false} NeverOverLimit(times: seq<int>, windowMs: int, max: int, a: int)
    requires NonDecreasing(times)
    ensures CountFrom(Accepted(times, windowMs, max), a, a + windowMs) <= Max(0, max)
  {
    if times != [] {
      var front, now := times[..|times| - 1], times[|times| - 1];
      var before := Accepted(front, windowMs, max);
      NeverOverLimit(front, windowMs, max, a);
      if a <= now < a + windowMs && Accepted(times, windowMs, max) == before + [now] {
        AcceptedBounds(front, windowMs, max, now);
        CountNarrower(before, a, a + windowMs, now - windowMs + 1, now + 1);
        assert (before + [now])[..|before|] == before;
      } else if Accepted(times, windowMs, max) == before + [now] {
        assert (before + [now])[..|before|] == before;
      }
    }
  }

  // ----- the store: one bucket per key -----

  type Buckets = map<string, Bucket>

  datatype Op = Hit(key: string, windowMs: int, max: int, now: int) | Clear(key: string)

  function HitsOf(bucket: Option<Bucket>): seq<int> { if bucket.Some? then bucket.value.hits else [] }

  function Get(buckets: Buckets, key: string): Option<Bucket> { if key in buckets then Some(buckets[key]) else None }

  function Step(buckets: Buckets, op: Op): Buckets
  {
    match op
    case Hit(key, windowMs, max, now) => buckets[key := ApplyHit(Get(buckets, key), windowMs, max, now).0]
    case Clear(key) => buckets - {key}
  }

  function RunOps(buckets: Buckets, ops: seq<Op>): Buckets
  {
    if ops == [] then buckets else Step(RunOps(buckets, ops[..|ops| - 1]), ops[|ops| - 1])
  }

  /** The times at which `key` was hit since it was last cleared. */
  function TimesOf(ops: seq<Op>, key: string): seq<int>
  {
    if ops == [] then []
    else
      var before := TimesOf(ops[..|ops| - 1], key);
      match ops[|ops| - 1]
      case Hit(k, _, _, now) => if k == key then before + [now] else before
      case Clear(k) => if k == key then [] else before
  }

  /** Whatever other keys do, a key with a fixed limit is judged by its own hits since its last clear. */
  lemma {:induction false} KeysAreIndependent(ops: seq<Op>, key: string, windowMs: int, max: int)
    requires forall op | op in ops && op.Hit? && op.key == key :: op.windowMs == windowMs && op.max == max
    ensures Get(RunOps(map[], ops), key) == BucketAfter(TimesOf(ops, key), windowMs, max)
  {
    if ops != [] {
      var front, op := ops[..|ops| - 1], ops[|ops| - 1];
      KeysAreIndependent(front, key, windowMs, max);
      var times := TimesOf(front, key);
      if op.Hit? && op.key == key {
        assert op in ops;
        assert (times + [op.now])[..|times|] == times;
      }
    }
  }

  /** Hits of a key all come with the window the key always has. */
  ghost predicate FixedWindows(ops: seq<Op>, window: string -> int)
  {
    forall op | op in ops && op.Hit? :: op.windowMs == window(op.key)
  }

  /** When the key was last hit since it was last cleared, or zero. */
  function LastHit(ops: seq<Op>, key: string): int
  {
    var times := TimesOf(ops, key);
    if times == [] then 0 else times[|times| - 1]
  }

  ghost predicate UpTo(hits: seq<int>, bound: int) { forall i | 0 <= i < |hits| :: hits[i] <= bound }

  lemma {:induction false} AfterUpTo(hits: seq<int>, cutoff: int, bound: int)
    requires UpTo(hits, bound)
    ensures UpTo(After(hits, cutoff), bound)
    ensures bound <= cutoff ==> After(hits, cutoff) == []
  {
    if hits != [] {
      AfterUpTo(hits[1..], cutoff, bound);
    }
  }

  // ----- what a key is stored under -----

  predicate SafeChar(c: char)
  {
    'a' <= c <= 'z' || 'A' <= c <= 'Z' || '0' <= c <= '9' || c in "_-.:@"
  }

  /** `safeKey`, and what `rateLimitRedisKey` puts behind its fixed prefix. */
  function SafeKey(key: string): (r: string)
    ensures |r| == |key| && forall i | 0 <= i < |r| :: SafeChar(r[i])
  {
    seq(|key|, i requires 0 <= i < |key| => if SafeChar(key[i]) then key[i] else '_')
  }

  const LOWER := "abcdefghijklmnopqrstuvwxyz"
  const UPPER := "ABCDEFGHIJKLMNOPQRSTUVWXYZ"

  /** The characters a stored key may have, one by one. */
  const SAFE := LOWER + UPPER + "0123456789_-.:@"

  lemma {:induction false} LowerListed(c: char)
    ensures c in LOWER <==> 'a' <= c <= 'z'
  {
    if 'a' <= c <= 'z' {
      assert LOWER[c as int - 97] == c;
    }
  }

  lemma {:induction false} UpperListed(c: char)
    ensures c in UPPER <==> 'A' <= c <= 'Z'
  {
    if 'A' <= c <= 'Z' {
      assert UPPER[c as int - 65] == c;
    }
  }

  lemma {:induction false} OthersListed(c: char)
    ensures c in "0123456789_-.:@" <==> '0' <= c <= '9' || c in "_-.:@"
  {
    var others := "0123456789_-.:@";
    if '0' <= c <= '9' {
      assert others[c as int - 48] == c;
    }
  }

  lemma {:induction false} SafeCharsAreListed(c: char)
    ensures SafeChar(c) <==> c in SAFE
  {
    LowerListed(c);
    UpperListed(c);
    OthersListed(c);
    InThree(c, LOWER, UPPER, "0123456789_-.:@");
    hide LOWER, UPPER;
  }

  lemma {:induction false} InThree(c: char, x: string, y: string, z: string)
    ensures c in x + y + z <==> c in x || c in y || c in z
  {
  }

  /** A key is stored under its own name, with an underscore for every other character. */
  lemma {:induction false} SafeKeyMeans(key: string)
    ensures |SafeKey(key)| == |key|
    ensures forall i | 0 <= i < |key| :: SafeKey(key)[i] == if key[i] in SAFE then key[i] else '_'
  {
    forall i | 0 <= i < |key|
      ensures SafeKey(key)[i] == if key[i] in SAFE then key[i] else '_'
    {
      SafeCharsAreListed(key[i]);
    }
  }

  /** Keys that differ only in characters outside the safe set share one bucket on disk and in Redis. */
  lemma {:induction false} SafeKeysCollide(a: string, b: string)
    ensures SafeKey(a) == SafeKey(b) <==>
            |a| == |b| && forall i | 0 <= i < |a| ::
              a[i] == b[i] || ((a[i] !in SAFE || a[i] == '_') && (b[i] !in SAFE || b[i] == '_'))
  {
    hide SafeKey;
    SafeKeyMeans(a);
    SafeKeyMeans(b);
    if SafeKey(a) == SafeKey(b) {
      forall i | 0 <= i < |a|
        ensures a[i] == b[i] || ((a[i] !in SAFE || a[i] == '_') && (b[i] !in SAFE || b[i] == '_'))
      {
        assert SafeKey(a)[i] == SafeKey(b)[i];
      }
    }
  }

  function SafeOp(op: Op): Op { op.(key := SafeKey(op.key)) }

  function SafeOps(ops: seq<Op>): (r: seq<Op>)
    ensures |r| == |ops|
  {
    seq(|ops|, i requires 0 <= i < |ops| => SafeOp(ops[i]))
  }

  lemma {:induction false} SafeOpsAppend(ops: seq<Op>, op: Op)
    ensures SafeOps(ops + [op]) == SafeOps(ops) + [SafeOp(op)]
  {
  }

  // ----- the store in memory -----

  class MemoryRateLimitStore {
    var buckets: Buckets

    constructor ()
      ensures buckets == map[]
    {
      buckets := map[];
    }

    /** `now` is what `Date.now()` returns. */
    method Hit(key: string, windowMs: int, max: int, now: int) returns (answer: Answer)
      modifies this
      ensures buckets == Step(old(buckets), Op.Hit(key, windowMs, max, now))
      ensures answer == ApplyHit(Get(old(buckets), key), windowMs, max, now).1
    {
      var (next, result) := ApplyHit(Get(buckets, key), windowMs, max, now);
      buckets := buckets[key := next];
      answer := result;
    }

    method Clear(key: string)
      modifies this
      ensures buckets == Step(old(buckets), Op.Clear(key))
    {
      buckets := buckets - {key};
    }
  }
}

/**
 The Redis store of `rate-limit-store.ts`: a sorted set of hits under one expiring key, changed by
 separate commands. Run one hit at a time it is the memory store; interleaved it can overshoot.
 */
module RedisRateLimit {
  import opened JsText
  import opened RateLimit

  /** A scored member `now:nonce`. */
  datatype Member = Member(score: nat, nonce: nat)

  /** The key's sorted set and the time at which Redis drops it. Redis keeps no empty set. */
  datatype Key = Key(members: set<Member>, expireAt: Option<int>)

  const MISSING := Key({}, None)

  function Normal(key: Key): Key { if key.members == {} then MISSING else key }

  /** What a command at time `clock` finds; in the very millisecond of its expiry a key still exists. */
  function Live(key: Key, clock: int): Key
  {
    if key.expireAt.Some? && clock > key.expireAt.value then MISSING else key
  }

  function Above(members: set<Member>, cutoff: int): set<Member> { set m | m in members && m.score > cutoff }

  /** ZREMRANGEBYSCORE key 0 max */
  function Zremrangebyscore(key: Key, max: int, clock: int): Key
  {
    Normal(Live(key, clock).(members := Above(Live(key, clock).members, max)))
  }

  function Zcard(key: Key, clock: int): nat { |Live(key, clock).members| }

  function Zadd(key: Key, m: Member, clock: int): Key
  {
    Live(key, clock).(members := Live(key, clock).members + {m})
  }

  function Pexpire(key: Key, ms: int, clock: int): Key
  {
    if Live(key, clock).members == {} || ms <= 0 then MISSING
    else Live(key, clock).(expireAt := Some(clock + ms))
  }

  /** The commands of one undisturbed hit, all answered at time `now`. */
  function HitAlone(key: Key, windowMs: int, max: int, now: nat, nonce: nat): (Key, Answer)
  {
    var pruned := Zremrangebyscore(key, now - windowMs, now);
    var count := Zcard(pruned, now);
    if count >= max then (Pexpire(pruned, windowMs, now), Answer(true, 0))
    else (Pexpire(Zadd(pruned, Member(now, nonce), now), windowMs, now), Answer(false, Max(0, max - count - 1)))
  }

  /** The rate-limit keys of a Redis, by what follows their prefix. */
  type Db = map<string, Key>

  function GetKey(db: Db, key: string): Key { if key in db then db[key] else MISSING }

  predicate Timed(op: Op) { op.Hit? ==> op.now >= 0 }

  function StepAlone(db: Db, op: Op, nonce: nat): Db
    requires Timed(op)
  {
    match op
    case Hit(key, windowMs, max, now) =>
      db[SafeKey(key) := HitAlone(GetKey(db, SafeKey(key)), windowMs, max, now, nonce).0]
    case Clear(key) => db - {SafeKey(key)}
  }

  class RedisRateLimitStore {
    var db: Db

    constructor ()
      ensures db == map[]
    {
      db := map[];
    }

    /** One undisturbed hit. */
    method Hit(key: string, windowMs: int, max: int, now: nat, nonce: nat) returns (answer: Answer)
      modifies this
      ensures db == StepAlone(old(db), Op.Hit(key, windowMs, max, now), nonce)
      ensures answer == HitAlone(GetKey(old(db), SafeKey(key)), windowMs, max, now, nonce).1
    {
      var rk := SafeKey(key);
      db := db[rk := Zremrangebyscore(GetKey(db, rk), now - windowMs, now)];
      var count := Zcard(db[rk], now);
      if count >= max {
        db := db[rk := Pexpire(db[rk], windowMs, now)];
        return Answer(true, 0);
      }
      db := db[rk := Zadd(db[rk], Member(now, nonce), now)];
      db := db[rk := Pexpire(db[rk], windowMs, now)];
      return Answer(false, Max(0, max - count - 1));
    }

    method Clear(key: string)
      modifies this
      ensures db == StepAlone(old(db), Op.Clear(key), 0)
    {
      db := db - {SafeKey(key)};
    }
  }

  // ----- one at a time: the memory store -----

  ghost predicate SameCounts(members: set<Member>, hits: seq<int>)
  {
    forall c: int :: |Above(members, c)| == |After(hits, c)|
  }

  /**
   The set holds the hits of the memory's bucket and expires one window after the last hit. A
   window that is not positive makes PEXPIRE drop the key at once.
   */
  ghost predicate Mirrors(key: Key, bucket: Option<Bucket>, last: int)
  {
    match bucket
    case None => key == MISSING
    case Some(b) =>
      && UpTo(b.hits, last)
      && (b.windowMs <= 0 ==> key == MISSING)
      && (b.windowMs > 0 ==>
            && (if key.members == {} then key == MISSING else key.expireAt == Some(last + b.windowMs))
            && SameCounts(key.members, b.hits))
  }

  /** The window of the last hit has run out, so the key is gone. */
  predicate Gone(bucket: Bucket, last: int, now: int) { bucket.windowMs <= 0 || now > last + bucket.windowMs }

  /**
   The key has expired, by the window of the last hit, while the memory still holds a hit that the
   window of the new one covers.
   */
  predicate Forgets(bucket: Option<Bucket>, last: int, windowMs: int, now: int)
  {
    bucket.Some? && Gone(bucket.value, last, now) && After(bucket.value.hits, now - windowMs) != []
  }

  lemma {:induction false} AfterEarlier(hits: seq<int>, cutoff: int, earlier: int)
    requires earlier <= cutoff
    ensures After(After(hits, cutoff), earlier) == After(hits, cutoff)
  {
    if hits != [] {
      AfterEarlier(hits[1..], cutoff, earlier);
      if hits[0] > cutoff {
        assert After(hits, cutoff) == [hits[0]] + After(hits[1..], cutoff);
        assert After(hits, cutoff)[1..] == After(hits[1..], cutoff);
      } else {
        assert After(hits, cutoff) == After(hits[1..], cutoff);
      }
    }
  }

  lemma {:induction false} PrunedCounts(members: set<Member>, hits: seq<int>, cutoff: int)
    requires SameCounts(members, hits)
    ensures SameCounts(Above(members, cutoff), After(hits, cutoff))
  {
    hide After;
    forall c: int
      ensures |Above(Above(members, cutoff), c)| == |After(After(hits, cutoff), c)|
    {
      if c >= cutoff {
        AfterTwice(hits, cutoff, c);
        assert Above(Above(members, cutoff), c) == Above(members, c);
      } else {
        AfterEarlier(hits, cutoff, c);
        assert Above(Above(members, cutoff), c) == Above(members, cutoff);
      }
    }
  }

  lemma {:induction false} AddedCounts(members: set<Member>, hits: seq<int>, now: nat, nonce: nat)
    requires SameCounts(members, hits) && Member(now, nonce) !in members
    ensures SameCounts(members + {Member(now, nonce)}, hits + [now])
  {
    hide After;
    forall c: int
      ensures |Above(members + {Member(now, nonce)}, c)| == |After(hits + [now], c)|
    {
      AfterAppend(hits, now, c);
      var before, after := Above(members, c), Above(members + {Member(now, nonce)}, c);
      assert after == if now > c then before + {Member(now, nonce)} else before;
    }
  }

  lemma {:induction false} NoCounts()
    ensures SameCounts({}, [])
  {
    forall c: int
      ensures |Above({}, c)| == |After([], c)|
    {
      assert Above({}, c) == {};
    }
  }

  lemma {:induction false} CountsAtLeast(members: set<Member>, hits: seq<int>, cutoff: int)
    requires SameCounts(members, hits)
    ensures |Above(members, cutoff)| == |After(hits, cutoff)|
  {
  }

  /** What a hit finds after pruning, on either side. */
  lemma {:induction false} WhatItSees(key: Key, bucket: Option<Bucket>, last: int, windowMs: int, now: nat)
    requires Mirrors(key, bucket, last) && (bucket.Some? ==> last <= now)
    ensures var pruned := Zremrangebyscore(key, now - windowMs, now);
            var remembered := After(HitsOf(bucket), now - windowMs);
            && Live(pruned, now) == pruned && (pruned.members == {} ==> pruned == MISSING)
            && (Forgets(bucket, last, windowMs, now) ==> |pruned.members| == 0 < |remembered|)
            && (!Forgets(bucket, last, windowMs, now) ==>
                  |pruned.members| == |remembered| && SameCounts(pruned.members, remembered))
  {
    hide After, SameCounts, UpTo;
    var cutoff := now - windowMs;
    NoCounts();
    NothingAbove(cutoff);
    if bucket.Some? && !Gone(bucket.value, last, now) {
      CountsAtLeast(key.members, bucket.value.hits, cutoff);
      PrunedCounts(key.members, bucket.value.hits, cutoff);
    }
  }

  lemma {:induction false} NothingAbove(cutoff: int)
    ensures Above({}, cutoff) == {} && After([], cutoff) == []
  {
  }

  /** Setting the expiry of a pruned or extended key. */
  lemma {:induction false} ExpiryMirrors(key: Key, hits: seq<int>, windowMs: int, now: nat)
    requires Live(key, now) == key && (key.members == {} ==> key == MISSING)
    requires SameCounts(key.members, hits) && UpTo(hits, now)
    ensures Mirrors(Pexpire(key, windowMs, now), Some(Bucket(hits, windowMs)), now)
  {
    hide SameCounts, UpTo;
  }

  /**
   One undisturbed hit with a fresh random suffix: the answer is that of the memory store and the
   key goes on mirroring the bucket, unless the hit finds the key expired too early. Then Redis
   sees nothing where the memory store sees hits.
   */
  lemma {:induction false} AloneIsMemory(
    key: Key, bucket: Option<Bucket>, last: int, windowMs: int, max: int, now: nat, nonce: nat)
    requires Mirrors(key, bucket, last) && (bucket.Some? ==> last <= now) && Member(now, nonce) !in key.members
    ensures var (nextKey, answer) := HitAlone(key, windowMs, max, now, nonce);
            var (nextBucket, expected) := ApplyHit(bucket, windowMs, max, now);
            && (!Forgets(bucket, last, windowMs, now) ==> answer == expected && Mirrors(nextKey, Some(nextBucket), now))
            && (Forgets(bucket, last, windowMs, now) && max >= 1 ==> answer != expected)
  {
    hide After, SameCounts, Mirrors, Forgets;
    var pruned := Zremrangebyscore(key, now - windowMs, now);
    var remembered := After(HitsOf(bucket), now - windowMs);
    WhatItSees(key, bucket, last, windowMs, now);
    NothingAbove(now - windowMs);
    if !Forgets(bucket, last, windowMs, now) {
      assert UpTo(remembered, now) by { MirrorsUpTo(key, bucket, last, windowMs, now); }
      if |remembered| >= max {
        ExpiryMirrors(pruned, remembered, windowMs, now);
      } else {
        AddedCounts(pruned.members, remembered, now, nonce);
        ExpiryMirrors(Zadd(pruned, Member(now, nonce), now), remembered + [now], windowMs, now);
      }
    }
  }

  lemma {:induction false} MirrorsUpTo(key: Key, bucket: Option<Bucket>, last: int, windowMs: int, now: nat)
    requires Mirrors(key, bucket, last) && (bucket.Some? ==> last <= now)
    ensures UpTo(After(HitsOf(bucket), now - windowMs), now)
  {
    if bucket.Some? {
      AfterUpTo(bucket.value.hits, now - windowMs, now);
    }
  }

  // ----- whole runs of undisturbed hits and clears -----

  /** Hits come at non-decreasing times, counted from 1970, and every call draws its own random suffix. */
  ghost predicate InTime(ops: seq<Op>, nonces: seq<nat>)
  {
    && |ops| == |nonces|
    && (forall i | 0 <= i < |ops| :: Timed(ops[i]))
    && (forall i, j | 0 <= i < j < |ops| && ops[i].Hit? && ops[j].Hit? :: ops[i].now <= ops[j].now)
    && (forall i, j | 0 <= i < j < |nonces| :: nonces[i] != nonces[j])
  }

  ghost function RunAlone(ops: seq<Op>, nonces: seq<nat>): Db
    requires InTime(ops, nonces)
  {
    if ops == [] then map[]
    else
      var n := |ops| - 1;
      StepAlone(RunAlone(ops[..n], nonces[..n]), ops[n], nonces[n])
  }

  /** The memory store's buckets after the same calls, with the keys as Redis names them. */
  function InMemory(ops: seq<Op>): Buckets { RunOps(map[], SafeOps(ops)) }

  /** The next call gets the same answer from both stores. */
  ghost predicate SameAnswer(ops: seq<Op>, nonces: seq<nat>, op: Op, nonce: nat)
    requires InTime(ops, nonces) && Timed(op)
  {
    op.Hit? ==>
      HitAlone(GetKey(RunAlone(ops, nonces), SafeKey(op.key)), op.windowMs, op.max, op.now, nonce).1
      == ApplyHit(Get(InMemory(ops), SafeKey(op.key)), op.windowMs, op.max, op.now).1
  }

  predicate ForgetsNext(ops: seq<Op>, op: Op)
  {
    op.Hit? &&
    Forgets(Get(InMemory(ops), SafeKey(op.key)), LastHit(SafeOps(ops), SafeKey(op.key)), op.windowMs, op.now)
  }

  ghost predicate NeverForgets(ops: seq<Op>) { forall n | 0 <= n < |ops| :: !ForgetsNext(ops[..n], ops[n]) }

  ghost predicate AllMirror(ops: seq<Op>, nonces: seq<nat>)
    requires InTime(ops, nonces)
  {
    forall key :: Mirrors(GetKey(RunAlone(ops, nonces), key), Get(InMemory(ops), key), LastHit(SafeOps(ops), key))
  }

  lemma {:induction false} FrontInTime(ops: seq<Op>, nonces: seq<nat>, n: nat)
    requires InTime(ops, nonces) && n <= |ops|
    ensures InTime(ops[..n], nonces[..n])
  {
  }

  lemma {:induction false} InMemoryStep(ops: seq<Op>, op: Op)
    ensures InMemory(ops + [op]) == Step(InMemory(ops), SafeOp(op))
    ensures forall key :: LastHit(SafeOps(ops + [op]), key) ==
              if op.Hit? && SafeKey(op.key) == key then op.now
              else if op.Clear? && SafeKey(op.key) == key then 0
              else LastHit(SafeOps(ops), key)
  {
    SafeOpsAppend(ops, op);
    assert (SafeOps(ops) + [SafeOp(op)])[..|ops|] == SafeOps(ops);
  }

  lemma {:induction false} RunAloneStep(ops: seq<Op>, nonces: seq<nat>)
    requires InTime(ops, nonces) && ops != []
    ensures var n := |ops| - 1;
            InTime(ops[..n], nonces[..n])
            && RunAlone(ops, nonces) == StepAlone(RunAlone(ops[..n], nonces[..n]), ops[n], nonces[n])
  {
  }

  lemma {:induction false} AddsOnlyItself(key: Key, windowMs: int, max: int, now: nat, nonce: nat)
    ensures forall m | m in HitAlone(key, windowMs, max, now, nonce).0.members :: m in key.members || m.nonce == nonce
  {
  }

  lemma {:induction false} MembersAreCalls(ops: seq<Op>, nonces: seq<nat>, key: string)
    requires InTime(ops, nonces)
    ensures forall m | m in GetKey(RunAlone(ops, nonces), key).members :: m.nonce in nonces
  {
    if ops != [] {
      var n := |ops| - 1;
      RunAloneStep(ops, nonces);
      MembersAreCalls(ops[..n], nonces[..n], key);
      assert nonces == nonces[..n] + [nonces[n]];
      hide HitAlone, RunAlone;
      if ops[n].Hit? && SafeKey(ops[n].key) == key {
        var before := GetKey(RunAlone(ops[..n], nonces[..n]), key);
        AddsOnlyItself(before, ops[n].windowMs, ops[n].max, ops[n].now, nonces[n]);
      }
    }
  }

  lemma {:induction false} LastHitIsPast(ops: seq<Op>, key: string, now: nat)
    requires forall op | op in ops && op.Hit? :: op.now <= now
    ensures LastHit(SafeOps(ops), key) <= now
  {
    if ops != [] {
      var n := |ops| - 1;
      assert ops == ops[..n] + [ops[n]];
      LastHitIsPast(ops[..n], key, now);
      InMemoryStep(ops[..n], ops[n]);
    }
  }

  /** A run that never forgets, and one more call. */
  lemma {:induction false} NextCall(ops: seq<Op>, nonces: seq<nat>, op: Op, nonce: nat)
    requires InTime(ops + [op], nonces + [nonce]) && InTime(ops, nonces) && Timed(op) && AllMirror(ops, nonces)
    ensures !ForgetsNext(ops, op) ==>
              SameAnswer(ops, nonces, op, nonce) && AllMirror(ops + [op], nonces + [nonce])
    ensures ForgetsNext(ops, op) && op.max >= 1 ==> !SameAnswer(ops, nonces, op, nonce)
  {
    hide HitAlone, ApplyHit, Mirrors, LastHit, Forgets, InMemory, SafeKey;
    var all, allNonces := ops + [op], nonces + [nonce];
    assert all[..|ops|] == ops && allNonces[..|ops|] == nonces && all[|ops|] == op && allNonces[|ops|] == nonce;
    RunAloneStep(all, allNonces);
    InMemoryStep(ops, op);
    if op.Hit? {
      var key := SafeKey(op.key);
      forall o | o in ops && o.Hit?
        ensures o.now <= op.now
      {
        var i :| 0 <= i < |ops| && ops[i] == o;
        assert all[i] == o;
      }
      LastHitIsPast(ops, key, op.now);
      forall i | 0 <= i < |nonces|
        ensures nonces[i] != nonce
      {
        assert allNonces[i] != allNonces[|nonces|];
      }
      MembersAreCalls(ops, nonces, key);
      AloneIsMemory(GetKey(RunAlone(ops, nonces), key), Get(InMemory(ops), key), LastHit(SafeOps(ops), key),
                    op.windowMs, op.max, op.now, nonce);
    } else {
      NothingMirrors();
    }
  }

  lemma {:induction false} NothingMirrors()
    ensures Mirrors(MISSING, None, 0)
  {
  }

  lemma {:induction false} NeverForgettingMirrors(ops: seq<Op>, nonces: seq<nat>)
    requires InTime(ops, nonces) && NeverForgets(ops)
    ensures AllMirror(ops, nonces)
  {
    if ops == [] {
      NothingMirrors();
      assert SafeOps([]) == [];
    } else {
      var n := |ops| - 1;
      FrontInTime(ops, nonces, n);
      assert forall i | 0 <= i <= n :: ops[..n][..i] == ops[..i];
      assert forall i | 0 <= i < n :: ops[..n][i] == ops[i];
      NeverForgettingMirrors(ops[..n], nonces[..n]);
      assert ops == ops[..n] + [ops[n]] && nonces == nonces[..n] + [nonces[n]];
      assert !ForgetsNext(ops[..n], ops[n]);
      hide ForgetsNext, AllMirror;
      NextCall(ops[..n], nonces[..n], ops[n], nonces[n]);
    }
  }

  /** Every call of the run gets the same answer from both stores. */
  ghost predicate SameAnswers(ops: seq<Op>, nonces: seq<nat>)
    requires InTime(ops, nonces)
  {
    forall n | 0 <= n < |ops| ::
      InTime(ops[..n], nonces[..n]) && SameAnswer(ops[..n], nonces[..n], ops[n], nonces[n])
  }

  lemma {:induction false} NthCall(ops: seq<Op>, nonces: seq<nat>, n: nat)
    requires InTime(ops, nonces) && n < |ops| && NeverForgets(ops[..n])
    ensures InTime(ops[..n], nonces[..n])
    ensures !ForgetsNext(ops[..n], ops[n]) ==> SameAnswer(ops[..n], nonces[..n], ops[n], nonces[n])
    ensures ForgetsNext(ops[..n], ops[n]) && ops[n].max >= 1 ==> !SameAnswer(ops[..n], nonces[..n], ops[n], nonces[n])
  {
    FrontInTime(ops, nonces, n);
    NeverForgettingMirrors(ops[..n], nonces[..n]);
    FrontInTime(ops, nonces, n + 1);
    assert ops[..n + 1] == ops[..n] + [ops[n]] && nonces[..n + 1] == nonces[..n] + [nonces[n]];
    hide ForgetsNext, AllMirror, SameAnswer;
    NextCall(ops[..n], nonces[..n], ops[n], nonces[n]);
  }

  lemma {:induction false} PrefixNeverForgets(ops: seq<Op>, n: nat)
    requires NeverForgets(ops) && n <= |ops|
    ensures NeverForgets(ops[..n])
  {
    assert forall i | 0 <= i <= n :: ops[..n][..i] == ops[..i];
  }

  lemma {:induction false} NotForgettingAgrees(ops: seq<Op>, nonces: seq<nat>)
    requires InTime(ops, nonces) && NeverForgets(ops)
    ensures SameAnswers(ops, nonces)
  {
    assert |ops| == |nonces| && forall i | 0 <= i < |ops| :: Timed(ops[i]);
    hide SameAnswer, ForgetsNext, InTime;
    forall n | 0 <= n < |ops|
      ensures InTime(ops[..n], nonces[..n]) && SameAnswer(ops[..n], nonces[..n], ops[n], nonces[n])
    {
      PrefixNeverForgets(ops, n);
      NthCall(ops, nonces, n);
    }
  }

  lemma {:induction false} NeverForgetsAppend(ops: seq<Op>, op: Op)
    requires NeverForgets(ops) && !ForgetsNext(ops, op)
    ensures NeverForgets(ops + [op])
  {
    hide ForgetsNext;
    var all := ops + [op];
    assert forall i | 0 <= i <= |ops| :: all[..i] == ops[..i];
    assert ops[..|ops|] == ops;
  }

  lemma {:induction false} AgreeingDoesNotForget(ops: seq<Op>, nonces: seq<nat>, m: nat)
    requires InTime(ops, nonces) && SameAnswers(ops, nonces) && m <= |ops|
    requires forall op | op in ops && op.Hit? :: op.max >= 1
    ensures NeverForgets(ops[..m])
  {
    if m > 0 {
      AgreeingDoesNotForget(ops, nonces, m - 1);
      var n := m - 1;
      assert ops[n] in ops && ops[..m] == ops[..n] + [ops[n]];
      assert InTime(ops[..n], nonces[..n]) && SameAnswer(ops[..n], nonces[..n], ops[n], nonces[n]);
      hide SameAnswer, SameAnswers, NeverForgets, ForgetsNext, InTime;
      OnlyHitsForget(ops[..n], ops[n]);
      NthCall(ops, nonces, n);
      NeverForgetsAppend(ops[..n], ops[n]);
    }
  }

  /**
   Over every run of undisturbed hits and clears, on any keys and with any limits and windows: the
   Redis store answers exactly as the memory store if and only if no hit finds its key expired by
   the window of the hit before it while its own window still covers a remembered hit.
   */
  lemma {:induction false} RunsLikeMemoryExactlyWhen(ops: seq<Op>, nonces: seq<nat>)
    requires InTime(ops, nonces)
    requires forall op | op in ops && op.Hit? :: op.max >= 1
    ensures SameAnswers(ops, nonces) <==> NeverForgets(ops)
  {
    hide SameAnswers, NeverForgets;
    if NeverForgets(ops) {
      NotForgettingAgrees(ops, nonces);
    }
    if SameAnswers(ops, nonces) {
      AgreeingDoesNotForget(ops, nonces, |ops|);
      assert ops[..|ops|] == ops;
    }
  }

  lemma {:induction false} OnlyHitsForget(ops: seq<Op>, op: Op)
    ensures ForgetsNext(ops, op) ==> op.Hit?
  {
  }

  lemma {:induction false} BucketFacts(ops: seq<Op>, key: string, window: string -> int)
    requires FixedWindows(SafeOps(ops), window)
    requires forall i, j | 0 <= i < j < |ops| && ops[i].Hit? && ops[j].Hit? :: ops[i].now <= ops[j].now
    requires forall i | 0 <= i < |ops| :: Timed(ops[i])
    ensures var b := Get(InMemory(ops), key);
            b.Some? ==> UpTo(b.value.hits, LastHit(SafeOps(ops), key)) && b.value.windowMs == window(key)
  {
    if ops != [] {
      var n := |ops| - 1;
      var front, op := ops[..n], ops[n];
      assert ops == front + [op];
      SafeOpsAppend(front, op);
      assert forall o | o in SafeOps(front) :: o in SafeOps(ops);
      BucketFacts(front, key, window);
      InMemoryStep(front, op);
      if op.Hit? && SafeKey(op.key) == key {
        assert SafeOps(ops)[n] == SafeOp(op);
        forall o | o in front && o.Hit?
          ensures o.now <= op.now
        {
          var i :| 0 <= i < n && ops[i] == o;
        }
        LastHitIsPast(front, key, op.now);
        hide LastHit, InMemory, After;
        BucketKeeps(Get(InMemory(front), key), LastHit(SafeOps(front), key), op.windowMs, op.max, op.now);
      }
    }
  }

  lemma {:induction false} BucketKeeps(bucket: Option<Bucket>, last: int, windowMs: int, max: int, now: int)
    requires bucket.Some? ==> UpTo(bucket.value.hits, last) && last <= now
    ensures var b := ApplyHit(bucket, windowMs, max, now).0; UpTo(b.hits, now) && b.windowMs == windowMs
  {
    if bucket.Some? {
      AfterUpTo(bucket.value.hits, now - windowMs, now);
    }
  }

  lemma {:induction false} FixedWindowRemembers(bucket: Option<Bucket>, last: int, windowMs: int, now: int)
    requires bucket.Some? ==> UpTo(bucket.value.hits, last) && last <= now && bucket.value.windowMs == windowMs
    ensures !Forgets(bucket, last, windowMs, now)
  {
    if bucket.Some? {
      AfterUpTo(bucket.value.hits, now - windowMs, last);
    }
  }

  lemma {:induction false} FixedWindowNext(ops: seq<Op>, op: Op, window: string -> int)
    requires FixedWindows(SafeOps(ops), window) && op.Hit? && op.windowMs == window(SafeKey(op.key)) && op.now >= 0
    requires forall i, j | 0 <= i < j < |ops| && ops[i].Hit? && ops[j].Hit? :: ops[i].now <= ops[j].now
    requires forall i | 0 <= i < |ops| :: Timed(ops[i]) && (ops[i].Hit? ==> ops[i].now <= op.now)
    ensures !ForgetsNext(ops, op)
  {
    var key := SafeKey(op.key);
    assert forall o | o in ops && o.Hit? :: o.now <= op.now;
    hide Forgets, After;
    BucketFacts(ops, key, window);
    LastHitIsPast(ops, key, op.now);
    FixedWindowRemembers(Get(InMemory(ops), key), LastHit(SafeOps(ops), key), op.windowMs, op.now);
  }

  /** When every key keeps its window, limits may change from call to call and nothing is forgotten. */
  lemma {:induction false} RunsLikeMemory(ops: seq<Op>, nonces: seq<nat>, window: string -> int)
    requires InTime(ops, nonces) && FixedWindows(SafeOps(ops), window)
    ensures NeverForgets(ops) && SameAnswers(ops, nonces)
  {
    hide Forgets, After, SafeKey, InMemory, LastHit;
    forall n | 0 <= n < |ops|
      ensures !ForgetsNext(ops[..n], ops[n])
    {
      if ops[n].Hit? {
        assert SafeOps(ops)[n] == SafeOp(ops[n]);
        assert forall i | 0 <= i < n :: SafeOps(ops[..n])[i] == SafeOps(ops)[i];
        assert ops[n].windowMs == window(SafeKey(ops[n].key)) by {
          assert SafeOps(ops)[n] in SafeOps(ops);
        }
        FixedWindowNext(ops[..n], ops[n], window);
      }
    }
    NotForgettingAgrees(ops, nonces);
  }

  lemma {:induction false} TwoHits(max: int, long: int, short: int, first: int, second: int, cutoff: int)
    requires max >= 2 && cutoff < second
    ensures var b := ApplyHit(Some(ApplyHit(None, long, max, first).0), short, max, second).0;
            b.windowMs == short && After(b.hits, cutoff) != []
  {
    var b := ApplyHit(None, long, max, first).0;
    assert b.hits == [first];
    var kept := PruneHits([first], short, second);
    AfterAppend(kept, second, cutoff);
  }

  lemma {:induction false} AfterTwoHits(a: Op, b: Op, key: string)
    requires a.Hit? && b.Hit? && SafeKey(a.key) == SafeKey(b.key) == key
    ensures Get(InMemory([a, b]), key)
            == Some(ApplyHit(Some(ApplyHit(None, a.windowMs, a.max, a.now).0), b.windowMs, b.max, b.now).0)
    ensures LastHit(SafeOps([a, b]), key) == b.now
  {
    hide ApplyHit, SafeKey, LastHit;
    var start: seq<Op> := [];
    assert SafeOps(start) == [] && InMemory(start) == map[];
    hide InMemory, SafeOps;
    InMemoryStep(start, a);
    InMemoryStep([a], b);
    assert start + [a] == [a] && [a] + [b] == [a, b];
  }

  /** So the stores differ when a key's long window follows a short one that has just run out. */
  lemma {:induction false} ShortWindowForgets(ops: seq<Op>, nonces: seq<nat>, max: int, long: int, short: int)
    requires InTime(ops, nonces) && |ops| == 3 && max >= 2
    requires forall i | 0 <= i < 3 :: ops[i].Hit? && ops[i].key == ops[0].key && ops[i].max == max
    requires ops[1].windowMs == short && ops[2].windowMs == long
    requires (short <= 0 || ops[1].now + short < ops[2].now) && ops[2].now < ops[1].now + long
    ensures !SameAnswers(ops, nonces)
  {
    var key := SafeKey(ops[0].key);
    assert ops[..2] == [ops[0], ops[1]];
    AfterTwoHits(ops[0], ops[1], key);
    TwoHits(max, ops[0].windowMs, short, ops[0].now, ops[1].now, ops[2].now - long);
    assert !NeverForgets(ops) by {
      hide InMemory, LastHit, ApplyHit, SafeKey, After;
      assert ForgetsNext(ops[..2], ops[2]);
    }
    hide *;
    RunsLikeMemoryExactlyWhen(ops, nonces);
  }

  // ----- many hits at once -----

  datatype Phase = Begun | Pruned | Admitted | Refused | Added

  /** One call of `hit`, with the clock it read at the start. */
  datatype Call = Call(now: nat, nonce: nat, phase: Phase)

  datatype State = State(key: Key, clock: nat, calls: map<nat, Call>)

  /** Steps of any number of calls; the commands of different calls may come in any order. */
  datatype Event =
    | Tick(to: nat)
    | Begin(id: nat, nonce: nat)
    | Prune(id: nat)
    | Count(id: nat)
    | Add(id: nat)
    | Expire(id: nat)
    | Del

  function Next(s: State, e: Event, windowMs: int, max: int): State
  {
    match e
    case Tick(to) => if to >= s.clock then s.(clock := to) else s
    case Begin(id, nonce) => if id in s.calls then s else s.(calls := s.calls[id := Call(s.clock, nonce, Begun)])
    case Prune(id) =>
      if id in s.calls && s.calls[id].phase.Begun? then
        s.(key := Zremrangebyscore(s.key, s.calls[id].now - windowMs, s.clock),
           calls := s.calls[id := s.calls[id].(phase := Pruned)])
      else s
    case Count(id) =>
      if id in s.calls && s.calls[id].phase.Pruned? then
        s.(calls := s.calls[id := s.calls[id].(phase := if Zcard(s.key, s.clock) >= max then Refused else Admitted)])
      else s
    case Add(id) =>
      if id in s.calls && s.calls[id].phase.Admitted? then
        s.(key := Zadd(s.key, Member(s.calls[id].now, s.calls[id].nonce), s.clock),
           calls := s.calls[id := s.calls[id].(phase := Added)])
      else s
    case Expire(id) =>
      if id in s.calls && (s.calls[id].phase.Refused? || s.calls[id].phase.Added?) then
        s.(key := Pexpire(s.key, windowMs, s.clock), calls := s.calls - {id})
      else s
    case Del => s.(key := MISSING)
  }

  /** The commands of a call run back to back are the undisturbed hit, and a DEL forgets the key. */
  lemma {:induction false} AloneIsTheSteps(s: State, wait: nat, id: nat, nonce: nat, windowMs: int, max: int)
    requires id !in s.calls
    ensures var now := s.clock + wait;
            var begun := Next(Next(s, Tick(now), windowMs, max), Begin(id, nonce), windowMs, max);
            var counted := Next(Next(begun, Prune(id), windowMs, max), Count(id), windowMs, max);
            var added := Next(counted, Add(id), windowMs, max);
            var done := Next(added, Expire(id), windowMs, max);
            var (key, answer) := HitAlone(s.key, windowMs, max, now, nonce);
            && done == State(key, now, s.calls)
            && id in counted.calls && (counted.calls[id].phase == Refused <==> answer.limited)
            && (answer.limited ==> added == counted)
            && Next(done, Del, windowMs, max) == State(MISSING, now, s.calls)
  {
    var now := s.clock + wait;
    hide Zremrangebyscore, Zcard, Zadd, Pexpire;
    var begun := Next(Next(s, Tick(now), windowMs, max), Begin(id, nonce), windowMs, max);
    assert begun.calls - {id} == s.calls;
  }

  /** Calls between their ZCARD and their ZADD. */
  function InFlight(s: State): set<nat> { set id | id in s.calls && s.calls[id].phase.Admitted? }

  function Stored(s: State): nat { |Live(s.key, s.clock).members| }

  const START := State(MISSING, 0, map[])

  function Run(events: seq<Event>, windowMs: int, max: int): State
  {
    if events == [] then START
    else Next(Run(events[..|events| - 1], windowMs, max), events[|events| - 1], windowMs, max)
  }

  /** At most `k` calls are between their count and their add at any time of the run. */
  ghost predicate AtMost(events: seq<Event>, windowMs: int, max: int, k: nat)
  {
    forall n | 0 <= n <= |events| :: |InFlight(Run(events[..n], windowMs, max))| <= k
  }

  /** The call whose ZCARD lets it go on, or whose ZADD this is. */
  predicate Admits(s: State, e: Event, max: int)
  {
    e.Count? && e.id in s.calls && s.calls[e.id].phase.Pruned? && Zcard(s.key, s.clock) < max
  }

  predicate Adds(s: State, e: Event) { e.Add? && e.id in s.calls && s.calls[e.id].phase.Admitted? }

  lemma {:induction false} InFlightStep(s: State, e: Event, windowMs: int, max: int)
    ensures InFlight(Next(s, e, windowMs, max)) ==
              if Admits(s, e, max) then InFlight(s) + {e.id}
              else if Adds(s, e) then InFlight(s) - {e.id} else InFlight(s)
    ensures Admits(s, e, max) ==> e.id !in InFlight(s)
    ensures Adds(s, e) ==> e.id in InFlight(s)
  {
    hide Zcard, Zadd, Pexpire, Zremrangebyscore;
  }

  lemma {:induction false} StoredStep(s: State, e: Event, windowMs: int, max: int)
    ensures Stored(Next(s, e, windowMs, max)) <= Stored(s) + (if Adds(s, e) then 1 else 0)
    ensures Admits(s, e, max) ==> Stored(Next(s, e, windowMs, max)) == Stored(s) < max
  {
    if e.Prune? {
      FewerMembers(Live(Next(s, e, windowMs, max).key, s.clock).members, Live(s.key, s.clock).members);
    }
  }

  lemma {:induction false} StepKeepsBound(s: State, e: Event, windowMs: int, max: int, k: nat)
    requires max >= 1 && |InFlight(Next(s, e, windowMs, max))| <= k
    requires Stored(s) + |InFlight(s)| <= max + k - 1
    ensures Stored(Next(s, e, windowMs, max)) + |InFlight(Next(s, e, windowMs, max))| <= max + k - 1
  {
    hide Next, InFlight, Stored, Zcard;
    InFlightStep(s, e, windowMs, max);
    StoredStep(s, e, windowMs, max);
    if Adds(s, e) {
      assert InFlight(s) == (InFlight(s) - {e.id}) + {e.id};
    }
  }

  lemma {:induction false} FewerMembers(a: set<Member>, b: set<Member>)
    requires a <= b
    ensures |a| <= |b|
  {
    assert b == a + (b - a);
  }

  /**
   As long as at most `k` calls are between their count and their add at any one time, the key
   never holds more than `max + k - 1` hits, however the commands interleave.
   */
  lemma {:induction false} OvershootIsBounded(events: seq<Event>, windowMs: int, max: int, k: nat)
    requires max >= 1 && k >= 1 && AtMost(events, windowMs, max, k)
    ensures Stored(Run(events, windowMs, max)) + |InFlight(Run(events, windowMs, max))| <= max + k - 1
  {
    if events == [] {
      assert InFlight(START) == {};
    } else {
      var front := events[..|events| - 1];
      assert forall n | 0 <= n <= |front| :: front[..n] == events[..n];
      assert events[..|events|] == events;
      OvershootIsBounded(front, windowMs, max, k);
      StepKeepsBound(Run(front, windowMs, max), events[|events| - 1], windowMs, max, k);
    }
  }

  // ----- the bound is reached -----

  /** The hits 0 to `n - 1`, all at time 0. */
  function Hits(n: nat): set<Member> { set i | 0 <= i < n :: Member(0, i) }

  function Holding(n: nat, windowMs: int): Key { if n == 0 then MISSING else Key(Hits(n), Some(windowMs)) }

  function Waiting(a: nat, b: nat): map<nat, Call> { map id | a <= id < b :: Call(0, id, Admitted) }

  /** At time 0 the key holds `n` hits and the calls from `a` up to `b` have counted and not yet added. */
  function At(n: nat, a: nat, b: nat, windowMs: int): State { State(Holding(n, windowMs), 0, Waiting(a, b)) }

  lemma {:induction false} HitsNumber(n: nat)
    ensures |Hits(n)| == n && Hits(n + 1) == Hits(n) + {Member(0, n)} && Member(0, n) !in Hits(n)
    decreases n
  {
    if n == 0 {
      assert Hits(0) == {};
    } else {
      HitsNumber(n - 1);
    }
  }

  lemma {:induction false} WaitingNumber(n: nat, a: nat, b: nat, windowMs: int)
    requires a <= b
    ensures |InFlight(At(n, a, b, windowMs))| == b - a
  {
    assert InFlight(At(n, a, b, windowMs)) == Waiting(a, b).Keys;
    RangeNumber(a, b);
  }

  lemma {:induction false} RangeNumber(a: nat, b: nat)
    requires a <= b
    ensures |Waiting(a, b).Keys| == b - a
    decreases b - a
  {
    if a < b {
      RangeNumber(a, b - 1);
      assert Waiting(a, b).Keys == Waiting(a, b - 1).Keys + {b - 1};
    } else {
      assert Waiting(a, b).Keys == {};
    }
  }

  ghost predicate Reaches(events: seq<Event>, windowMs: int, max: int, k: nat, s: State)
  {
    Run(events, windowMs, max) == s && AtMost(events, windowMs, max, k)
  }

  lemma {:induction false} Extend(events: seq<Event>, e: Event, windowMs: int, max: int, k: nat, s: State)
    requires Reaches(events, windowMs, max, k, s) && |InFlight(Next(s, e, windowMs, max))| <= k
    ensures Reaches(events + [e], windowMs, max, k, Next(s, e, windowMs, max))
  {
    var all := events + [e];
    assert all[..|events|] == events && all[..|all|] == all;
    assert forall n | 0 <= n <= |events| :: all[..n] == events[..n];
  }

  /** Pruning at time 0 drops nothing and counting finds every hit. */
  lemma {:induction false} HoldingKeeps(n: nat, windowMs: int)
    requires windowMs >= 1
    ensures Zremrangebyscore(Holding(n, windowMs), -windowMs, 0) == Holding(n, windowMs)
    ensures Zcard(Holding(n, windowMs), 0) == n
  {
    HitsNumber(n);
    assert Above(Hits(n), -windowMs) == Hits(n) && Above({}, -windowMs) == {};
  }

  /** Another call begins, prunes nothing and counts less than the limit. */
  lemma {:induction false} AdmitSteps(n: nat, a: nat, b: nat, windowMs: int, max: int)
    requires windowMs >= 1 && n < max && a <= b
    ensures var s := At(n, a, b, windowMs);
            var s1 := Next(s, Begin(b, b), windowMs, max);
            var s2 := Next(s1, Prune(b), windowMs, max);
            && InFlight(s1) == InFlight(s2) == InFlight(s)
            && Next(s2, Count(b), windowMs, max) == At(n, a, b + 1, windowMs)
  {
    HoldingKeeps(n, windowMs);
    hide Holding, Zremrangebyscore, Zcard;
    assert Waiting(a, b)[b := Call(0, b, Admitted)] == Waiting(a, b + 1);
    assert 0 - windowMs == -windowMs;
  }

  lemma {:induction false} Admit(events: seq<Event>, n: nat, a: nat, b: nat, windowMs: int, max: int, k: nat)
      returns (longer: seq<Event>)
    requires windowMs >= 1 && n < max && a <= b < a + k && Reaches(events, windowMs, max, k, At(n, a, b, windowMs))
    ensures Reaches(longer, windowMs, max, k, At(n, a, b + 1, windowMs))
  {
    hide Reaches, Next, At, InFlight;
    var s := At(n, a, b, windowMs);
    AdmitSteps(n, a, b, windowMs, max);
    WaitingNumber(n, a, b, windowMs);
    WaitingNumber(n, a, b + 1, windowMs);
    var s1 := Next(s, Begin(b, b), windowMs, max);
    Extend(events, Begin(b, b), windowMs, max, k, s);
    Extend(events + [Begin(b, b)], Prune(b), windowMs, max, k, s1);
    longer := events + [Begin(b, b)] + [Prune(b)];
    Extend(longer, Count(b), windowMs, max, k, Next(s1, Prune(b), windowMs, max));
    longer := longer + [Count(b)];
  }

  lemma {:induction false} HoldingGrows(n: nat, windowMs: int)
    requires windowMs >= 1
    ensures Pexpire(Zadd(Holding(n, windowMs), Member(0, n), 0), windowMs, 0) == Holding(n + 1, windowMs)
  {
    HitsNumber(n);
  }

  /** The first waiting call adds its hit and sets the expiry. */
  lemma {:induction false} ReleaseSteps(n: nat, b: nat, windowMs: int, max: int)
    requires windowMs >= 1 && n < b
    ensures var s := At(n, n, b, windowMs);
            var s1 := Next(s, Add(n), windowMs, max);
            && InFlight(s1) == InFlight(s) - {n}
            && Next(s1, Expire(n), windowMs, max) == At(n + 1, n + 1, b, windowMs)
  {
    HoldingGrows(n, windowMs);
    InFlightStep(At(n, n, b, windowMs), Add(n), windowMs, max);
    hide Holding, Zadd, Pexpire, InFlight;
    assert Waiting(n, b)[n := Call(0, n, Added)] - {n} == Waiting(n + 1, b);
  }

  lemma {:induction false} Release(events: seq<Event>, n: nat, b: nat, windowMs: int, max: int, k: nat)
      returns (longer: seq<Event>)
    requires windowMs >= 1 && n < b <= n + k && Reaches(events, windowMs, max, k, At(n, n, b, windowMs))
    ensures Reaches(longer, windowMs, max, k, At(n + 1, n + 1, b, windowMs))
  {
    hide Reaches, Next, At, InFlight;
    var s := At(n, n, b, windowMs);
    ReleaseSteps(n, b, windowMs, max);
    WaitingNumber(n, n, b, windowMs);
    WaitingNumber(n + 1, n + 1, b, windowMs);
    Fewer(InFlight(s), n);
    Extend(events, Add(n), windowMs, max, k, s);
    Extend(events + [Add(n)], Expire(n), windowMs, max, k, Next(s, Add(n), windowMs, max));
    longer := events + [Add(n)] + [Expire(n)];
  }

  lemma {:induction false} Fewer(ids: set<nat>, id: nat)
    ensures |ids - {id}| <= |ids|
  {
    if id in ids {
      assert ids == (ids - {id}) + {id};
    } else {
      assert ids - {id} == ids;
    }
  }

  /**
   For every window, limit and number of calls at once some run reaches the bound: calls one after
   the other up to one below the limit, then `k` calls that all count before any of them adds.
   */
  lemma {:induction false} OvershootIsReached(windowMs: int, max: nat, k: nat) returns (events: seq<Event>)
    requires windowMs >= 1 && max >= 1 && k >= 1
    ensures AtMost(events, windowMs, max, k) && InFlight(Run(events, windowMs, max)) == {}
    ensures Stored(Run(events, windowMs, max)) == max + k - 1
  {
    hide *;
    NoneYet(windowMs, max, k);
    events := [];
    for n := 0 to max - 1
      invariant Reaches(events, windowMs, max, k, At(n, n, n, windowMs))
    {
      events := Admit(events, n, n, n, windowMs, max, k);
      events := Release(events, n, n + 1, windowMs, max, k);
    }
    var m := max - 1;
    for j := 0 to k
      invariant Reaches(events, windowMs, max, k, At(m, m, m + j, windowMs))
    {
      events := Admit(events, m, m, m + j, windowMs, max, k);
    }
    for j := 0 to k
      invariant Reaches(events, windowMs, max, k, At(m + j, m + j, m + k, windowMs))
    {
      events := Release(events, m + j, m + k, windowMs, max, k);
    }
    Emptied(m + k, windowMs);
    ReachesMeans(events, windowMs, max, k, At(m + k, m + k, m + k, windowMs));
  }

  lemma {:induction false} NoneYet(windowMs: int, max: int, k: nat)
    ensures Reaches([], windowMs, max, k, At(0, 0, 0, windowMs))
  {
    assert Waiting(0, 0) == map[] && InFlight(START) == {};
    assert forall events: seq<Event> | events == [] :: Run(events, windowMs, max) == START;
  }

  lemma {:induction false} ReachesMeans(events: seq<Event>, windowMs: int, max: int, k: nat, s: State)
    requires Reaches(events, windowMs, max, k, s)
    ensures Run(events, windowMs, max) == s && AtMost(events, windowMs, max, k)
  {
  }

  lemma {:induction false} Emptied(n: nat, windowMs: int)
    requires windowMs >= 1
    ensures InFlight(At(n, n, n, windowMs)) == {} && Stored(At(n, n, n, windowMs)) == n
  {
    HitsNumber(n);
  }

  /** No run ever exceeds the limit if and only if calls never overlap between count and add. */
  lemma {:induction false} LimitHoldsExactlyAlone(windowMs: int, max: nat, k: nat)
    requires windowMs >= 1 && max >= 1 && k >= 1
    ensures (forall events | AtMost(events, windowMs, max, k) :: Stored(Run(events, windowMs, max)) <= max) <==> k == 1
  {
    hide Run, Stored;
    if k == 1 {
      forall events | AtMost(events, windowMs, max, k)
        ensures Stored(Run(events, windowMs, max)) <= max
      {
        OvershootIsBounded(events, windowMs, max, k);
      }
    } else {
      var events := OvershootIsReached(windowMs, max, k);
    }
  }

  /** Two calls that both count before either adds pass a limit of one. */
  lemma {:induction false} TwoPassALimitOfOne(windowMs: int)
    requires windowMs >= 1
    ensures exists events ::
              InFlight(Run(events, windowMs, 1)) == {} && Stored(Run(events, windowMs, 1)) == 2
  {
    var events := OvershootIsReached(windowMs, 1, 2);
  }
}

/**
 The disk-backed store of `rate-limit-store.ts`: a cache in memory, and for each key a chain of
 pending writes and deletions that trickle onto the disk one at a time, any of which may fail.
 */
module FileRateLimit {
  import opened JsText
  import opened RateLimit

  datatype DiskOp = Write(bucket: Bucket) | Delete

  /** What a chain leaves in a key's file when every operation in it succeeds. */
  function Replay(chain: seq<DiskOp>, file: Option<Bucket>): Option<Bucket>
  {
    if chain == [] then file
    else Replay(chain[1..], if chain[0].Write? then Some(chain[0].bucket) else None)
  }

  function Chain(chains: map<string, seq<DiskOp>>, key: string): seq<DiskOp>
  {
    if key in chains then chains[key] else []
  }

  lemma {:induction false} ReplayAppend(chain: seq<DiskOp>, op: DiskOp, file: Option<Bucket>)
    ensures Replay(chain + [op], file) == if op.Write? then Some(op.bucket) else None
  {
    if chain == [] {
      assert chain + [op] == [op];
      assert [op][1..] == [];
    } else {
      assert (chain + [op])[1..] == chain[1..] + [op];
      ReplayAppend(chain[1..], op, if chain[0].Write? then Some(chain[0].bucket) else None);
    }
  }

  /** Only the last operation of a chain matters for what it leaves behind. */
  lemma {:induction false} ReplayForgets(chain: seq<DiskOp>, file: Option<Bucket>, other: Option<Bucket>)
    requires chain != []
    ensures Replay(chain, file) == Replay(chain, other)
  {
  }

  /** The part of a bucket that its own window still covers at time `now`, if any. */
  function Live(state: Option<Bucket>, now: int): Option<Bucket>
  {
    if state.None? || PruneHits(state.value.hits, state.value.windowMs, now) == [] then None
    else Some(Bucket(PruneHits(state.value.hits, state.value.windowMs, now), state.value.windowMs))
  }

  /** `hydrateFromDisk`: hits are pruned by the window saved with them, empty buckets are dropped. */
  function Hydrate(disk: Buckets, now: int): (cache: Buckets)
    ensures forall key :: Get(cache, key) == Live(Get(disk, key), now)
  {
    map key | key in disk && PruneHits(disk[key].hits, disk[key].windowMs, now) != [] ::
      Bucket(PruneHits(disk[key].hits, disk[key].windowMs, now), disk[key].windowMs)
  }

  lemma {:induction false} LiveTwice(state: Option<Bucket>, earlier: int, now: int)
    requires earlier <= now
    ensures Live(Live(state, earlier), now) == Live(state, now)
  {
    if state.Some? {
      AfterTwice(state.value.hits, earlier - state.value.windowMs, now - state.value.windowMs);
    }
  }

  // ----- the store as a state machine -----

  /**
   The cache, the pending chains and the files. `since` is when the cache was filled from disk,
   `touched` are the keys hit or cleared since, `stale` those whose chain ended in a failure.
   */
  datatype State = State(
    cache: Buckets, chains: map<string, seq<DiskOp>>, disk: Buckets, since: int, touched: set<string>,
    stale: set<string>)

  datatype Event =
    | Call(op: Op)
    | RunNext(key: string, ok: bool)
    | Restart(now: int)

  /** A new process: the cache is hydrated, and files without a live hit are removed. */
  function Booted(disk: Buckets, now: int): State
  {
    State(Hydrate(disk, now), map[], map key | key in disk && key in Hydrate(disk, now) :: disk[key], now, {}, {})
  }

  function AsFile(op: DiskOp): Option<Bucket> { if op.Write? then Some(op.bucket) else None }

  /** Puts an operation at the end of a key's chain. */
  function Scheduled(s: State, key: string, op: DiskOp): State
  {
    s.(chains := s.chains[key := Chain(s.chains, key) + [op]], touched := s.touched + {key}, stale := s.stale - {key})
  }

  /** The first pending operation of a key is tried; on failure the file stays as it is. */
  function Tried(s: State, key: string, ok: bool): State
  {
    var chain := Chain(s.chains, key);
    if chain == [] then s
    else
      s.(disk := if !ok then s.disk else if chain[0].Write? then s.disk[key := chain[0].bucket] else s.disk - {key},
         chains := if |chain| == 1 then s.chains - {key} else s.chains[key := chain[1..]],
         stale := if !ok && |chain| == 1 then s.stale + {key} else s.stale - {key})
  }

  function Next(s: State, e: Event): State
  {
    match e
    case Call(op) =>
      var key, cache := SafeKey(op.key), Step(s.cache, SafeOp(op));
      Scheduled(s.(cache := cache), key, if op.Hit? then Write(cache[key]) else Delete)
    case RunNext(key, ok) => Tried(s, key, ok)
    case Restart(now) => Booted(s.disk, now)
  }

  /** Replaying what is pending for a key gives its cache entry; an untouched key is as it was hydrated. */
  ghost predicate Synced(s: State, key: string)
  {
    if key in s.touched then Replay(Chain(s.chains, key), Get(s.disk, key)) == Get(s.cache, key)
    else Chain(s.chains, key) == [] && Get(s.cache, key) == Live(Get(s.disk, key), s.since)
  }

  ghost predicate Valid(s: State)
  {
    forall key :: if key in s.stale then Chain(s.chains, key) == [] else Synced(s, key)
  }

  lemma {:induction false} BootIsValid(disk: Buckets, now: int)
    ensures Valid(Booted(disk, now))
  {
    forall key
      ensures Synced(Booted(disk, now), key)
    {
      assert Get(Hydrate(disk, now), key) == Live(Get(disk, key), now);
    }
  }

  lemma {:induction false} ScheduledIsValid(s: State, t: State, key: string, op: DiskOp)
    requires Valid(s) && AsFile(op) == Get(t.cache, key)
    requires t.chains == s.chains && t.disk == s.disk && t.since == s.since && t.touched == s.touched
             && t.stale == s.stale
    requires forall k | k != key :: Get(t.cache, k) == Get(s.cache, k)
    ensures Valid(Scheduled(t, key, op))
  {
    var u := Scheduled(t, key, op);
    ReplayAppend(Chain(s.chains, key), op, Get(s.disk, key));
    forall k | k !in u.stale
      ensures Synced(u, k)
    {
      assert k != key ==> k !in s.stale && Synced(s, k);
    }
  }

  lemma {:induction false} TriedIsValid(s: State, key: string, ok: bool)
    requires Valid(s)
    ensures Valid(Tried(s, key, ok))
  {
    var t, chain := Tried(s, key, ok), Chain(s.chains, key);
    if chain != [] {
      assert key !in s.stale && Synced(s, key) && key in s.touched;
      if |chain| > 1 {
        ReplayForgets(chain[1..], Get(t.disk, key), AsFile(chain[0]));
      }
      hide Live;
      forall k | k !in t.stale
        ensures Synced(t, k)
      {
        assert k != key ==> k !in s.stale && Synced(s, k);
      }
    }
  }

  /** What a new process finds: the files with a hit that their window still covers, and of these that part. */
  lemma {:induction false} BootKeepsLiveFiles(disk: Buckets, now: int, key: string)
    ensures var t := Booted(disk, now);
            && (key in t.disk <==> key in t.cache)
            && (key in t.disk <==> key in disk && exists h :: h in disk[key].hits && h > now - disk[key].windowMs)
            && (key in t.disk ==>
                  && t.disk[key] == disk[key] && t.cache[key].windowMs == disk[key].windowMs
                  && forall h :: h in t.cache[key].hits <==> h in disk[key].hits && h > now - disk[key].windowMs)
  {
    if key in disk {
      var hits, cutoff := disk[key].hits, now - disk[key].windowMs;
      forall h
        ensures h in After(hits, cutoff) <==> h in hits && h > cutoff
      {
        AfterMeans(hits, cutoff, h);
      }
      if After(hits, cutoff) != [] {
        assert After(hits, cutoff)[0] in After(hits, cutoff);
      }
    }
  }

  /** The pending operations of a key, one by one, all succeeding. */
  function DrainKey(s: State, key: string): State
    decreases |Chain(s.chains, key)|
  {
    if Chain(s.chains, key) == [] then s else DrainKey(Next(s, RunNext(key, true)), key)
  }

  /** When they all succeed the file ends up as the cache entry, and nothing else changes. */
  lemma {:induction false} DrainedFileIsTheCache(s: State, key: string)
    requires Valid(s) && Chain(s.chains, key) != []
    ensures var t := DrainKey(s, key);
            && Chain(t.chains, key) == [] && key !in t.stale && Get(t.disk, key) == Get(s.cache, key)
            && t.cache == s.cache && (forall k | k != key :: Get(t.disk, k) == Get(s.disk, k))
    decreases |Chain(s.chains, key)|
  {
    var next := Next(s, RunNext(key, true));
    assert Synced(s, key) && key in s.touched;
    hide Valid, Live, Hydrate, ApplyHit;
    TriedIsValid(s, key, true);
    if Chain(next.chains, key) != [] {
      DrainedFileIsTheCache(next, key);
    }
  }

  /** Every call, every pending operation that succeeds or fails, and every restart keeps the store valid. */
  lemma {:induction false} StepKeepsValid(s: State, e: Event)
    requires Valid(s)
    ensures Valid(Next(s, e))
  {
    hide Valid, Scheduled, Tried, Booted, Hydrate, ApplyHit;
    match e
    case Call(op) =>
      var key, cache := SafeKey(op.key), Step(s.cache, SafeOp(op));
      ScheduledIsValid(s, s.(cache := cache), key, if op.Hit? then Write(cache[key]) else Delete);
    case RunNext(key, ok) => TriedIsValid(s, key, ok);
    case Restart(now) => BootIsValid(s.disk, now);
  }

  class FileRateLimitStore {
    var cache: Buckets
    var writeChains: map<string, seq<DiskOp>>
    var disk: Buckets
    ghost var since: int
    ghost var touched: set<string>
    ghost var stale: set<string>

    ghost function View(): State
      reads this
    {
      State(cache, writeChains, disk, since, touched, stale)
    }

    constructor (disk: Buckets, now: int)
      ensures View() == Booted(disk, now) && Valid(View())
    {
      this.cache := Hydrate(disk, now);
      this.disk := map key | key in disk && key in Hydrate(disk, now) :: disk[key];
      this.writeChains, this.since, this.touched, this.stale := map[], now, {}, {};
      BootIsValid(disk, now);
    }

    /** `scheduleWrite` and `scheduleDelete` */
    method Schedule(key: string, op: DiskOp)
      modifies this`writeChains, this`touched, this`stale
      ensures View() == Scheduled(old(View()), key, op)
    {
      writeChains := writeChains[key := Chain(writeChains, key) + [op]];
      touched, stale := touched + {key}, stale - {key};
    }

    method Hit(key: string, windowMs: int, max: int, now: int) returns (answer: Answer)
      requires Valid(View())
      modifies this
      ensures View() == Next(old(View()), Call(Op.Hit(key, windowMs, max, now))) && Valid(View())
      ensures answer == ApplyHit(Get(old(cache), SafeKey(key)), windowMs, max, now).1
      ensures Replay(Chain(writeChains, SafeKey(key)), Get(disk, SafeKey(key))) == Get(cache, SafeKey(key))
    {
      StepKeepsValid(View(), Call(Op.Hit(key, windowMs, max, now)));
      var cacheKey := SafeKey(key);
      var (next, result) := ApplyHit(Get(cache, cacheKey), windowMs, max, now);
      cache := cache[cacheKey := next];
      answer := result;
      Schedule(cacheKey, Write(next));
      assert Synced(View(), cacheKey);
    }

    method Clear(key: string)
      requires Valid(View())
      modifies this
      ensures View() == Next(old(View()), Call(Op.Clear(key))) && Valid(View())
      ensures Replay(Chain(writeChains, SafeKey(key)), Get(disk, SafeKey(key))) == None
    {
      StepKeepsValid(View(), Call(Op.Clear(key)));
      var cacheKey := SafeKey(key);
      cache := cache - {cacheKey};
      Schedule(cacheKey, Delete);
      assert Synced(View(), cacheKey);
    }

    method RunNext(key: string, ok: bool)
      requires Valid(View()) && Chain(writeChains, key) != []
      modifies this`writeChains, this`disk, this`stale
      ensures View() == Next(old(View()), Event.RunNext(key, ok)) && Valid(View())
    {
      StepKeepsValid(View(), Event.RunNext(key, ok));
      var chain := writeChains[key];
      if ok {
        disk := if chain[0].Write? then disk[key := chain[0].bucket] else disk - {key};
      }
      writeChains := if |chain| == 1 then writeChains - {key} else writeChains[key := chain[1..]];
      stale := if !ok && |chain| == 1 then stale + {key} else stale - {key};
    }
  }

  /** Everything pending has been tried, and no key's last operation failed. */
  ghost predicate Drained(s: State)
  {
    s.stale == {} && forall key :: Chain(s.chains, key) == []
  }

  /** A process that starts from a drained disk holds exactly the live part of the old cache. */
  lemma {:induction false} DrainedDiskIsTheCache(s: State, now: int)
    requires Valid(s) && Drained(s) && s.since <= now
    ensures forall key :: Get(Booted(s.disk, now).cache, key) == Live(Get(s.cache, key), now)
  {
    hide Live;
    forall key
      ensures Get(Hydrate(s.disk, now), key) == Live(Get(s.cache, key), now)
    {
      assert key !in s.stale && Synced(s, key) && Chain(s.chains, key) == [];
      if key !in s.touched {
        LiveTwice(Get(s.disk, key), s.since, now);
      }
    }
  }

  // ----- a restart cannot be noticed -----

  function Answers(buckets: Buckets, ops: seq<Op>): seq<Answer>
    decreases |ops|
  {
    if ops == [] then []
    else
      (match ops[0]
       case Hit(key, windowMs, max, now) => [ApplyHit(Get(buckets, key), windowMs, max, now).1]
       case Clear(_) => []) + Answers(Step(buckets, ops[0]), ops[1..])
  }

  /** Each key is always hit with its own window. */
  ghost predicate FixedWindowsFrom(ops: seq<Op>, window: string -> int, from: int)
  {
    forall i | 0 <= i < |ops| && ops[i].Hit? :: ops[i].windowMs == window(ops[i].key) && ops[i].now >= from
  }

  /** Two buckets that no hit with window `w` at or after `from` can tell apart. */
  ghost predicate Alike(x: Option<Bucket>, y: Option<Bucket>, w: int, from: int)
  {
    After(HitsOf(x), from - w) == After(HitsOf(y), from - w)
  }

  lemma {:induction false} AlikeAnswers(a: Buckets, b: Buckets, ops: seq<Op>, window: string -> int, from: int)
    requires FixedWindowsFrom(ops, window, from)
    requires forall key :: Alike(Get(a, key), Get(b, key), window(key), from)
    ensures Answers(a, ops) == Answers(b, ops)
    decreases |ops|
  {
    hide After;
    if ops != [] {
      var op := ops[0];
      if op.Hit? {
        AfterTwice(HitsOf(Get(a, op.key)), from - op.windowMs, op.now - op.windowMs);
        AfterTwice(HitsOf(Get(b, op.key)), from - op.windowMs, op.now - op.windowMs);
        assert ApplyHit(Get(a, op.key), op.windowMs, op.max, op.now)
          == ApplyHit(Get(b, op.key), op.windowMs, op.max, op.now);
      }
      forall key
        ensures Alike(Get(Step(a, op), key), Get(Step(b, op), key), window(key), from)
      {
        assert key != op.key ==> Get(Step(a, op), key) == Get(a, key) && Get(Step(b, op), key) == Get(b, key);
      }
      AlikeAnswers(Step(a, op), Step(b, op), ops[1..], window, from);
    }
  }

  /**
   After a restart at time `now` from the live part of the old cache, every later run of hits and
   clears gets the answers of a memory store that kept the old cache and never restarted.
   */
  lemma {:induction false} RestartIsInvisible(cache: Buckets, restarted: Buckets, now: int, ops: seq<Op>,
      window: string -> int)
    requires forall key :: Get(restarted, key) == Live(Get(cache, key), now)
    requires forall key | key in cache :: cache[key].windowMs == window(key)
    requires FixedWindowsFrom(ops, window, now)
    ensures Answers(restarted, ops) == Answers(cache, ops)
  {
    hide After, Answers, FixedWindowsFrom;
    forall key
      ensures Alike(Get(restarted, key), Get(cache, key), window(key), now)
    {
      if key in cache {
        AfterTwice(cache[key].hits, now - window(key), now - window(key));
      }
    }
    AlikeAnswers(restarted, cache, ops, window, now);
  }

  // ----- whole runs with restarts -----

  function Run(s: State, events: seq<Event>): State
  {
    if events == [] then s else Next(Run(s, events[..|events| - 1]), events[|events| - 1])
  }

  /** The calls among the events, as a memory store would get them. */
  function Calls(events: seq<Event>): seq<Op>
  {
    if events == [] then []
    else
      var e := events[|events| - 1];
      Calls(events[..|events| - 1]) + (if e.Call? then [SafeOp(e.op)] else [])
  }

  predicate HasTime(e: Event) { e.Restart? || (e.Call? && e.op.Hit?) }

  function TimeOf(e: Event): int
    requires HasTime(e)
  {
    if e.Restart? then e.now else e.op.now
  }

  /** Times do not decrease from `from` on, and every key is hit with its own window. */
  ghost predicate Orderly(events: seq<Event>, window: string -> int, from: int)
  {
    && (forall i | 0 <= i < |events| && HasTime(events[i]) :: TimeOf(events[i]) >= from)
    && (forall i, j | 0 <= i < j < |events| && HasTime(events[i]) && HasTime(events[j]) ::
          TimeOf(events[i]) <= TimeOf(events[j]))
    && (forall i | 0 <= i < |events| && events[i].Call? && events[i].op.Hit? ::
          events[i].op.windowMs == window(SafeKey(events[i].op.key)))
  }

  /** Every restart finds the disk drained. */
  ghost predicate DrainedRestarts(s: State, events: seq<Event>)
  {
    forall n | 0 <= n < |events| && events[n].Restart? :: Drained(Run(s, events[..n]))
  }

  /** The cache and the memory store's buckets cannot be told apart by hits at or after `from`. */
  ghost predicate Follows(s: State, memory: Buckets, window: string -> int, from: int)
  {
    && Valid(s) && s.since <= from
    && forall key ::
         && Alike(Get(s.cache, key), Get(memory, key), window(key), from)
         && (Get(s.cache, key).Some? ==> Get(s.cache, key).value.windowMs == window(key))
  }

  lemma {:induction false} AlikeLater(x: Option<Bucket>, y: Option<Bucket>, w: int, from: int, now: int)
    requires Alike(x, y, w, from) && from <= now
    ensures Alike(x, y, w, now)
    ensures x.Some? && x.value.windowMs == w ==> Alike(Live(x, now), y, w, now)
  {
    hide After;
    AfterTwice(HitsOf(x), from - w, now - w);
    AfterTwice(HitsOf(y), from - w, now - w);
    AfterTwice(HitsOf(x), now - w, now - w);
    assert After([], now - w) == [] by { NothingAfter(now - w); }
  }

  lemma {:induction false} NothingAfter(cutoff: int)
    ensures After([], cutoff) == []
  {
  }

  lemma {:induction false} AlikeHit(x: Option<Bucket>, y: Option<Bucket>, w: int, from: int, max: int, now: int)
    requires Alike(x, y, w, from) && from <= now
    ensures ApplyHit(x, w, max, now) == ApplyHit(y, w, max, now)
    ensures ApplyHit(x, w, max, now).0.windowMs == w
  {
    hide After;
    AlikeLater(x, y, w, from, now);
    NothingAfter(now - w);
  }

  function Later(from: int, e: Event): int { if HasTime(e) then TimeOf(e) else from }

  function InMemory(memory: Buckets, e: Event): Buckets { if e.Call? then Step(memory, SafeOp(e.op)) else memory }

  /** One event: a call, a pending operation, or a restart from a drained disk. */
  lemma {:induction false} FollowsStep(s: State, memory: Buckets, e: Event, window: string -> int, from: int)
    requires Follows(s, memory, window, from) && Later(from, e) >= from
    requires e.Call? && e.op.Hit? ==> e.op.windowMs == window(SafeKey(e.op.key))
    requires e.Restart? ==> Drained(s)
    ensures Follows(Next(s, e), InMemory(memory, e), window, Later(from, e))
    ensures e.Call? && e.op.Hit? ==>
              ApplyHit(Get(s.cache, SafeKey(e.op.key)), e.op.windowMs, e.op.max, e.op.now).1
              == ApplyHit(Get(memory, SafeKey(e.op.key)), e.op.windowMs, e.op.max, e.op.now).1
  {
    hide Valid, Alike, Live, ApplyHit, SafeKey, Drained;
    StepKeepsValid(s, e);
    var t, m, now := Next(s, e), InMemory(memory, e), Later(from, e);
    if e.Call? && e.op.Hit? {
      var key := SafeKey(e.op.key);
      AlikeHit(Get(s.cache, key), Get(memory, key), window(key), from, e.op.max, now);
    }
    if e.Restart? {
      DrainedDiskIsTheCache(s, now);
    }
    forall key
      ensures Alike(Get(t.cache, key), Get(m, key), window(key), now)
      ensures Get(t.cache, key).Some? ==> Get(t.cache, key).value.windowMs == window(key)
    {
      FollowsAt(s, memory, e, window, from, key);
    }
  }

  lemma {:induction false} FollowsAt(s: State, memory: Buckets, e: Event, window: string -> int, from: int, key: string)
    requires Follows(s, memory, window, from) && Later(from, e) >= from
    requires e.Call? && e.op.Hit? ==> e.op.windowMs == window(SafeKey(e.op.key))
    requires e.Restart? ==> Drained(s)
    ensures var t, m := Next(s, e), InMemory(memory, e);
            && Alike(Get(t.cache, key), Get(m, key), window(key), Later(from, e))
            && (Get(t.cache, key).Some? ==> Get(t.cache, key).value.windowMs == window(key))
  {
    hide Valid, After, ApplyHit, SafeKey, Drained, Hydrate;
    var now := Later(from, e);
    AlikeLater(Get(s.cache, key), Get(memory, key), window(key), from, now);
    match e
    case Call(op) =>
      if op.Hit? && SafeKey(op.key) == key {
        AlikeHit(Get(s.cache, key), Get(memory, key), window(key), from, op.max, now);
      }
    case RunNext(_, _) =>
    case Restart(_) =>
      DrainedDiskIsTheCache(s, now);
  }

  /** The time of the last event that has one. */
  function Clock(events: seq<Event>, from: int): int
  {
    if events == [] then from else Later(Clock(events[..|events| - 1], from), events[|events| - 1])
  }

  lemma {:induction false} ClockIsPast(events: seq<Event>, window: string -> int, from: int)
    requires Orderly(events, window, from)
    ensures || Clock(events, from) == from
            || exists i :: 0 <= i < |events| && HasTime(events[i]) && TimeOf(events[i]) == Clock(events, from)
  {
    if events != [] {
      var m := |events| - 1;
      assert forall i | 0 <= i < m :: events[..m][i] == events[i];
      ClockIsPast(events[..m], window, from);
      if !HasTime(events[m]) && Clock(events, from) != from {
        var i :| 0 <= i < m && HasTime(events[..m][i]) && TimeOf(events[..m][i]) == Clock(events, from);
        assert HasTime(events[i]);
      }
    }
  }

  lemma {:induction false} OrderlyFront(events: seq<Event>, window: string -> int, from: int)
    requires Orderly(events, window, from) && events != []
    ensures var front, e := events[..|events| - 1], events[|events| - 1];
            && Orderly(front, window, from) && Later(Clock(front, from), e) >= Clock(front, from)
            && (e.Call? && e.op.Hit? ==> e.op.windowMs == window(SafeKey(e.op.key)))
  {
    var front := events[..|events| - 1];
    assert forall i | 0 <= i < |front| :: front[i] == events[i];
    ClockIsPast(front, window, from);
  }

  lemma {:induction false} CallsStep(memory: Buckets, events: seq<Event>)
    requires events != []
    ensures var front, e := events[..|events| - 1], events[|events| - 1];
            RunOps(memory, Calls(events)) == InMemory(RunOps(memory, Calls(front)), e)
  {
    hide SafeKey, Step;
    var front, e := events[..|events| - 1], events[|events| - 1];
    if e.Call? {
      assert (Calls(front) + [SafeOp(e.op)])[..|Calls(front)|] == Calls(front);
    } else {
      assert Calls(front) + [] == Calls(front);
    }
  }

  /**
   Over every run of hits, clears, disk operations that succeed or fail, and restarts that find the
   disk drained: the store goes on following a memory store that never restarted.
   */
  lemma {:induction false} FollowsRun(s: State, memory: Buckets, events: seq<Event>, window: string -> int, from: int)
    requires Follows(s, memory, window, from) && Orderly(events, window, from) && DrainedRestarts(s, events)
    ensures Follows(Run(s, events), RunOps(memory, Calls(events)), window, Clock(events, from))
  {
    if events != [] {
      var m := |events| - 1;
      var front, e := events[..m], events[m];
      assert forall n | 0 <= n <= m :: front[..n] == events[..n];
      assert forall n | 0 <= n < m :: front[n] == events[n];
      OrderlyFront(events, window, from);
      hide Orderly, Follows, Next, RunOps, Calls, InMemory, After, SafeKey;
      FollowsRun(s, memory, front, window, from);
      CallsStep(memory, events);
      FollowsStep(Run(s, front), RunOps(memory, Calls(front)), e, window, Clock(front, from));
    }
  }

  /** So every hit of such a run, from whatever disk it starts, is answered as by that memory store. */
  lemma {:induction false} RunsLikeMemory(
    disk: Buckets, start: int, events: seq<Event>, hit: Op, window: string -> int)
    requires forall key | key in disk :: disk[key].windowMs == window(key)
    requires hit.Hit? && Orderly(events + [Call(hit)], window, start) && DrainedRestarts(Booted(disk, start), events)
    ensures var key := SafeKey(hit.key);
            ApplyHit(Get(Run(Booted(disk, start), events).cache, key), hit.windowMs, hit.max, hit.now).1
            == ApplyHit(Get(RunOps(Hydrate(disk, start), Calls(events)), key), hit.windowMs, hit.max, hit.now).1
  {
    hide Run, RunOps, Calls, ApplyHit, Valid;
    var s, memory, all := Booted(disk, start), Hydrate(disk, start), events + [Call(hit)];
    BootIsValid(disk, start);
    assert forall i | 0 <= i < |events| :: all[i] == events[i];
    assert all[|events|] == Call(hit);
    assert Follows(s, memory, window, start);
    FollowsRun(s, memory, events, window, start);
    ClockIsPast(events, window, start);
    FollowsStep(Run(s, events), RunOps(memory, Calls(events)), Call(hit), window, Clock(events, start));
  }

  // ----- a key with two windows -----

  predicate NoneBetween(hits: seq<int>, low: int, high: int)
  {
    hits == [] || (!(low < hits[0] <= high) && NoneBetween(hits[1..], low, high))
  }

  lemma {:induction false} NoneBetweenMeans(hits: seq<int>, low: int, high: int)
    ensures NoneBetween(hits, low, high) <==> forall t | t in hits :: !(low < t <= high)
  {
    if hits != [] {
      NoneBetweenMeans(hits[1..], low, high);
      var head, tail := hits[0], hits[1..];
      assert head in hits && forall t | t in tail :: t in hits;
      if NoneBetween(hits, low, high) {
        forall t | t in hits
          ensures !(low < t <= high)
        {
          assert t == head || t in tail;
        }
      }
    }
  }

  lemma {:induction false} AfterBoth(hits: seq<int>, startCutoff: int, cutoff: int)
    ensures After(After(hits, startCutoff), cutoff) == After(hits, cutoff) <==> NoneBetween(hits, cutoff, startCutoff)
    ensures |After(After(hits, startCutoff), cutoff)| <= |After(hits, cutoff)|
  {
    if hits != [] {
      var t, tail := hits[0], hits[1..];
      AfterBoth(tail, startCutoff, cutoff);
      assert hits == [t] + tail;
      ConsAfter(t, tail, startCutoff);
      ConsAfter(t, tail, cutoff);
      ConsAfter(t, After(tail, startCutoff), cutoff);
      hide After;
      var old', new' := After(After(tail, startCutoff), cutoff), After(tail, cutoff);
      if cutoff < t <= startCutoff {
        assert |[t] + new'| > |old'|;
      } else if t > cutoff {
        assert [t] + old' == [t] + new' ==> old' == new' by {
          assert ([t] + old')[1..] == old' && ([t] + new')[1..] == new';
        }
      }
    }
  }

  lemma {:induction false} ConsAfter(t: int, tail: seq<int>, cutoff: int)
    ensures After([t] + tail, cutoff) == if t > cutoff then [t] + After(tail, cutoff) else After(tail, cutoff)
  {
    assert ([t] + tail)[1..] == tail;
  }

  /**
   With a different window the restart shows exactly when some saved hit had expired under the
   saved window at start-up but is still inside the window of the new hit.
   */
  lemma {:induction false} RestartForgetsExactly(saved: Bucket, start: int, windowMs: int, now: int)
    ensures PruneHits(HitsOf(Live(Some(saved), start)), windowMs, now) == PruneHits(saved.hits, windowMs, now) <==>
            forall t | t in saved.hits :: !(now - windowMs < t <= start - saved.windowMs)
  {
    AfterBoth(saved.hits, start - saved.windowMs, now - windowMs);
    NoneBetweenMeans(saved.hits, now - windowMs, start - saved.windowMs);
  }
}

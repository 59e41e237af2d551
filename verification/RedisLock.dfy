/**
 The leader locks of `redis.ts`. One call is a GET followed by a PEXPIRE (the value is our own id)
 or by SET NX PX (it is not), and calls of any number of instances interleave command by command.
 PEXPIRE does not look at the value, which is where the safety argument has its one gap.
 */
module RedisLock {
  import opened JsText

  type Instance = nat

  /** The lock key as Redis stores it; after `expireAt` it no longer exists for any command. */
  datatype Lock = Lock(owner: Instance, expireAt: int)

  function LiveLock(key: Option<Lock>, clock: int): Option<Lock>
  {
    if key.Some? && clock <= key.value.expireAt then key else None
  }

  predicate OwnedBy(key: Option<Lock>, clock: int, inst: Instance)
  {
    LiveLock(key, clock).Some? && key.value.owner == inst
  }

  /** PEXPIRE */
  function Pexpire(key: Option<Lock>, clock: int, ttl: nat): Option<Lock>
  {
    if LiveLock(key, clock).Some? then Some(key.value.(expireAt := clock + ttl)) else key
  }

  class RedisKey {
    var key: Option<Lock>

    /** A call of `acquireSchedulerLock` or `acquireBridgeLock` that no other call disturbs. */
    method Acquire(me: Instance, ttl: nat, clock: int) returns (leader: bool)
      requires ttl > 0
      modifies this
      ensures leader <==> LiveLock(old(key), clock).None? || old(key).value.owner == me
      ensures if leader then key == Some(Lock(me, clock + ttl)) else key == old(key)
    {
      var current := LiveLock(key, clock);
      if current.Some? && current.value.owner == me {
        key := Pexpire(key, clock, ttl);
        return true;
      }
      if LiveLock(key, clock).None? {
        key := Some(Lock(me, clock + ttl));
        return true;
      }
      return false;
    }
  }

  // ----- interleaved calls -----

  /** After its GET a call will renew or try to set; a renewing call remembers which lock it saw. */
  datatype Call = Renewing(inst: Instance, seen: nat) | Setting(inst: Instance)

  /** A call that returned true, and the time of the command that made it so. */
  datatype Success = Success(inst: Instance, at: int)

  /** `grants` counts the successful SETs, so that two locks of one owner can be told apart. */
  datatype State = State(key: Option<Lock>, grants: nat, clock: int, calls: map<nat, Call>, successes: seq<Success>)

  /** `replied` is false when the command ran but its reply was lost: the call then returns false. */
  datatype Event =
    | Tick(to: int)
    | Get(id: nat, inst: Instance)
    | Renew(id: nat, replied: bool)
    | SetNx(id: nat, replied: bool)
    | Abort(id: nat)

  function Note(successes: seq<Success>, replied: bool, inst: Instance, at: int): seq<Success>
  {
    if replied then successes + [Success(inst, at)] else successes
  }

  function Next(s: State, e: Event, ttl: Instance -> nat): State
  {
    match e
    case Tick(to) => if to >= s.clock then s.(clock := to) else s
    case Get(id, inst) =>
      if id in s.calls then s
      else s.(calls := s.calls[id := if OwnedBy(s.key, s.clock, inst) then Renewing(inst, s.grants) else Setting(inst)])
    case Renew(id, replied) =>
      if id !in s.calls || !s.calls[id].Renewing? then s
      else
        var inst := s.calls[id].inst;
        s.(key := Pexpire(s.key, s.clock, ttl(inst)), calls := s.calls - {id},
           successes := Note(s.successes, replied, inst, s.clock))
    case SetNx(id, replied) =>
      if id !in s.calls || !s.calls[id].Setting? then s
      else
        var inst := s.calls[id].inst;
        if LiveLock(s.key, s.clock).Some? then s.(calls := s.calls - {id})
        else
          s.(key := Some(Lock(inst, s.clock + ttl(inst))), grants := s.grants + 1, calls := s.calls - {id},
             successes := Note(s.successes, replied, inst, s.clock))
    case Abort(id) => s.(calls := s.calls - {id})
  }

  /** The two commands of a call run back to back are what `RedisKey.Acquire` promises. */
  lemma {:induction false} AloneIsTheSteps(s: State, id: nat, me: Instance, ttl: Instance -> nat)
    requires id !in s.calls && ttl(me) > 0
    ensures var asked := Next(s, Get(id, me), ttl);
            var done := Next(asked, if asked.calls[id].Renewing? then Renew(id, true) else SetNx(id, true), ttl);
            var leader := LiveLock(s.key, s.clock).None? || s.key.value.owner == me;
            && done.calls == s.calls && done.clock == s.clock
            && done.key == (if leader then Some(Lock(me, s.clock + ttl(me))) else s.key)
            && done.successes == (if leader then s.successes + [Success(me, s.clock)] else s.successes)
  {
    var asked := Next(s, Get(id, me), ttl);
    assert asked.calls - {id} == s.calls;
  }

  const START := State(None, 0, 0, map[], [])

  function Run(events: seq<Event>, ttl: Instance -> nat): State
  {
    if events == [] then START else Next(Run(events[..|events| - 1], ttl), events[|events| - 1], ttl)
  }

  /** Once an instance succeeds at time t, no other does until after t plus the first one's ttl. */
  ghost predicate Exclusive(successes: seq<Success>, ttl: Instance -> nat)
  {
    forall i, j | 0 <= i < j < |successes| && successes[i].inst != successes[j].inst ::
      successes[j].at > successes[i].at + ttl(successes[i].inst)
  }

  /** The lock a renewing call saw at its GET is still there, unexpired, when its PEXPIRE runs. */
  ghost predicate NoStraddle(s: State, e: Event)
  {
    e.Renew? && e.id in s.calls && s.calls[e.id].Renewing? ==>
      LiveLock(s.key, s.clock).Some? && s.grants == s.calls[e.id].seen
  }

  /** The weaker condition that matters: PEXPIRE finds a lock of its own instance. */
  ghost predicate OwnRenewal(s: State, e: Event)
  {
    e.Renew? && e.id in s.calls && s.calls[e.id].Renewing? ==> OwnedBy(s.key, s.clock, s.calls[e.id].inst)
  }

  /** A renewing call whose grant is still the latest one belongs to the key's owner. */
  ghost predicate SeenOwner(s: State)
  {
    forall id | id in s.calls && s.calls[id].Renewing? ::
      && s.calls[id].seen <= s.grants
      && (s.calls[id].seen == s.grants ==> s.key.Some? && s.key.value.owner == s.calls[id].inst)
  }

  /** Every success is over, or its instance holds the lock at least that long. */
  ghost predicate Covered(s: State, ttl: Instance -> nat)
  {
    forall i | 0 <= i < |s.successes| ::
      var x := s.successes[i];
      || s.clock > x.at + ttl(x.inst)
      || (x.at <= s.clock && s.key.Some? && s.key.value.owner == x.inst && s.key.value.expireAt >= x.at + ttl(x.inst))
  }

  ghost predicate Past(s: State) { forall i | 0 <= i < |s.successes| :: s.successes[i].at <= s.clock }

  lemma {:induction false} StepKeeps(s: State, e: Event, ttl: Instance -> nat)
    requires SeenOwner(s) && Covered(s, ttl) && Past(s) && Exclusive(s.successes, ttl)
    requires OwnRenewal(s, e)
    ensures var t := Next(s, e, ttl);
            SeenOwner(t) && Covered(t, ttl) && Past(t) && Exclusive(t.successes, ttl)
  {
  }

  lemma {:induction false} SeenStep(s: State, e: Event, ttl: Instance -> nat)
    requires SeenOwner(s)
    ensures SeenOwner(Next(s, e, ttl))
    ensures NoStraddle(s, e) ==> OwnRenewal(s, e)
  {
  }

  /** With no GET and following PEXPIRE straddling an expiry, there is never a second leader. */
  lemma {:induction false} NoSecondLeader(events: seq<Event>, ttl: Instance -> nat)
    requires forall n | 0 <= n < |events| :: NoStraddle(Run(events[..n], ttl), events[n])
    ensures Exclusive(Run(events, ttl).successes, ttl)
  {
    OwnRenewals(events, ttl);
    NoSecondLeaderIfOwn(events, ttl);
  }

  lemma {:induction false} OwnRenewals(events: seq<Event>, ttl: Instance -> nat)
    requires forall n | 0 <= n < |events| :: NoStraddle(Run(events[..n], ttl), events[n])
    ensures SeenOwner(Run(events, ttl))
    ensures forall n | 0 <= n < |events| :: OwnRenewal(Run(events[..n], ttl), events[n])
  {
    if events != [] {
      var m := |events| - 1;
      var front := events[..m];
      assert forall n | 0 <= n <= m :: front[..n] == events[..n];
      assert forall n | 0 <= n < m :: front[n] == events[n];
      OwnRenewals(front, ttl);
      SeenStep(Run(front, ttl), events[m], ttl);
    }
  }

  lemma {:induction false} NoSecondLeaderIfOwn(events: seq<Event>, ttl: Instance -> nat)
    requires forall n | 0 <= n < |events| :: OwnRenewal(Run(events[..n], ttl), events[n])
    ensures var s := Run(events, ttl); SeenOwner(s) && Covered(s, ttl) && Past(s) && Exclusive(s.successes, ttl)
  {
    if events != [] {
      var m := |events| - 1;
      var front := events[..m];
      assert forall n | 0 <= n <= m :: front[..n] == events[..n];
      assert forall n | 0 <= n < m :: front[n] == events[n];
      NoSecondLeaderIfOwn(front, ttl);
      StepKeeps(Run(front, ttl), events[m], ttl);
    }
  }

  /**
   The condition cannot be weakened: when a PEXPIRE finds no lock, or another instance's, and its
   reply arrives, the next call of a suitable other instance succeeds at the very same time.
   */
  lemma {:induction false} ForeignRenewalBreaksIt(s: State, id: nat, ttl: Instance -> nat)
    returns (other: Instance, unused: nat, last: Event)
    requires forall i :: ttl(i) > 0
    requires id in s.calls && s.calls[id].Renewing? && !OwnRenewal(s, Renew(id, true))
    ensures !Exclusive(Next(Next(Next(s, Renew(id, true), ttl), Get(unused, other), ttl), last, ttl).successes, ttl)
  {
    var me := s.calls[id].inst;
    var s1 := Next(s, Renew(id, true), ttl);
    unused := UnusedId(s1.calls.Keys);
    if LiveLock(s.key, s.clock).Some? {
      other, last := s.key.value.owner, Renew(unused, true);
    } else {
      other, last := me + 1, SetNx(unused, true);
    }
    var s2 := Next(s1, Get(unused, other), ttl);
    var s3 := Next(s2, last, ttl);
    var n := |s.successes|;
    assert s3.successes == s.successes + [Success(me, s.clock)] + [Success(other, s.clock)];
    assert s3.successes[n] == Success(me, s.clock) && s3.successes[n + 1] == Success(other, s.clock);
  }

  lemma {:induction false} UnusedId(ids: set<nat>) returns (unused: nat)
    ensures unused !in ids
  {
    var bound := 0;
    var rest := ids;
    while rest != {}
      invariant forall id | id in ids :: id in rest || id < bound
      decreases rest
    {
      var id :| id in rest;
      rest := rest - {id};
      if id >= bound {
        bound := id + 1;
      }
    }
    unused := bound;
  }

  lemma {:induction false} Extend(events: seq<Event>, e: Event, ttl: Instance -> nat, next: State)
    requires Next(Run(events, ttl), e, ttl) == next
    ensures Run(events + [e], ttl) == next
  {
    assert (events + [e])[..|events|] == events;
  }

  /** And such a run exists: a GET before the expiry and its PEXPIRE after another instance's SET. */
  lemma {:induction false} StraddlingRunHasTwoLeaders(ttl: Instance -> nat)
    requires forall i :: ttl(i) > 0
    ensures exists events :: !Exclusive(Run(events, ttl).successes, ttl)
  {
    hide Run;
    var t1, t2, won, late := ttl(1), ttl(2), Success(1, 0), ttl(1) + 1;
    var e := RenewalPending(ttl);
    var held := Some(Lock(1, t1));
    Extend(e, Tick(late), ttl, State(held, 1, late, map[1 := Renewing(1, 1)], [won]));
    e := e + [Tick(late)];
    Extend(e, Get(2, 2), ttl, State(held, 1, late, map[1 := Renewing(1, 1), 2 := Setting(2)], [won]));
    e := e + [Get(2, 2)];
    var both := [won, Success(2, late)];
    Extend(e, SetNx(2, true), ttl, State(Some(Lock(2, late + t2)), 2, late, map[1 := Renewing(1, 1)], both));
    e := e + [SetNx(2, true)];
    Extend(e, Renew(1, true), ttl, State(Some(Lock(2, late + t1)), 2, late, map[], both + [Success(1, late)]));
    e := e + [Renew(1, true)];
    var s := Run(e, ttl).successes;
    assert s[1] == Success(2, late) && s[2] == Success(1, late);
  }

  lemma {:induction false} RenewalPending(ttl: Instance -> nat) returns (e: seq<Event>)
    requires forall i :: ttl(i) > 0
    ensures Run(e, ttl) == State(Some(Lock(1, ttl(1))), 1, 0, map[1 := Renewing(1, 1)], [Success(1, 0)])
  {
    var held := Some(Lock(1, ttl(1)));
    Extend([], Get(0, 1), ttl, State(None, 0, 0, map[0 := Setting(1)], []));
    e := [] + [Get(0, 1)];
    Extend(e, SetNx(0, true), ttl, State(held, 1, 0, map[], [Success(1, 0)]));
    e := e + [SetNx(0, true)];
    Extend(e, Get(1, 1), ttl, State(held, 1, 0, map[1 := Renewing(1, 1)], [Success(1, 0)]));
    e := e + [Get(1, 1)];
  }
}

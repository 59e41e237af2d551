/**
 Crash handling in the node agent: the exit handler (`process-attach.ts`), the automatic restart
 (`process-status.ts`) and the bookkeeping of stop and kill (`process-lifecycle.ts`). All of them
 share the manager's maps, and anything may happen while a restart sleeps.
 */
module CrashLoop {
  import opened JsText

  const WINDOW_MS := 900_000
  const MAX_RESTARTS := 3

  type Id = string

  datatype Status = RUNNING | STARTING | STOPPING | STOPPED | ERROR

  datatype Attempt = Attempt(count: nat, at: nat)

  /** How a child ended; a missing code or signal is null in the source. */
  datatype Exit = Exit(code: Option<int>, signal: Option<string>)

  /** What the container check after an exit reports. */
  datatype Container = StillRunning | Gone(exit: Exit) | CheckFailed

  /** An automatic restart between its two halves: `crash` is its place in the history. */
  datatype Sleep = Sleep(id: Id, count: nat, wakeAt: nat, crash: nat)

  /** A counted crash, how many resets preceded it, and when it led to an automatic start. */
  datatype Crash = Crash(id: Id, at: nat, count: nat, resetsBefore: nat, started: Option<nat>)

  /** A stop, a kill or an exit classed as intentional: the crash count of the server is forgotten. */
  datatype Reset = Reset(id: Id, at: nat)

  /** The manager's maps, the running sleeps, and the history of crashes and resets. */
  datatype State = State(
    processes: map<Id, nat>, intentionalStops: set<Id>, restartAttempts: map<Id, Attempt>,
    autoRestart: map<Id, bool>, statuses: map<Id, Status>, clock: nat,
    sleeping: map<nat, Sleep>, crashes: seq<Crash>, resets: seq<Reset>)

  datatype Event =
    | Tick(to: nat)
    | Configure(id: Id, autoRestart: bool)
    | SetStatus(id: Id, status: Status)
    | Attach(id: Id, child: nat)
    | ChildExit(id: Id, child: nat)
    | ExitChecked(id: Id, container: Container, ticket: nat)
    | Wake(ticket: nat)
    | StopBegins(id: Id)
    | KillBegins(id: Id)
    | Detach(id: Id)
    | FlagExpires(id: Id)

  function GetStatus(s: State, id: Id): Status { if id in s.statuses then s.statuses[id] else STOPPED }

  predicate OutOfMemory(e: Exit) { e.code == Some(137) || e.code == Some(-119) }

  predicate LooksClean(e: Exit)
  {
    && !OutOfMemory(e)
    && (|| e.code == Some(0) || e.code == Some(130) || e.code == Some(143)
        || e.signal == Some("SIGTERM") || e.signal == Some("SIGINT"))
  }

  predicate Intentional(s: State, id: Id) { id in s.intentionalStops || GetStatus(s, id) == STOPPING }

  function NextCount(s: State, id: Id): nat
  {
    if id in s.restartAttempts && s.clock - s.restartAttempts[id].at < WINDOW_MS then s.restartAttempts[id].count + 1
    else 1
  }

  function Delay(count: nat): nat { if 5_000 * count < 60_000 then 5_000 * count else 60_000 }

  /** The first half of `maybeAutoRestart`, up to its sleep. */
  function CountCrash(s: State, id: Id, ticket: nat): State
  {
    if id in s.intentionalStops || id !in s.autoRestart || !s.autoRestart[id] then s
    else
      var count := NextCount(s, id);
      var counted := s.(restartAttempts := s.restartAttempts[id := Attempt(count, s.clock)],
                        crashes := s.crashes + [Crash(id, s.clock, count, |s.resets|, None)]);
      if count > MAX_RESTARTS then counted.(statuses := s.statuses[id := ERROR])
      else counted.(sleeping := s.sleeping[ticket := Sleep(id, count, s.clock + Delay(count), |s.crashes|)])
  }

  /** The second half: does the restart still apply when the sleep is over? */
  predicate StillWanted(s: State, id: Id)
  {
    && id !in s.intentionalStops && id in s.autoRestart && s.autoRestart[id] && id !in s.processes
    && (GetStatus(s, id) == ERROR || id !in s.statuses)
  }

  function Forget(s: State, id: Id): State
  {
    s.(restartAttempts := s.restartAttempts - {id}, resets := s.resets + [Reset(id, s.clock)])
  }

  function Step(s: State, e: Event): State
  {
    match e
    case Tick(to) => if to >= s.clock then s.(clock := to) else s
    case Configure(id, auto) => s.(autoRestart := s.autoRestart[id := auto])
    case SetStatus(id, status) => s.(statuses := s.statuses[id := status])
    case Attach(id, child) => s.(processes := s.processes[id := child])
    case ChildExit(id, child) =>
      if id in s.processes && s.processes[id] == child then s.(processes := s.processes - {id}) else s
    case ExitChecked(id, container, ticket) => if ticket in s.sleeping then s else AfterExit(s, id, container, ticket)
    case Wake(ticket) => if ticket in s.sleeping && s.clock >= s.sleeping[ticket].wakeAt then Woken(s, ticket) else s
    case StopBegins(id) =>
      Forget(s, id).(intentionalStops := s.intentionalStops + {id},
                     statuses := if id in s.processes then s.statuses[id := STOPPING] else s.statuses)
    case KillBegins(id) =>
      Forget(s, id).(intentionalStops := s.intentionalStops + {id}, statuses := s.statuses[id := STOPPING],
                     processes := s.processes - {id})
    case Detach(id) => s.(processes := s.processes - {id})
    case FlagExpires(id) => s.(intentionalStops := s.intentionalStops - {id})
  }

  /** The exit handler once it knows whether the container is gone. */
  function AfterExit(s: State, id: Id, container: Container, ticket: nat): State
  {
    match container
    case StillRunning => s.(statuses := s.statuses[id := RUNNING])
    case CheckFailed => s.(statuses := s.statuses[id := STOPPED])
    case Gone(exit) =>
      if Intentional(s, id) then
        Forget(s, id).(intentionalStops := s.intentionalStops - {id}, statuses := s.statuses[id := STOPPED])
      else if LooksClean(exit) then s.(statuses := s.statuses[id := STOPPED])
      else CountCrash(s.(statuses := s.statuses[id := ERROR]), id, ticket)
  }

  function Woken(s: State, ticket: nat): State
    requires ticket in s.sleeping
  {
    var sleep := s.sleeping[ticket];
    var awake := s.(sleeping := s.sleeping - {ticket});
    if !StillWanted(s, sleep.id) then awake
    else if sleep.crash < |s.crashes| then
      awake.(statuses := s.statuses[sleep.id := STARTING],
             crashes := s.crashes[sleep.crash := s.crashes[sleep.crash].(started := Some(s.clock))])
    else awake.(statuses := s.statuses[sleep.id := STARTING])
  }

  const START := State(map[], {}, map[], map[], map[], 0, map[], [], [])

  function Run(events: seq<Event>): State
  {
    if events == [] then START else Step(Run(events[..|events| - 1]), events[|events| - 1])
  }

  // ----- the manager's own code, half by half -----

  class ProcessManager {
    var processes: map<Id, nat>
    var intentionalStops: set<Id>
    var restartAttempts: map<Id, Attempt>
    var autoRestart: map<Id, bool>
    var statuses: map<Id, Status>
    var clock: nat
    /** The restarts whose timers are running, and the history they belong to. */
    ghost var sleeping: map<nat, Sleep>
    ghost var crashes: seq<Crash>
    ghost var resets: seq<Reset>

    ghost function View(): State
      reads this
    {
      State(processes, intentionalStops, restartAttempts, autoRestart, statuses, clock, sleeping, crashes, resets)
    }

    constructor ()
      ensures View() == START
    {
      processes, intentionalStops, restartAttempts, autoRestart, statuses := map[], {}, map[], map[], map[];
      clock, sleeping, crashes, resets := 0, map[], [], [];
    }

    /** The synchronous part of the `exit` handler. */
    method OnChildExit(id: Id, child: nat) returns (checkContainer: bool)
      modifies this`processes
      ensures View() == Step(old(View()), ChildExit(id, child))
      ensures checkContainer <==> id in old(processes) && old(processes)[id] == child
    {
      if id !in processes || processes[id] != child {
        return false;
      }
      processes := processes - {id};
      return true;
    }

    /** The rest of the `exit` handler, once the container check has answered. */
    method OnContainerChecked(id: Id, container: Container, ghost ticket: nat) returns (sleepMs: Option<nat>)
      modifies this
      ensures View() == AfterExit(old(View()), id, container, ticket)
      ensures sleepMs.Some? ==> sleepMs.value <= 15_000
    {
      sleepMs := None;
      match container {
        case StillRunning => statuses := statuses[id := RUNNING];
        case CheckFailed => statuses := statuses[id := STOPPED];
        case Gone(exit) =>
          var intentional := id in intentionalStops || (id in statuses && statuses[id] == STOPPING);
          var clean := intentional || LooksClean(exit);
          if intentional {
            intentionalStops := intentionalStops - {id};
            restartAttempts := restartAttempts - {id};
            resets := resets + [Reset(id, clock)];
          }
          if clean {
            statuses := statuses[id := STOPPED];
            return;
          }
          statuses := statuses[id := ERROR];
          sleepMs := MaybeAutoRestart(id, ticket);
      }
    }

    /** `maybeAutoRestart` up to its sleep, if it gets that far. */
    method MaybeAutoRestart(id: Id, ghost ticket: nat) returns (sleepMs: Option<nat>)
      modifies this
      ensures View() == CountCrash(old(View()), id, ticket)
      ensures sleepMs.Some? ==> sleepMs.value == Delay(NextCount(old(View()), id)) <= 15_000
    {
      if id in intentionalStops || id !in autoRestart || !autoRestart[id] {
        return None;
      }
      var count := 1;
      if id in restartAttempts && clock - restartAttempts[id].at < WINDOW_MS {
        count := restartAttempts[id].count + 1;
      }
      restartAttempts := restartAttempts[id := Attempt(count, clock)];
      ghost var crash := |crashes|;
      crashes := crashes + [Crash(id, clock, count, |resets|, None)];
      if count > MAX_RESTARTS {
        statuses := statuses[id := ERROR];
        return None;
      }
      sleeping := sleeping[ticket := Sleep(id, count, clock + Delay(count), crash)];
      return Some(Delay(count));
    }

    /** `maybeAutoRestart` after its sleep; `start` says whether the server is started. */
    method ResumeAutoRestart(id: Id, ghost ticket: nat) returns (start: bool)
      requires ticket in sleeping && sleeping[ticket].id == id && sleeping[ticket].crash < |crashes|
      modifies this
      ensures View() == Woken(old(View()), ticket)
      ensures start <==> StillWanted(old(View()), id)
    {
      ghost var crash := sleeping[ticket].crash;
      sleeping := sleeping - {ticket};
      if id in intentionalStops || id !in autoRestart || !autoRestart[id] || id in processes {
        return false;
      }
      if id in statuses && statuses[id] != ERROR {
        return false;
      }
      statuses := statuses[id := STARTING];
      crashes := crashes[crash := crashes[crash].(started := Some(clock))];
      return true;
    }

    /** What `stopProcess` does before it waits for the container. */
    method StopBegins(id: Id)
      modifies this
      ensures View() == Step(old(View()), Event.StopBegins(id))
    {
      intentionalStops := intentionalStops + {id};
      restartAttempts := restartAttempts - {id};
      resets := resets + [Reset(id, clock)];
      if id in processes {
        statuses := statuses[id := STOPPING];
      }
    }

    /** What `killProcess` does before it calls Docker. */
    method KillBegins(id: Id)
      modifies this
      ensures View() == Step(old(View()), Event.KillBegins(id))
    {
      intentionalStops := intentionalStops + {id};
      restartAttempts := restartAttempts - {id};
      resets := resets + [Reset(id, clock)];
      statuses := statuses[id := STOPPING];
      processes := processes - {id};
    }
  }

  // ----- the invariant -----

  /** No reset of the server among the resets numbered from `a` up to `b`. */
  ghost predicate Calm(resets: seq<Reset>, id: Id, a: nat, b: nat)
  {
    forall k | a <= k < b && k < |resets| :: resets[k].id != id
  }

  /** A crash that no reset has separated from the present still bears on the attempt record. */
  ghost predicate Remembered(s: State, c: Crash)
  {
    Calm(s.resets, c.id, c.resetsBefore, |s.resets|) ==>
      && c.id in s.restartAttempts
      && c.at <= s.restartAttempts[c.id].at <= s.clock
      && (s.restartAttempts[c.id].at - c.at < WINDOW_MS ==> s.restartAttempts[c.id].count >= c.count)
  }

  ghost predicate Dated(s: State, c: Crash)
  {
    && c.at <= s.clock && c.resetsBefore <= |s.resets|
    && (forall k | 0 <= k < c.resetsBefore :: s.resets[k].at <= c.at)
    && (forall k | c.resetsBefore <= k < |s.resets| :: c.at <= s.resets[k].at)
  }

  /** Later crashes of a server within the window have larger counts. */
  ghost predicate Counted(s: State, i: nat, j: nat)
    requires i < |s.crashes| && j < |s.crashes|
  {
    s.crashes[i].id == s.crashes[j].id && s.crashes[j].at - s.crashes[i].at < WINDOW_MS
    && Calm(s.resets, s.crashes[i].id, s.crashes[i].resetsBefore, s.crashes[j].resetsBefore) ==>
      s.crashes[i].count < s.crashes[j].count
  }

  ghost predicate InOrder(s: State, i: nat, j: nat)
    requires i < |s.crashes| && j < |s.crashes|
  {
    s.crashes[i].at <= s.crashes[j].at && s.crashes[i].resetsBefore <= s.crashes[j].resetsBefore
  }

  ghost predicate BackedOff(c: Crash)
  {
    c.count >= 1 && (c.started.Some? ==> c.count <= MAX_RESTARTS && c.started.value >= c.at + Delay(c.count))
  }

  ghost predicate SleepFits(s: State, sleep: Sleep)
  {
    && sleep.crash < |s.crashes| && sleep.count <= MAX_RESTARTS
    && s.crashes[sleep.crash].id == sleep.id && s.crashes[sleep.crash].count == sleep.count
    && sleep.wakeAt == s.crashes[sleep.crash].at + Delay(sleep.count)
  }

  ghost predicate Inv(s: State)
  {
    && (forall i | 0 <= i < |s.crashes| ::
          Remembered(s, s.crashes[i]) && Dated(s, s.crashes[i]) && BackedOff(s.crashes[i]))
    && (forall i, j | 0 <= i < j < |s.crashes| :: Counted(s, i, j) && InOrder(s, i, j))
    && (forall t | t in s.sleeping :: SleepFits(s, s.sleeping[t]))
    && (forall k | 0 <= k < |s.resets| :: s.resets[k].at <= s.clock)
  }

  /** Steps that touch neither crashes, attempts, resets nor sleeps. */
  lemma {:induction false} QuietStep(s: State, t: State)
    requires Inv(s) && t.clock >= s.clock && t.crashes == s.crashes && t.resets == s.resets
    requires t.restartAttempts == s.restartAttempts
    requires forall k | k in t.sleeping :: k in s.sleeping && t.sleeping[k] == s.sleeping[k]
    ensures Inv(t)
  {
    forall i | 0 <= i < |t.crashes|
      ensures Remembered(t, t.crashes[i]) && Dated(t, t.crashes[i]) && BackedOff(t.crashes[i])
    {
      assert Remembered(s, s.crashes[i]) && Dated(s, s.crashes[i]);
    }
    forall i, j | 0 <= i < j < |t.crashes|
      ensures Counted(t, i, j) && InOrder(t, i, j)
    {
      assert Counted(s, i, j) && InOrder(s, i, j);
    }
    forall k | k in t.sleeping
      ensures SleepFits(t, t.sleeping[k])
    {
      assert SleepFits(s, s.sleeping[k]);
    }
  }

  lemma {:induction false} ForgetStep(s: State, id: Id)
    requires Inv(s)
    ensures Inv(Forget(s, id))
  {
    var t := Forget(s, id);
    forall i | 0 <= i < |t.crashes|
      ensures Remembered(t, t.crashes[i]) && Dated(t, t.crashes[i]) && BackedOff(t.crashes[i])
    {
      var c := s.crashes[i];
      assert Remembered(s, c) && Dated(s, c) && BackedOff(c);
      assert t.resets[|s.resets|] == Reset(id, s.clock);
      if Calm(t.resets, c.id, c.resetsBefore, |t.resets|) {
        assert c.id != id;
        assert forall k | 0 <= k < |s.resets| :: t.resets[k] == s.resets[k];
        assert Calm(s.resets, c.id, c.resetsBefore, |s.resets|);
      }
    }
    forall i, j | 0 <= i < j < |t.crashes|
      ensures Counted(t, i, j) && InOrder(t, i, j)
    {
      assert Counted(s, i, j) && InOrder(s, i, j) && Dated(s, s.crashes[j]);
      assert forall k | 0 <= k < |s.resets| :: t.resets[k] == s.resets[k];
      if Calm(t.resets, s.crashes[i].id, s.crashes[i].resetsBefore, s.crashes[j].resetsBefore) {
        assert Calm(s.resets, s.crashes[i].id, s.crashes[i].resetsBefore, s.crashes[j].resetsBefore);
      }
    }
    forall k | k in t.sleeping
      ensures SleepFits(t, t.sleeping[k])
    {
      assert SleepFits(s, s.sleeping[k]);
    }
  }

  /** The state after a crash of `id` has been counted. */
  ghost predicate CrashAdded(s: State, t: State, id: Id)
  {
    && t.clock == s.clock && t.resets == s.resets
    && t.crashes == s.crashes + [Crash(id, s.clock, NextCount(s, id), |s.resets|, None)]
    && t.restartAttempts == s.restartAttempts[id := Attempt(NextCount(s, id), s.clock)]
  }

  lemma {:induction false} NewCountIsLarger(s: State, id: Id, i: nat)
    requires Inv(s) && i < |s.crashes| && s.crashes[i].id == id && s.clock - s.crashes[i].at < WINDOW_MS
    requires Calm(s.resets, id, s.crashes[i].resetsBefore, |s.resets|)
    ensures s.crashes[i].count < NextCount(s, id)
  {
    assert Remembered(s, s.crashes[i]);
  }

  lemma {:induction false} OldCrashAfterCrash(s: State, t: State, id: Id, i: nat)
    requires Inv(s) && CrashAdded(s, t, id) && i < |s.crashes|
    ensures Remembered(t, s.crashes[i]) && Dated(t, s.crashes[i]) && BackedOff(s.crashes[i])
  {
    var c := s.crashes[i];
    assert Remembered(s, c) && Dated(s, c) && BackedOff(c);
    if c.id == id && Calm(s.resets, id, c.resetsBefore, |s.resets|) && s.clock - c.at < WINDOW_MS {
      NewCountIsLarger(s, id, i);
    }
  }

  lemma {:induction false} PairAfterCrash(s: State, t: State, id: Id, i: nat, j: nat)
    requires Inv(s) && CrashAdded(s, t, id) && i < j < |t.crashes|
    ensures Counted(t, i, j) && InOrder(t, i, j)
  {
    assert t.crashes[i] == s.crashes[i];
    if j < |s.crashes| {
      assert t.crashes[j] == s.crashes[j];
      assert Counted(s, i, j) && InOrder(s, i, j);
    } else {
      assert Dated(s, s.crashes[i]);
      if s.crashes[i].id == id && Calm(s.resets, id, s.crashes[i].resetsBefore, |s.resets|)
         && s.clock - s.crashes[i].at < WINDOW_MS {
        NewCountIsLarger(s, id, i);
      }
    }
  }

  lemma {:induction false} CountCrashShape(s: State, id: Id, ticket: nat)
    requires forall k | k in s.sleeping :: SleepFits(s, s.sleeping[k])
    ensures var t := CountCrash(s, id, ticket);
            t == s || (CrashAdded(s, t, id) && forall k | k in t.sleeping :: SleepFits(t, t.sleeping[k]))
  {
    var t := CountCrash(s, id, ticket);
    if t != s {
      hide NextCount;
      forall k | k in t.sleeping
        ensures SleepFits(t, t.sleeping[k])
      {
        assert k != ticket ==> SleepFits(s, s.sleeping[k]);
        assert k == ticket && k in s.sleeping && t.sleeping[k] == s.sleeping[k] ==> SleepFits(s, s.sleeping[k]);
      }
    }
  }

  lemma {:induction false} CountCrashStep(s: State, id: Id, ticket: nat)
    requires Inv(s)
    ensures Inv(CountCrash(s, id, ticket))
  {
    hide CountCrash, SleepFits, Remembered, Dated, BackedOff, Counted, InOrder, NextCount, Calm;
    var t := CountCrash(s, id, ticket);
    CountCrashShape(s, id, ticket);
    if t != s {
      NewestCrash(s, t, id);
      forall i | 0 <= i < |t.crashes|
        ensures Remembered(t, t.crashes[i]) && Dated(t, t.crashes[i]) && BackedOff(t.crashes[i])
      {
        if i < |s.crashes| {
          OldCrashAfterCrash(s, t, id, i);
        }
      }
      forall i, j | 0 <= i < j < |t.crashes|
        ensures Counted(t, i, j) && InOrder(t, i, j)
      {
        PairAfterCrash(s, t, id, i, j);
      }
    }
  }

  lemma {:induction false} NewestCrash(s: State, t: State, id: Id)
    requires Inv(s) && CrashAdded(s, t, id)
    ensures var c := t.crashes[|s.crashes|]; Remembered(t, c) && Dated(t, c) && BackedOff(c)
  {
  }

  /** `t` is `s` except that some crashes, none before its back-off, have led to a start. */
  ghost predicate OnlyStarted(s: State, t: State)
  {
    && t.clock == s.clock && t.resets == s.resets && t.restartAttempts == s.restartAttempts
    && |t.crashes| == |s.crashes|
    && forall i | 0 <= i < |s.crashes| ::
         t.crashes[i] == s.crashes[i].(started := t.crashes[i].started) && BackedOff(t.crashes[i])
  }

  lemma {:induction false} WokenShape(s: State, ticket: nat)
    requires ticket in s.sleeping && s.clock >= s.sleeping[ticket].wakeAt && SleepFits(s, s.sleeping[ticket])
    requires forall i | 0 <= i < |s.crashes| :: BackedOff(s.crashes[i])
    ensures var t := Woken(s, ticket);
            OnlyStarted(s, t) && forall k | k in t.sleeping :: k in s.sleeping && t.sleeping[k] == s.sleeping[k]
  {
  }

  lemma {:induction false} OnlyStartedOne(s: State, t: State, i: nat)
    requires OnlyStarted(s, t) && i < |s.crashes| && Remembered(s, s.crashes[i]) && Dated(s, s.crashes[i])
    ensures Remembered(t, t.crashes[i]) && Dated(t, t.crashes[i]) && BackedOff(t.crashes[i])
  {
    hide Calm, BackedOff;
  }

  lemma {:induction false} OnlyStartedPair(s: State, t: State, i: nat, j: nat)
    requires OnlyStarted(s, t) && i < j < |s.crashes| && Counted(s, i, j) && InOrder(s, i, j)
    ensures Counted(t, i, j) && InOrder(t, i, j)
  {
    hide Calm, BackedOff;
  }

  lemma {:induction false} OnlyStartedSleep(s: State, t: State, sleep: Sleep)
    requires OnlyStarted(s, t) && SleepFits(s, sleep)
    ensures SleepFits(t, sleep)
  {
    hide BackedOff;
  }

  lemma {:induction false} WokenStep(s: State, ticket: nat)
    requires Inv(s) && ticket in s.sleeping && s.clock >= s.sleeping[ticket].wakeAt
    ensures Inv(Woken(s, ticket))
  {
    hide Woken, Remembered, Dated, BackedOff, Counted, InOrder, SleepFits;
    var t := Woken(s, ticket);
    WokenShape(s, ticket);
    forall i | 0 <= i < |t.crashes|
      ensures Remembered(t, t.crashes[i]) && Dated(t, t.crashes[i]) && BackedOff(t.crashes[i])
    {
      OnlyStartedOne(s, t, i);
    }
    forall i, j | 0 <= i < j < |t.crashes|
      ensures Counted(t, i, j) && InOrder(t, i, j)
    {
      OnlyStartedPair(s, t, i, j);
    }
    forall k | k in t.sleeping
      ensures SleepFits(t, t.sleeping[k])
    {
      OnlyStartedSleep(s, t, t.sleeping[k]);
    }
    assert OnlyStarted(s, t);
  }

  lemma {:induction false} AfterExitKeepsInv(s: State, id: Id, container: Container, ticket: nat)
    requires Inv(s)
    ensures Inv(AfterExit(s, id, container, ticket))
  {
    hide Inv, Forget, CountCrash, Intentional, LooksClean;
    var t := AfterExit(s, id, container, ticket);
    if container.Gone? && Intentional(s, id) {
      ForgetStep(s, id);
      ForgetShape(s, id);
      QuietStep(Forget(s, id), t);
    } else if container.Gone? && !LooksClean(container.exit) {
      var down := s.(statuses := s.statuses[id := ERROR]);
      QuietStep(s, down);
      CountCrashStep(down, id, ticket);
    } else {
      QuietStep(s, t);
    }
  }

  lemma {:induction false} StepKeepsInv(s: State, e: Event)
    requires Inv(s)
    ensures Inv(Step(s, e))
  {
    hide Inv, Forget, Woken, AfterExit;
    match e
    case ExitChecked(id, container, ticket) => AfterExitKeepsInv(s, id, container, ticket);
    case Wake(ticket) =>
      if ticket in s.sleeping && s.clock >= s.sleeping[ticket].wakeAt {
        WokenStep(s, ticket);
      }
    case StopBegins(id) =>
      ForgetStep(s, id);
      ForgetShape(s, id);
      QuietStep(Forget(s, id), Step(s, e));
    case KillBegins(id) =>
      ForgetStep(s, id);
      ForgetShape(s, id);
      QuietStep(Forget(s, id), Step(s, e));
    case _ => QuietStep(s, Step(s, e));
  }

  lemma {:induction false} ForgetShape(s: State, id: Id)
    ensures Forget(s, id).clock == s.clock && Forget(s, id).sleeping == s.sleeping
  {
  }

  lemma {:induction false} RunKeepsInv(events: seq<Event>)
    ensures Inv(Run(events))
  {
    if events != [] {
      RunKeepsInv(events[..|events| - 1]);
      StepKeepsInv(Run(events[..|events| - 1]), events[|events| - 1]);
    }
  }

  // ----- the promise -----

  /** A crash of the server within fifteen minutes from `from` on that led to an automatic start. */
  ghost predicate Restart(s: State, id: Id, from: nat, i: nat)
  {
    i < |s.crashes| && s.crashes[i].id == id && from <= s.crashes[i].at < from + 900_000 && s.crashes[i].started.Some?
  }

  lemma {:induction false} CountsDiffer(s: State, id: Id, from: nat, i: nat, j: nat)
    requires Inv(s) && Restart(s, id, from, i) && Restart(s, id, from, j) && i < j
    requires forall k | 0 <= k < |s.resets| :: s.resets[k].id == id ==> !(from <= s.resets[k].at < from + 900_000)
    ensures s.crashes[i].count < s.crashes[j].count
  {
    var a, b := s.crashes[i], s.crashes[j];
    assert Counted(s, i, j) && InOrder(s, i, j) && Dated(s, a) && Dated(s, b);
    forall k | a.resetsBefore <= k < b.resetsBefore && k < |s.resets|
      ensures s.resets[k].id != id
    {
      assert a.at <= s.resets[k].at <= b.at;
    }
    assert Calm(s.resets, id, a.resetsBefore, b.resetsBefore);
  }

  /** Things with different numbers among 1, 2 and 3 are at most three. */
  lemma {:induction false} AtMostThree(all: set<nat>, count: nat -> nat)
    requires forall i | i in all :: 1 <= count(i) <= 3
    requires forall i, j | i in all && j in all && i < j :: count(i) < count(j)
    ensures |all| <= 3
  {
    var images := set i | i in all :: count(i);
    SameSize(all, images, count);
    assert images <= {1, 2, 3};
    assert {1, 2, 3} == images + ({1, 2, 3} - images);
    assert |{1, 2, 3}| == 3;
  }

  lemma {:induction false} SameSize(all: set<nat>, images: set<nat>, count: nat -> nat)
    requires images == set i | i in all :: count(i)
    requires forall i, j | i in all && j in all && i < j :: count(i) < count(j)
    ensures |images| == |all|
  {
    if all != {} {
      var x :| x in all;
      SameSize(all - {x}, images - {count(x)}, count);
    }
  }

  /**
   In any span of fifteen minutes without a stop, a kill or an exit classed as intentional, at most
   three crashes of a server lead to an automatic start, whatever else happens in between.
   */
  lemma {:induction false} AtMostThreeRestarts(events: seq<Event>, id: Id, from: nat, all: set<nat>)
    requires forall k | 0 <= k < |Run(events).resets| ::
               Run(events).resets[k].id == id ==> !(from <= Run(events).resets[k].at < from + 900_000)
    requires forall i | i in all :: Restart(Run(events), id, from, i)
    ensures |all| <= 3
  {
    var s := Run(events);
    RunKeepsInv(events);
    var count := (i: nat) => if i < |s.crashes| then s.crashes[i].count else 0;
    forall i | i in all
      ensures 1 <= count(i) <= 3
    {
      assert BackedOff(s.crashes[i]);
    }
    forall i, j | i in all && j in all && i < j
      ensures count(i) < count(j)
    {
      CountsDiffer(s, id, from, i, j);
    }
    AtMostThree(all, count);
  }

  /** Every automatic start comes at least its back-off after the crash, and that is at most 15 s. */
  lemma {:induction false} BackOffBeforeRestart(events: seq<Event>, i: nat)
    requires i < |Run(events).crashes| && Run(events).crashes[i].started.Some?
    ensures var c := Run(events).crashes[i];
            1 <= c.count <= MAX_RESTARTS && Delay(c.count) == 5_000 * c.count <= 15_000
              && c.started.value >= c.at + Delay(c.count)
  {
    RunKeepsInv(events);
    assert BackedOff(Run(events).crashes[i]);
  }

  /**
   Which exits count as a crash: those of a server configured to restart and not being stopped whose
   code is not 0, 130 or 143 and which no SIGTERM or SIGINT explains. The two codes of an
   out-of-memory kill count whatever the signal.
   */
  lemma {:induction false} CrashExactlyWhen(s: State, id: Id, exit: Exit, ticket: nat)
    ensures |AfterExit(s, id, Gone(exit), ticket).crashes| == |s.crashes| + 1 <==>
            && id in s.autoRestart && s.autoRestart[id]
            && id !in s.intentionalStops && (id in s.statuses ==> s.statuses[id] != STOPPING)
            && exit.code !in [Some(0), Some(130), Some(143)]
            && (exit.signal in [Some("SIGTERM"), Some("SIGINT")] ==> exit.code in [Some(137), Some(-119)])
  {
    assert exit.signal in [Some("SIGTERM"), Some("SIGINT")] <==>
           exit.signal == Some("SIGTERM") || exit.signal == Some("SIGINT");
    assert Some("SIGTERM") != Some("SIGINT") && exit.code in [Some(137), Some(-119)] <==> OutOfMemory(exit);
  }

  /**
   What an exit makes of the server's status. An exit while the server is being stopped, or with a
   clean code or signal, leaves it stopped, any other in error, unless its container is still there.
   */
  lemma {:induction false} StatusAfterExit(s: State, id: Id, container: Container, ticket: nat)
    ensures var t := AfterExit(s, id, container, ticket);
            && GetStatus(t, id) == (
              match container
              case StillRunning => RUNNING
              case CheckFailed => STOPPED
              case Gone(exit) =>
                if id in s.intentionalStops || (id in s.statuses && s.statuses[id] == STOPPING)
                   || exit.code in [Some(0), Some(130), Some(143)]
                   || (exit.signal in [Some("SIGTERM"), Some("SIGINT")] && exit.code !in [Some(137), Some(-119)])
                then STOPPED else ERROR)
            && (forall other | other != id :: GetStatus(t, other) == GetStatus(s, other))
            && t.processes == s.processes && t.autoRestart == s.autoRestart
  {
    if container.Gone? {
      var exit := container.exit;
      assert exit.signal in [Some("SIGTERM"), Some("SIGINT")] <==>
             exit.signal == Some("SIGTERM") || exit.signal == Some("SIGINT");
      assert Some("SIGTERM") != Some("SIGINT") && exit.code in [Some(137), Some(-119)] <==> OutOfMemory(exit);
    }
    hide NextCount, Delay;
  }

  /**
   The bound is not kept by never restarting: left alone, each of the first three crashes leads to a
   start exactly 5 s per counted crash later, and a fourth leaves the server down.
   */
  lemma {:induction false} UndisturbedCrashRestarts(s: State, id: Id, exit: Exit, ticket: nat)
    requires ticket !in s.sleeping && id !in s.processes && id in s.autoRestart && s.autoRestart[id]
    requires !Intentional(s, id) && !LooksClean(exit)
    ensures var count := NextCount(s, id);
            var wakeAt := s.clock + 5_000 * count;
            var crashed := Step(s, ExitChecked(id, Gone(exit), ticket));
            var t := Step(Step(crashed, Tick(wakeAt)), Wake(ticket));
            && (count <= 3 ==> t.crashes == s.crashes + [Crash(id, s.clock, count, |s.resets|, Some(wakeAt))]
                               && GetStatus(t, id) == STARTING && t.sleeping == s.sleeping)
            && (count > 3 ==> t.crashes == s.crashes + [Crash(id, s.clock, count, |s.resets|, None)]
                              && t.sleeping == s.sleeping && GetStatus(t, id) == ERROR)
  {
    hide LooksClean;
    var count := NextCount(s, id);
    var crash := Crash(id, s.clock, count, |s.resets|, None);
    var down := s.(statuses := s.statuses[id := ERROR]);
    var crashed := CountCrash(down, id, ticket);
    assert NextCount(down, id) == count && crashed.crashes == s.crashes + [crash];
    if count <= 3 {
      var wakeAt := s.clock + 5_000 * count;
      var awake := Woken(Step(crashed, Tick(wakeAt)), ticket);
      assert awake.crashes == (s.crashes + [crash])[|s.crashes| := crash.(started := Some(wakeAt))];
    }
  }

  // ----- the count, from the history alone -----

  /** Crash `j` is the latest one of the server among the first `n`, and no reset has come since, up to reset `r`. */
  ghost predicate LatestSince(s: State, id: Id, j: nat, n: nat, r: nat)
    requires n <= |s.crashes|
  {
    && j < n && s.crashes[j].id == id && Calm(s.resets, id, s.crashes[j].resetsBefore, r)
    && forall k | j < k < n :: s.crashes[k].id != id
  }

  /** None of the first `n` crashes is one of the server since its last reset, up to reset `r`. */
  ghost predicate NoneSince(s: State, id: Id, n: nat, r: nat)
    requires n <= |s.crashes|
  {
    forall j | 0 <= j < n && s.crashes[j].id == id :: !Calm(s.resets, id, s.crashes[j].resetsBefore, r)
  }

  ghost predicate RecordOf(s: State, id: Id, j: nat)
  {
    && id in s.restartAttempts && LatestSince(s, id, j, |s.crashes|, |s.resets|)
    && s.restartAttempts[id] == Attempt(s.crashes[j].count, s.crashes[j].at)
  }

  /** The attempt record is that of the latest crash since the last reset. */
  ghost predicate Recorded(s: State, id: Id)
  {
    if id in s.restartAttempts then exists j: nat :: RecordOf(s, id, j)
    else NoneSince(s, id, |s.crashes|, |s.resets|)
  }

  /**
   A crash starts counting at one if it is the first since the last reset or fifteen minutes after
   the one before; otherwise it counts one more than that.
   */
  ghost predicate RightlyCounted(s: State, i: nat)
    requires i < |s.crashes|
  {
    var c := s.crashes[i];
    && (NoneSince(s, c.id, i, c.resetsBefore) ==> c.count == 1)
    && forall j: nat | LatestSince(s, c.id, j, i, c.resetsBefore) ::
         c.count == if c.at - s.crashes[j].at >= 900_000 then 1 else s.crashes[j].count + 1
  }

  ghost predicate Ledger(s: State)
  {
    && (forall id :: Recorded(s, id))
    && (forall i | 0 <= i < |s.crashes| :: RightlyCounted(s, i) && s.crashes[i].resetsBefore <= |s.resets|)
    && (forall t | t in s.sleeping :: s.sleeping[t].crash < |s.crashes|)
  }

  /** Nothing but starts is added to the history. */
  ghost predicate SameLedger(s: State, t: State)
  {
    && t.resets == s.resets && t.restartAttempts == s.restartAttempts && |t.crashes| == |s.crashes|
    && (forall i | 0 <= i < |s.crashes| :: t.crashes[i] == s.crashes[i].(started := t.crashes[i].started))
    && (forall k | k in t.sleeping :: k in s.sleeping && t.sleeping[k] == s.sleeping[k])
  }

  lemma {:induction false} SameSince(s: State, t: State, id: Id, j: nat, n: nat, r: nat)
    requires n <= |s.crashes| <= |t.crashes| && r <= |s.resets|
    requires forall i | 0 <= i < n :: t.crashes[i] == s.crashes[i].(started := t.crashes[i].started)
    requires |t.resets| >= |s.resets| && forall k | 0 <= k < |s.resets| :: t.resets[k] == s.resets[k]
    ensures LatestSince(t, id, j, n, r) <==> LatestSince(s, id, j, n, r)
    ensures NoneSince(t, id, n, r) <==> NoneSince(s, id, n, r)
  {
    forall i | 0 <= i < n
      ensures Calm(t.resets, id, t.crashes[i].resetsBefore, r) <==> Calm(s.resets, id, s.crashes[i].resetsBefore, r)
    {
      assert t.crashes[i].resetsBefore == s.crashes[i].resetsBefore;
    }
  }

  lemma {:induction false} StillRightlyCounted(s: State, t: State, i: nat)
    requires i < |s.crashes| && RightlyCounted(s, i) && s.crashes[i].resetsBefore <= |s.resets|
    requires |s.crashes| <= |t.crashes|
    requires forall k | 0 <= k < |s.crashes| :: t.crashes[k] == s.crashes[k].(started := t.crashes[k].started)
    requires |t.resets| >= |s.resets| && forall k | 0 <= k < |s.resets| :: t.resets[k] == s.resets[k]
    ensures RightlyCounted(t, i)
  {
    var c := s.crashes[i];
    hide LatestSince, NoneSince;
    SameSince(s, t, c.id, 0, i, c.resetsBefore);
    forall j: nat
      ensures LatestSince(t, c.id, j, i, c.resetsBefore) <==> LatestSince(s, c.id, j, i, c.resetsBefore)
    {
      SameSince(s, t, c.id, j, i, c.resetsBefore);
    }
    forall j: nat | LatestSince(t, c.id, j, i, c.resetsBefore)
      ensures t.crashes[i].count == if t.crashes[i].at - t.crashes[j].at >= 900_000 then 1 else t.crashes[j].count + 1
    {
      assert j < i by { LatestIsBefore(s, c.id, j, i, c.resetsBefore); }
    }
  }

  lemma {:induction false} LatestIsBefore(s: State, id: Id, j: nat, n: nat, r: nat)
    requires n <= |s.crashes| && LatestSince(s, id, j, n, r)
    ensures j < n && s.crashes[j].id == id
  {
  }

  lemma {:induction false} SameLedgerStays(s: State, t: State)
    requires Ledger(s) && SameLedger(s, t)
    ensures Ledger(t)
  {
    hide LatestSince, NoneSince, RightlyCounted;
    forall id
      ensures Recorded(t, id)
    {
      assert Recorded(s, id);
      SameSince(s, t, id, 0, |s.crashes|, |s.resets|);
      if id in s.restartAttempts {
        var j: nat :| RecordOf(s, id, j);
        LatestIsBefore(s, id, j, |s.crashes|, |s.resets|);
        SameSince(s, t, id, j, |s.crashes|, |s.resets|);
        assert RecordOf(t, id, j);
      }
    }
    forall i | 0 <= i < |t.crashes|
      ensures RightlyCounted(t, i)
    {
      StillRightlyCounted(s, t, i);
    }
  }

  lemma {:induction false} ForgetLedger(s: State, id: Id)
    requires Ledger(s)
    ensures Ledger(Forget(s, id))
  {
    hide RightlyCounted, Recorded;
    var t := Forget(s, id);
    assert forall k | 0 <= k < |s.resets| :: t.resets[k] == s.resets[k];
    forall other
      ensures Recorded(t, other)
    {
      ForgetRecord(s, id, other);
    }
    forall i | 0 <= i < |t.crashes|
      ensures RightlyCounted(t, i)
    {
      StillRightlyCounted(s, t, i);
    }
  }

  lemma {:induction false} ForgetRecord(s: State, id: Id, other: Id)
    requires Recorded(s, other) && forall i | 0 <= i < |s.crashes| :: s.crashes[i].resetsBefore <= |s.resets|
    ensures Recorded(Forget(s, id), other)
  {
    var t := Forget(s, id);
    assert t.resets[|s.resets|] == Reset(id, s.clock);
    if other != id {
      OtherCalm(s, t, other);
      hide Calm;
      if other in s.restartAttempts {
        var j: nat :| RecordOf(s, other, j);
        assert RecordOf(t, other, j);
      }
    }
  }

  /** A reset of one server leaves the others as calm as they were. */
  lemma {:induction false} OtherCalm(s: State, t: State, id: Id)
    requires |t.resets| == |s.resets| + 1 && t.resets[..|s.resets|] == s.resets && t.resets[|s.resets|].id != id
    ensures forall a: nat :: Calm(t.resets, id, a, |t.resets|) <==> Calm(s.resets, id, a, |s.resets|)
  {
    forall a: nat
      ensures Calm(t.resets, id, a, |t.resets|) <==> Calm(s.resets, id, a, |s.resets|)
    {
      assert forall k | 0 <= k < |s.resets| :: t.resets[k] == s.resets[k];
    }
  }

  /** What the crash just counted gets, from the record as it was. */
  lemma {:induction false} NewestRightlyCounted(s: State, t: State, id: Id)
    requires Ledger(s) && CrashAdded(s, t, id)
    ensures RightlyCounted(t, |s.crashes|)
  {
    var n, r := |s.crashes|, |s.resets|;
    assert Recorded(s, id);
    assert forall i | 0 <= i < n :: t.crashes[i] == s.crashes[i];
    hide RightlyCounted;
    SameSince(s, t, id, 0, n, r);
    forall j: nat
      ensures LatestSince(t, id, j, n, r) <==> LatestSince(s, id, j, n, r)
    {
      SameSince(s, t, id, j, n, r);
    }
    CountFromRecord(s, t, id);
  }

  lemma {:induction false} CountFromRecord(s: State, t: State, id: Id)
    requires CrashAdded(s, t, id) && Recorded(s, id)
    requires NoneSince(t, id, |s.crashes|, |s.resets|) <==> NoneSince(s, id, |s.crashes|, |s.resets|)
    requires forall j: nat ::
               LatestSince(t, id, j, |s.crashes|, |s.resets|) <==> LatestSince(s, id, j, |s.crashes|, |s.resets|)
    ensures RightlyCounted(t, |s.crashes|)
  {
    var n, r := |s.crashes|, |s.resets|;
    assert forall i | 0 <= i < n :: t.crashes[i] == s.crashes[i];
    assert t.crashes[n] == Crash(id, s.clock, NextCount(s, id), r, None);
    if id in s.restartAttempts {
      var k: nat :| RecordOf(s, id, k);
      assert LatestSince(s, id, k, n, r) && !NoneSince(s, id, n, r);
      forall j: nat | LatestSince(s, id, j, n, r)
        ensures j == k
      {
      }
      hide LatestSince, NoneSince;
      assert LatestSince(t, id, k, n, r) && t.crashes[k] == s.crashes[k];
    } else {
      assert forall j: nat :: !LatestSince(s, id, j, n, r);
      hide LatestSince, NoneSince;
    }
  }

  lemma {:induction false} CountedLedger(s: State, t: State, id: Id)
    requires Ledger(s) && CrashAdded(s, t, id) && forall k | k in t.sleeping :: t.sleeping[k].crash < |t.crashes|
    ensures Ledger(t)
  {
    var n := |s.crashes|;
    assert forall i | 0 <= i < n :: t.crashes[i] == s.crashes[i];
    NewestRightlyCounted(s, t, id);
    hide RightlyCounted, NextCount;
    forall i | 0 <= i < |t.crashes|
      ensures RightlyCounted(t, i)
    {
      if i < n {
        StillRightlyCounted(s, t, i);
      }
    }
    forall other
      ensures Recorded(t, other)
    {
      CountedRecord(s, t, id, other);
    }
  }

  lemma {:induction false} CountedRecord(s: State, t: State, id: Id, other: Id)
    requires CrashAdded(s, t, id) && Recorded(s, other)
    ensures Recorded(t, other)
  {
    hide NextCount;
    var n, r := |s.crashes|, |s.resets|;
    assert forall i | 0 <= i < n :: t.crashes[i] == s.crashes[i];
    if other == id {
      assert LatestSince(t, id, n, n + 1, r);
      assert RecordOf(t, id, n);
    } else if other in s.restartAttempts {
      var j: nat :| RecordOf(s, other, j);
      assert LatestSince(t, other, j, n + 1, r);
      assert RecordOf(t, other, j);
    }
  }

  lemma {:induction false} AfterExitLedger(s: State, id: Id, container: Container, ticket: nat)
    requires Ledger(s)
    ensures Ledger(AfterExit(s, id, container, ticket))
  {
    hide Ledger, Forget, CountCrash, Intentional, LooksClean;
    var t := AfterExit(s, id, container, ticket);
    if container.Gone? && Intentional(s, id) {
      ForgetLedger(s, id);
      ForgetKeeps(s, id);
      SameLedgerStays(Forget(s, id), t);
    } else if container.Gone? && !LooksClean(container.exit) {
      var down := s.(statuses := s.statuses[id := ERROR]);
      SameLedgerStays(s, down);
      CrashLedger(down, id, ticket);
    } else {
      SameLedgerStays(s, t);
    }
  }

  lemma {:induction false} StepKeepsLedger(s: State, e: Event)
    requires Ledger(s)
    ensures Ledger(Step(s, e))
  {
    hide Ledger, Forget, Woken, AfterExit;
    var t := Step(s, e);
    match e
    case ExitChecked(id, container, ticket) => AfterExitLedger(s, id, container, ticket);
    case Wake(ticket) =>
      if ticket in s.sleeping && s.clock >= s.sleeping[ticket].wakeAt {
        WokenLedger(s, ticket);
      }
      SameLedgerStays(s, t);
    case StopBegins(id) =>
      ForgetLedger(s, id);
      ForgetKeeps(s, id);
      SameLedgerStays(Forget(s, id), t);
    case KillBegins(id) =>
      ForgetLedger(s, id);
      ForgetKeeps(s, id);
      SameLedgerStays(Forget(s, id), t);
    case _ => SameLedgerStays(s, t);
  }

  lemma {:induction false} ForgetKeeps(s: State, id: Id)
    ensures Forget(s, id).crashes == s.crashes && Forget(s, id).sleeping == s.sleeping
  {
  }

  lemma {:induction false} WokenLedger(s: State, ticket: nat)
    requires ticket in s.sleeping
    ensures SameLedger(s, Woken(s, ticket))
  {
  }

  lemma {:induction false} CrashLedger(s: State, id: Id, ticket: nat)
    requires Ledger(s)
    ensures Ledger(CountCrash(s, id, ticket))
  {
    hide Recorded, RightlyCounted, NextCount;
    var t := CountCrash(s, id, ticket);
    if t != s {
      CountedLedger(s, t, id);
    }
  }

  /** So it is in every run. */
  lemma {:induction false} CountsAreRight(events: seq<Event>)
    ensures Ledger(Run(events))
  {
    if events == [] {
      assert forall id :: Recorded(START, id);
    } else {
      CountsAreRight(events[..|events| - 1]);
      hide Ledger, Step;
      StepKeepsLedger(Run(events[..|events| - 1]), events[|events| - 1]);
    }
  }

  /** No crash of the server that still counts: each is fifteen minutes old or followed by a reset. */
  ghost predicate Quiet(s: State, id: Id)
  {
    forall j | 0 <= j < |s.crashes| && s.crashes[j].id == id ::
      s.clock - s.crashes[j].at >= 900_000 || !Calm(s.resets, id, s.crashes[j].resetsBefore, |s.resets|)
  }

  /**
   In every run, a crash after fifteen quiet minutes that is left alone starts the server exactly five
   seconds later, however often it has crashed before.
   */
  lemma {:induction false} QuietCrashRestarts(events: seq<Event>, id: Id, exit: Exit, ticket: nat)
    requires var s := Run(events);
             && Quiet(s, id) && ticket !in s.sleeping && id !in s.processes && id in s.autoRestart && s.autoRestart[id]
             && !Intentional(s, id) && !LooksClean(exit)
    ensures var s := Run(events);
            var t := Run(events + [ExitChecked(id, Gone(exit), ticket)] + [Tick(s.clock + 5_000)] + [Wake(ticket)]);
            && t.crashes == s.crashes + [Crash(id, s.clock, 1, |s.resets|, Some(s.clock + 5_000))]
            && GetStatus(t, id) == STARTING
  {
    hide *;
    CountsAreRight(events);
    QuietCountsOne(Run(events), id);
    FirstCrashRestarts(Run(events), id, exit, ticket);
    var crash, wait := ExitChecked(id, Gone(exit), ticket), Tick(Run(events).clock + 5_000);
    RunAppend(events, crash);
    RunAppend(events + [crash], wait);
    RunAppend(events + [crash] + [wait], Wake(ticket));
  }

  lemma {:induction false} FirstCrashRestarts(s: State, id: Id, exit: Exit, ticket: nat)
    requires ticket !in s.sleeping && id !in s.processes && id in s.autoRestart && s.autoRestart[id]
    requires !Intentional(s, id) && !LooksClean(exit) && NextCount(s, id) == 1
    ensures var t := Step(Step(Step(s, ExitChecked(id, Gone(exit), ticket)), Tick(s.clock + 5_000)), Wake(ticket));
            && t.crashes == s.crashes + [Crash(id, s.clock, 1, |s.resets|, Some(s.clock + 5_000))]
            && GetStatus(t, id) == STARTING
  {
    hide *;
    UndisturbedCrashRestarts(s, id, exit, ticket);
  }

  lemma {:induction false} QuietCountsOne(s: State, id: Id)
    requires Ledger(s) && Quiet(s, id)
    ensures NextCount(s, id) == 1
  {
    assert Recorded(s, id);
    if id in s.restartAttempts {
      var j: nat :| RecordOf(s, id, j);
      assert s.clock - s.crashes[j].at >= 900_000;
    }
  }

  lemma {:induction false} RunAppend(events: seq<Event>, e: Event)
    ensures Run(events + [e]) == Step(Run(events), e)
  {
    assert (events + [e])[..|events|] == events;
  }

  // ----- stops and kills -----

  /** The server has been told to stop or has stopped. */
  ghost predicate Down(s: State, id: Id) { id in s.statuses && s.statuses[id] in {STOPPING, STOPPED} }

  /** Neither an exit of the server being handled nor a status set by another part. */
  ghost predicate LeavesAlone(e: Event, id: Id)
  {
    !(e.SetStatus? && e.id == id) && !(e.ExitChecked? && e.id == id)
  }

  ghost predicate AllLeaveAlone(events: seq<Event>, id: Id)
  {
    forall i | 0 <= i < |events| :: LeavesAlone(events[i], id)
  }

  /** No crash of the server has been counted and none has led to an automatic start. */
  ghost predicate NotRevived(s: State, t: State, id: Id)
  {
    && |s.crashes| <= |t.crashes|
    && (forall i | 0 <= i < |s.crashes| :: t.crashes[i].id == id <==> s.crashes[i].id == id)
    && forall i | 0 <= i < |t.crashes| && t.crashes[i].id == id :: i < |s.crashes| && t.crashes[i] == s.crashes[i]
  }

  /** The server stays down, and stopping if it was. */
  ghost predicate StaysDown(s: State, t: State, id: Id)
  {
    Down(t, id) && NotRevived(s, t, id) && (GetStatus(s, id) == STOPPING ==> GetStatus(t, id) == STOPPING)
  }

  lemma {:induction false} OtherExit(s: State, other: Id, container: Container, ticket: nat, id: Id)
    requires Down(s, id) && other != id
    ensures StaysDown(s, AfterExit(s, other, container, ticket), id)
  {
    hide Delay, LooksClean, NextCount;
  }

  lemma {:induction false} OtherWakes(s: State, ticket: nat, id: Id)
    requires Down(s, id) && ticket in s.sleeping && SleepFits(s, s.sleeping[ticket])
    ensures StaysDown(s, Woken(s, ticket), id)
  {
    hide Delay;
  }

  lemma {:induction false} PlainStep(s: State, e: Event, id: Id)
    requires Down(s, id) && LeavesAlone(e, id) && !e.ExitChecked? && !e.Wake?
    ensures StaysDown(s, Step(s, e), id)
  {
    hide AfterExit, Woken;
  }

  lemma {:induction false} SameStaysDown(s: State, id: Id)
    requires Down(s, id)
    ensures StaysDown(s, s, id)
  {
  }

  lemma {:induction false} DownStep(s: State, e: Event, id: Id)
    requires Inv(s) && Down(s, id) && LeavesAlone(e, id)
    ensures StaysDown(s, Step(s, e), id)
  {
    assert e.Wake? && e.ticket in s.sleeping ==> SleepFits(s, s.sleeping[e.ticket]);
    SameStaysDown(s, id);
    hide AfterExit, Woken, Inv, SleepFits, StaysDown, Down;
    if e.ExitChecked? {
      OtherExit(s, e.id, e.container, e.ticket, id);
    } else if e.Wake? {
      if e.ticket in s.sleeping {
        OtherWakes(s, e.ticket, id);
      }
    } else {
      hide Step;
      PlainStep(s, e, id);
    }
  }

  lemma {:induction false} DownRun(before: seq<Event>, events: seq<Event>, id: Id)
    requires Down(Run(before), id) && AllLeaveAlone(events, id)
    ensures StaysDown(Run(before), Run(before + events), id)
  {
    hide Step, Inv;
    if events == [] {
      assert before + events == before;
    } else {
      var n := |events| - 1;
      assert before + events == before + events[..n] + [events[n]];
      DownRun(before, events[..n], id);
      RunKeepsInv(before + events[..n]);
      RunAppend(before + events[..n], events[n]);
      assert LeavesAlone(events[n], id);
      DownStep(Run(before + events[..n]), events[n], id);
    }
  }

  lemma {:induction false} StopBegun(s: State, stop: Event, id: Id)
    requires stop == KillBegins(id) || (stop == StopBegins(id) && id in s.processes)
    ensures GetStatus(Step(s, stop), id) == STOPPING && Down(Step(s, stop), id) && Step(s, stop).crashes == s.crashes
  {
  }

  /** The exit that follows a stop ends it and counts as no crash. */
  lemma {:induction false} ExitAfterStop(s: State, exit: Event, id: Id)
    requires GetStatus(s, id) == STOPPING && exit.ExitChecked? && exit.id == id && !exit.container.StillRunning?
    ensures Down(Step(s, exit), id) && Step(s, exit).crashes == s.crashes
  {
  }

  /**
   A stop of an attached server, or a kill, is never undone: until another part sets its status or a
   further exit of it is handled, no crash of the server is counted and none starts it, whatever
   restarts were asleep, whether the flag of the stop has expired, and however its child ended.
   */
  lemma {:induction false} StoppedStaysDown(
    before: seq<Event>, stop: Event, middle: seq<Event>, exit: Event, after: seq<Event>, id: Id)
    requires stop == KillBegins(id) || (stop == StopBegins(id) && id in Run(before).processes)
    requires exit.ExitChecked? && exit.id == id && !exit.container.StillRunning?
    requires AllLeaveAlone(middle, id) && AllLeaveAlone(after, id)
    ensures var t := Run(before + [stop] + middle + [exit] + after);
            Down(t, id) && NotRevived(Run(before), t, id)
  {
    hide Inv, Step;
    var stopped := before + [stop];
    RunAppend(before, stop);
    StopBegun(Run(before), stop, id);
    DownRun(stopped, middle, id);
    RunAppend(stopped + middle, exit);
    ExitAfterStop(Run(stopped + middle), exit, id);
    DownRun(stopped + middle + [exit], after, id);
  }

  /** The server is started, runs, and ends with an exit that the container check confirms. */
  function Lived(s: State, id: Id, child: nat, exit: Exit, ticket: nat): State
  {
    var running := Step(Step(s, Attach(id, child)), SetStatus(id, RUNNING));
    Step(Step(running, ChildExit(id, child)), ExitChecked(id, Gone(exit), ticket))
  }

  function Rested(s: State, ms: nat, ticket: nat): State { Step(Step(s, Tick(s.clock + ms)), Wake(ticket)) }

  lemma {:induction false} LivedMeans(s: State, id: Id, child: nat, exit: Exit, ticket: nat)
    ensures var gone := s.(processes := s.processes - {id}, statuses := s.statuses[id := RUNNING]);
            Lived(s, id, child, exit, ticket) == Step(gone, ExitChecked(id, Gone(exit), ticket))
  {
    hide AfterExit;
    assert s.processes[id := child] - {id} == s.processes - {id};
  }

  /** A server that is not being stopped and has no crash on record is started 5 s after its next crash. */
  lemma {:induction false} CrashedOnce(s: State, id: Id, child: nat, exit: Exit, ticket: nat)
    requires ticket !in s.sleeping && id in s.autoRestart && s.autoRestart[id] && !LooksClean(exit)
    requires id !in s.intentionalStops && id !in s.restartAttempts
    ensures var t := Rested(Lived(s, id, child, exit, ticket), 5_000, ticket);
            && t.crashes == s.crashes + [Crash(id, s.clock, 1, |s.resets|, Some(s.clock + 5_000))]
            && GetStatus(t, id) == STARTING
  {
    hide *;
    var gone := s.(processes := s.processes - {id}, statuses := s.statuses[id := RUNNING]);
    LivedMeans(s, id, child, exit, ticket);
    CrashedOnceGone(gone, id, exit, ticket);
  }

  lemma {:induction false} CrashedOnceGone(s: State, id: Id, exit: Exit, ticket: nat)
    requires ticket !in s.sleeping && id in s.autoRestart && s.autoRestart[id] && !LooksClean(exit)
    requires id !in s.intentionalStops && id !in s.restartAttempts
    requires id !in s.processes && id in s.statuses && s.statuses[id] == RUNNING
    ensures var t := Rested(Step(s, ExitChecked(id, Gone(exit), ticket)), 5_000, ticket);
            && t.crashes == s.crashes + [Crash(id, s.clock, 1, |s.resets|, Some(s.clock + 5_000))]
            && GetStatus(t, id) == STARTING
  {
    assert NextCount(s, id) == 1 && !Intentional(s, id);
    hide LooksClean, Step, NextCount, Intentional, GetStatus;
    ExitKeepsClock(s, id, exit, ticket);
    FirstCrashRestarts(s, id, exit, ticket);
  }

  lemma {:induction false} ExitKeepsClock(s: State, id: Id, exit: Exit, ticket: nat)
    ensures Step(s, ExitChecked(id, Gone(exit), ticket)).clock == s.clock
  {
  }

  /** An attached server has been stopped, and its exit has been handled. */
  function Stopped(s: State, id: Id, first: Exit, other: nat): State
    requires id in s.processes
  {
    var ended := Step(Step(s, StopBegins(id)), ChildExit(id, s.processes[id]));
    Step(Step(ended, ExitChecked(id, Gone(first), other)), SetStatus(id, STOPPED))
  }

  /** A server has been killed; `expired` says whether the flag of the kill has been dropped since. */
  function Killed(s: State, id: Id, expired: bool): State
  {
    var killed := Step(Step(s, KillBegins(id)), SetStatus(id, STOPPED));
    if expired then Step(killed, FlagExpires(id)) else killed
  }

  /**
   A stop is forgotten once its exit has been handled: when the server is started again and crashes,
   it is restarted 5 s later, with earlier crashes forgotten.
   */
  lemma {:induction false} CrashAfterStop(
    s: State, id: Id, first: Exit, other: nat, child: nat, exit: Exit, ticket: nat)
    requires id in s.processes && ticket !in s.sleeping && other !in s.sleeping
    requires id in s.autoRestart && s.autoRestart[id] && !LooksClean(exit)
    ensures var t := Rested(Lived(Stopped(s, id, first, other), id, child, exit, ticket), 5_000, ticket);
            && t.crashes == s.crashes + [Crash(id, s.clock, 1, |s.resets| + 2, Some(s.clock + 5_000))]
            && GetStatus(t, id) == STARTING
  {
    hide *;
    StopEnds(s, id, first, other);
    CrashedOnce(Stopped(s, id, first, other), id, child, exit, ticket);
  }

  lemma {:induction false} StopEnds(s: State, id: Id, first: Exit, other: nat)
    requires id in s.processes && other !in s.sleeping
    ensures var t := Stopped(s, id, first, other);
            && t.sleeping == s.sleeping && t.autoRestart == s.autoRestart && t.clock == s.clock
            && t.crashes == s.crashes && |t.resets| == |s.resets| + 2
            && id !in t.intentionalStops && id !in t.restartAttempts
  {
    hide LooksClean, CountCrash;
  }

  /**
   A kill is not, as its child is detached before it ends: a server killed, started again and
   crashing is restarted exactly when the flag of the kill has been dropped in between, which takes
   a minute. Otherwise the crash passes for the end of the kill.
   */
  lemma {:induction false} CrashAfterKill(s: State, id: Id, expired: bool, child: nat, exit: Exit, ticket: nat)
    requires ticket !in s.sleeping && id in s.autoRestart && s.autoRestart[id] && !LooksClean(exit)
    ensures var t := Rested(Lived(Killed(s, id, expired), id, child, exit, ticket), 5_000, ticket);
            if expired then
              && t.crashes == s.crashes + [Crash(id, s.clock, 1, |s.resets| + 1, Some(s.clock + 5_000))]
              && GetStatus(t, id) == STARTING
            else t.crashes == s.crashes && GetStatus(t, id) == STOPPED
  {
    hide *;
    KillEnds(s, id, expired);
    if expired {
      CrashedOnce(Killed(s, id, true), id, child, exit, ticket);
    } else {
      FlaggedExit(Killed(s, id, false), id, child, exit, ticket);
    }
  }

  lemma {:induction false} KillEnds(s: State, id: Id, expired: bool)
    ensures var t := Killed(s, id, expired);
            && t.sleeping == s.sleeping && t.autoRestart == s.autoRestart && t.clock == s.clock
            && t.crashes == s.crashes && |t.resets| == |s.resets| + 1
            && (id in t.intentionalStops <==> !expired) && id !in t.restartAttempts
  {
  }

  lemma {:induction false} FlaggedExit(s: State, id: Id, child: nat, exit: Exit, ticket: nat)
    requires ticket !in s.sleeping && id in s.intentionalStops
    ensures var t := Rested(Lived(s, id, child, exit, ticket), 5_000, ticket);
            t.crashes == s.crashes && GetStatus(t, id) == STOPPED
  {
    LivedMeans(s, id, child, exit, ticket);
    hide LooksClean, Lived, CountCrash;
  }

  /** A child that comes and goes leaves nothing behind, and the exit of one already replaced changes nothing. */
  lemma {:induction false} OnlyItsOwnExitDetaches(s: State, id: Id, child: nat, older: nat)
    requires id !in s.processes && older != child
    ensures Step(Step(s, Attach(id, child)), Detach(id)) == s
    ensures Step(Step(s, Attach(id, child)), ChildExit(id, child)) == s
    ensures Step(Step(s, Attach(id, child)), ChildExit(id, older)) == Step(s, Attach(id, child))
  {
    assert s.processes[id := child] - {id} == s.processes;
  }

  /** What makes a sleeping restart void: a stop, a kill, a changed configuration, a start, another status. */
  ghost predicate Disturbs(e: Event, id: Id)
  {
    || e == StopBegins(id) || e == KillBegins(id) || e == Configure(id, false)
    || (e.Attach? && e.id == id)
    || (e.SetStatus? && e.id == id && e.status != ERROR)
  }

  /** A crash that is followed by one of these before its sleep is over starts nothing. */
  lemma {:induction false} DisturbedCrashStartsNothing(s: State, id: Id, exit: Exit, ticket: nat, e: Event)
    requires ticket !in s.sleeping && Disturbs(e, id)
    ensures var disturbed := Step(Step(s, ExitChecked(id, Gone(exit), ticket)), e);
            var t := Rested(disturbed, 15_000, ticket);
            t.crashes == disturbed.crashes && t.statuses == disturbed.statuses && |t.crashes| <= |s.crashes| + 1
              && ticket !in t.sleeping
  {
    var crashed := Step(s, ExitChecked(id, Gone(exit), ticket));
    SleepsAtMost(s, id, exit, ticket);
    hide AfterExit;
    Unwanted(crashed, id, e);
    DisturbedSleep(crashed, Step(crashed, e), id, ticket);
  }

  lemma {:induction false} SleepsAtMost(s: State, id: Id, exit: Exit, ticket: nat)
    requires ticket !in s.sleeping
    ensures var t := Step(s, ExitChecked(id, Gone(exit), ticket));
            && |t.crashes| <= |s.crashes| + 1
            && (ticket in t.sleeping ==>
                  t.sleeping[ticket].id == id && t.sleeping[ticket].wakeAt <= t.clock + 15_000)
  {
    hide LooksClean, NextCount;
  }

  lemma {:induction false} Unwanted(s: State, id: Id, e: Event)
    requires Disturbs(e, id)
    ensures !StillWanted(Step(s, e), id)
    ensures Step(s, e).crashes == s.crashes && Step(s, e).sleeping == s.sleeping && Step(s, e).clock == s.clock
  {
  }

  lemma {:induction false} DisturbedSleep(s: State, t: State, id: Id, ticket: nat)
    requires t.sleeping == s.sleeping && t.clock == s.clock && !StillWanted(t, id)
    requires ticket in s.sleeping ==> s.sleeping[ticket].id == id && s.sleeping[ticket].wakeAt <= s.clock + 15_000
    ensures var rested := Rested(t, 15_000, ticket);
            rested.crashes == t.crashes && rested.statuses == t.statuses && ticket !in rested.sleeping
  {
  }
}

/**
 The panel's license state machine: `validate-impl.ts` with the key, cache and last-ok files of
 `license-store.ts` and the transition effects of `validate-effects.ts`, for an install that does
 not allow unsigned replies.
 */
module PanelLicense {
  import opened JsText

  /** What the panel reads of signed claims; `iat` and `exp` are in seconds. */
  datatype Claims = Claims(keyHash: string, valid: bool, status: string, iat: int, exp: int)

  /** A reply of the license server; `ok` is the HTTP success flag. */
  datatype Response = Response(claims: Option<Claims>, signature: Option<string>, ok: bool)

  /** How the request ended: a reply, or any exception on the way. */
  datatype Reply = Answered(response: Response) | Failed

  /** The uninterpreted parts: the hash of a license key and the signature check. */
  datatype Crypto = Crypto(hash: string -> string, verify: (Claims, string) -> bool)

  datatype Limits = Limits(graceMs: int, cacheMs: nat)

  /** What a check found; for a valid license, the signed claims and the key they were checked for. */
  datatype Kind = SignedValid(claims: Claims, signature: string, key: string) | Unreachable | OtherInvalid

  /** A check that has ended, at time `end`. */
  datatype Check = Check(kind: Kind, end: int)

  /** A check under way, with the key and the cached validity it read at its start. */
  datatype InFlight = InFlight(startedAt: int, snapshot: Option<bool>, key: string)

  /** `key` is empty when there is none; `checks` and `validity` record the history. */
  datatype State = State(
    key: string, cached: Option<bool>, cachedAt: int, lastValid: Option<bool>, lastOk: Option<int>,
    inFlight: Option<InFlight>, clock: int,
    checks: seq<Check>, validity: seq<Option<bool>>, enforced: nat)

  function SignatureOk(r: Response, key: string, crypto: Crypto, nowSec: int): bool
  {
    && r.claims.Some? && r.signature.Some?
    && r.claims.value.keyHash == crypto.hash(key)
    && r.claims.value.iat <= nowSec + 60 && r.claims.value.exp >= nowSec
    && crypto.verify(r.claims.value, r.signature.value)
  }

  /** A fresh, correctly signed reply for the key that says the license is valid. */
  predicate SaysValid(r: Response, key: string, crypto: Crypto, nowSec: int)
  {
    && SignatureOk(r, key, crypto, nowSec) && r.claims.value.valid
    && (r.claims.value.status == "valid" || (r.claims.value.status == "" && r.ok))
  }

  /** `checkBegins` says that a check begins after the new key is written and before the cache is reset. */
  datatype Event =
    | Tick(to: int)
    | Begin
    | Finish(reply: Reply, marked: bool, lastOkReadable: bool)
    | InvalidateCache
    | SetKey(key: string, checkBegins: bool)
    | ClearKey
    | Restart

  class Panel {
    /** The license key in its file or in the environment. */
    var key: string
    var cached: Option<bool>
    var cachedAt: int
    var lastValid: Option<bool>
    /** The time in the `license-last-ok` file. */
    var lastOk: Option<int>
    var inFlight: Option<InFlight>
    var clock: int
    ghost var checks: seq<Check>
    ghost var validity: seq<Option<bool>>
    ghost var enforced: nat

    ghost function View(): State
      reads this
    {
      State(key, cached, cachedAt, lastValid, lastOk, inFlight, clock, checks, validity, enforced)
    }

    constructor (key: string, lastOk: Option<int>, clock: int)
      ensures View() == Boot(key, lastOk, clock)
    {
      this.key, this.cached, this.cachedAt, this.lastValid, this.lastOk := key, None, 0, None, lastOk;
      this.inFlight, this.clock := None, clock;
      this.checks, this.validity, this.enforced := [], [], 0;
    }

    /** `validateLicense`: the cached state, or nothing when the caller has to wait for a check. */
    method ValidateLicense(force: bool, limits: Limits, ghost crypto: Crypto) returns (answer: Option<bool>)
      modifies this
      ensures answer == if force then None else CachedAnswer(old(View()), limits)
      ensures View() == if answer.Some? then old(View()) else Step(old(View()), Begin, limits, crypto)
    {
      if !force && cached.Some? && clock - cachedAt < limits.cacheMs {
        return cached;
      }
      if inFlight.None? {
        inFlight := Some(InFlight(clock, cached, key));
      }
      return None;
    }

    /** `maybeEnforceTransition` */
    method MaybeEnforceTransition(valid: bool)
      modifies this`lastValid, this`validity, this`enforced
      ensures lastValid == Some(valid) && validity == old(validity) + [Some(valid)]
      ensures enforced == old(enforced) + (if old(lastValid) == Some(true) && !valid then 1 else 0)
    {
      var was := lastValid;
      lastValid := Some(valid);
      validity := validity + [Some(valid)];
      if was == Some(true) && !valid {
        enforced := enforced + 1;
      }
    }

    /**
     The end of `doValidateLicense`. `marked` says whether writing the last-ok file worked; when it
     throws, control lands in the catch branch with the new state already in hand.
     */
    method FinishCheck(reply: Reply, marked: bool, lastOkReadable: bool, limits: Limits, crypto: Crypto)
        returns (answer: bool)
      requires inFlight.Some?
      modifies this
      ensures View() == Step(old(View()), Finish(reply, marked, lastOkReadable), limits, crypto)
      ensures cached == Some(answer)
    {
      hide Trim;
      var startedAt, state, checkedKey := inFlight.value.startedAt, inFlight.value.snapshot, inFlight.value.key;
      inFlight := None;
      cachedAt := startedAt;
      ghost var kind := OtherInvalid;
      var threw := false;
      if checkedKey == "" {
        answer := false;
      } else {
        match reply {
          case Answered(response) =>
            if !SignatureOk(response, checkedKey, crypto, clock / 1000) {
              answer := false;
            } else {
              answer := SaysValid(response, checkedKey, crypto, clock / 1000);
              state := Some(answer);
              if answer {
                kind := SignedValid(response.claims.value, response.signature.value, checkedKey);
                if marked {
                  lastOk := Some(clock);
                } else {
                  threw := true;
                }
              }
            }
          case Failed =>
            answer := false;
            kind := Unreachable;
            threw := true;
        }
      }
      if threw {
        var withinGrace := lastOkReadable && lastOk.Some? && clock - lastOk.value < limits.graceMs;
        answer := withinGrace && lastValid == Some(true) && state == Some(true);
      }
      cached := Some(answer);
      checks := checks + [Check(kind, clock)];
      MaybeEnforceTransition(answer);
    }

    /** The end of `setLicenseServerUrl`. */
    method InvalidateLicenseCache(ghost limits: Limits, ghost crypto: Crypto)
      modifies this
      ensures View() == Step(old(View()), InvalidateCache, limits, crypto)
    {
      cached, cachedAt := None, 0;
    }

    /** `setLicenseKey`; between its write and its reset a request may begin a check. */
    method SetLicenseKey(newKey: string, checkBegins: bool, ghost limits: Limits, ghost crypto: Crypto)
      modifies this
      ensures View() == Step(old(View()), SetKey(newKey, checkBegins), limits, crypto)
    {
      hide Trim, Judge;
      key := Trim(newKey);
      if checkBegins && inFlight.None? {
        inFlight := Some(InFlight(clock, cached, key));
      }
      cached, cachedAt := None, 0;
    }

    method ClearLicenseKey(ghost limits: Limits, ghost crypto: Crypto)
      modifies this
      ensures View() == Step(old(View()), ClearKey, limits, crypto)
    {
      key := "";
      lastOk := None;
      cached, cachedAt := None, 0;
    }
  }

  // ----- the same steps on values -----

  function Boot(key: string, lastOk: Option<int>, clock: int): State
  {
    State(key, None, 0, None, lastOk, None, clock, [], [], 0)
  }

  function CachedAnswer(s: State, limits: Limits): Option<bool>
  {
    if s.cached.Some? && s.clock - s.cachedAt < limits.cacheMs then s.cached else None
  }

  /** An earlier result of this process was valid and the last-ok file is young enough. */
  predicate WithinGrace(s: State, limits: Limits)
  {
    s.lastOk.Some? && s.clock - s.lastOk.value < limits.graceMs && s.lastValid == Some(true)
  }

  /** Kind, validity and new last-ok time of a check that ends now. */
  function Judge(s: State, e: Event, limits: Limits, crypto: Crypto): (Kind, bool, Option<int>)
    requires e.Finish? && s.inFlight.Some?
  {
    var check := s.inFlight.value;
    if check.key == "" then (OtherInvalid, false, s.lastOk)
    else if e.reply.Failed? then
      (Unreachable, e.lastOkReadable && WithinGrace(s, limits) && check.snapshot == Some(true), s.lastOk)
    else if SaysValid(e.reply.response, check.key, crypto, s.clock / 1000) then
      (SignedValid(e.reply.response.claims.value, e.reply.response.signature.value, check.key),
       e.marked || (e.lastOkReadable && WithinGrace(s, limits)),
       if e.marked then Some(s.clock) else s.lastOk)
    else (OtherInvalid, false, s.lastOk)
  }

  function Began(s: State, key: string): Option<InFlight>
  {
    if s.inFlight.Some? then s.inFlight else Some(InFlight(s.clock, s.cached, key))
  }

  function Step(s: State, e: Event, limits: Limits, crypto: Crypto): State
  {
    match e
    case Tick(to) => if to >= s.clock then s.(clock := to) else s
    case Begin => s.(inFlight := Began(s, s.key))
    case Finish(_, _, _) =>
      if s.inFlight.None? then s
      else
        var (kind, valid, lastOk) := Judge(s, e, limits, crypto);
        s.(inFlight := None, cached := Some(valid), cachedAt := s.inFlight.value.startedAt, lastOk := lastOk,
           lastValid := Some(valid), checks := s.checks + [Check(kind, s.clock)],
           validity := s.validity + [Some(valid)],
           enforced := s.enforced + (if s.lastValid == Some(true) && !valid then 1 else 0))
    case InvalidateCache => s.(cached := None, cachedAt := 0)
    case SetKey(key, checkBegins) =>
      s.(key := Trim(key), inFlight := if checkBegins then Began(s, Trim(key)) else s.inFlight,
         cached := None, cachedAt := 0)
    case ClearKey => s.(key := "", cached := None, cachedAt := 0, lastOk := None)
    case Restart =>
      s.(cached := None, cachedAt := 0, lastValid := None, inFlight := None, validity := s.validity + [None])
  }

  function Run(s: State, events: seq<Event>, limits: Limits, crypto: Crypto): State
  {
    if events == [] then s
    else Step(Run(s, events[..|events| - 1], limits, crypto), events[|events| - 1], limits, crypto)
  }

  // ----- how long a valid answer can outlive a signed check -----

  /** The latest signed valid check, if nothing but unreachable checks came after it. */
  function Support(checks: seq<Check>): (r: Option<Check>)
    ensures r.Some? ==> r.value.kind.SignedValid?
  {
    if checks == [] then None
    else
      var last := checks[|checks| - 1];
      match last.kind
      case SignedValid(_, _, _) => Some(last)
      case Unreachable => Support(checks[..|checks| - 1])
      case OtherInvalid => None
  }

  lemma {:induction false} SupportMeans(checks: seq<Check>)
    requires Support(checks).Some?
    ensures exists i :: 0 <= i < |checks| && checks[i] == Support(checks).value
              && forall j | i < j < |checks| :: checks[j].kind == Unreachable
  {
    if checks[|checks| - 1].kind.Unreachable? {
      SupportMeans(checks[..|checks| - 1]);
    }
  }

  lemma {:induction false} SupportAppend(checks: seq<Check>, c: Check)
    ensures Support(checks + [c]) ==
            if c.kind.SignedValid? then Some(c) else if c.kind.Unreachable? then Support(checks) else None
  {
    assert (checks + [c])[..|checks|] == checks;
  }

  /** What stands behind a check that found a valid license, spelled out. */
  ghost predicate Genuine(c: Check, crypto: Crypto)
  {
    c.kind.SignedValid? ==>
      && c.kind.key != ""
      && crypto.verify(c.kind.claims, c.kind.signature)
      && c.kind.claims.keyHash == crypto.hash(c.kind.key)
      && c.kind.claims.valid && c.kind.claims.status in ["valid", ""]
      && c.kind.claims.iat - 60 <= c.end / 1000 <= c.kind.claims.exp
  }

  ghost predicate AllGenuine(checks: seq<Check>, crypto: Crypto)
  {
    forall i | 0 <= i < |checks| :: Genuine(checks[i], crypto)
  }

  lemma {:induction false} ChecksAreGenuine(s: State, events: seq<Event>, limits: Limits, crypto: Crypto)
    requires AllGenuine(s.checks, crypto)
    ensures AllGenuine(Run(s, events, limits, crypto).checks, crypto)
  {
    if events != [] {
      hide AllGenuine, Step;
      ChecksAreGenuine(s, events[..|events| - 1], limits, crypto);
      GenuineStep(Run(s, events[..|events| - 1], limits, crypto), events[|events| - 1], limits, crypto);
    }
  }

  lemma {:induction false} GenuineStep(s: State, e: Event, limits: Limits, crypto: Crypto)
    requires AllGenuine(s.checks, crypto)
    ensures AllGenuine(Step(s, e, limits, crypto).checks, crypto)
  {
  }

  ghost predicate Backed(s: State, limits: Limits)
  {
    && (s.lastOk.Some? ==> s.lastOk.value <= s.clock)
    && (s.inFlight.Some? ==> s.inFlight.value.startedAt <= s.clock)
    && (Support(s.checks).Some? && s.lastOk.Some? ==> Support(s.checks).value.end >= s.lastOk.value)
    && (s.lastValid == Some(true) ==> Support(s.checks).Some?)
    && (s.cached == Some(true) ==>
          Support(s.checks).Some? && Support(s.checks).value.end >= s.cachedAt - Max(0, limits.graceMs))
  }

  /** Only a signed valid reply, or an unreachable server within the grace of a valid past, gives a valid result. */
  lemma {:induction false} JudgeMeans(s: State, e: Event, limits: Limits, crypto: Crypto)
    requires e.Finish? && s.inFlight.Some?
    ensures var (kind, valid, lastOk) := Judge(s, e, limits, crypto);
            && (kind.SignedValid? ==> kind.key == s.inFlight.value.key != "")
            && (lastOk == s.lastOk || (kind.SignedValid? && lastOk == Some(s.clock)))
            && (valid ==> kind.SignedValid? || (kind == Unreachable && SoftPossible(s, limits)))
  {
    hide SaysValid;
  }

  /**
   Which replies make the panel valid: those with claims and a signature, for the key the check began
   with, neither expired nor more than a minute from the future, correctly signed, and saying valid.
   An empty status counts as "valid" when the reply succeeded.
   */
  lemma {:induction false} ValidReplyExactlyWhen(
    s: State, r: Response, lastOkReadable: bool, limits: Limits, crypto: Crypto)
    requires s.inFlight.Some? && s.inFlight.value.key != ""
    ensures var t := Step(s, Finish(Answered(r), true, lastOkReadable), limits, crypto);
            && t.inFlight == None && t.cached.Some? && t.lastValid == t.cached
            && (t.cached == Some(true) <==>
                && r.claims.Some? && r.signature.Some? && crypto.verify(r.claims.value, r.signature.value)
                && r.claims.value.keyHash == crypto.hash(s.inFlight.value.key)
                && r.claims.value.iat - 60 <= s.clock / 1000 <= r.claims.value.exp
                && r.claims.value.valid
                && (r.claims.value.status == "valid" || (r.claims.value.status == "" && r.ok)))
            && t.lastOk == (if t.cached == Some(true) then Some(s.clock) else s.lastOk)
            && t.checks == s.checks + [Check(if t.cached == Some(true)
                 then SignedValid(r.claims.value, r.signature.value, s.inFlight.value.key) else OtherInvalid, s.clock)]
            && t.enforced == s.enforced + (if s.lastValid == Some(true) && t.cached == Some(false) then 1 else 0)
  {
  }

  /** Without an answer the panel is valid exactly in the grace of an earlier valid result, with the marker readable. */
  lemma {:induction false} SoftValidExactlyWhen(
    s: State, marked: bool, lastOkReadable: bool, limits: Limits, crypto: Crypto)
    requires s.inFlight.Some?
    ensures var t := Step(s, Finish(Failed, marked, lastOkReadable), limits, crypto);
            && (t.cached == Some(true) <==>
                && s.inFlight.value.key != "" && s.inFlight.value.snapshot == Some(true) && s.lastValid == Some(true)
                && lastOkReadable && s.lastOk.Some? && s.clock - s.lastOk.value < limits.graceMs)
            && t.checks == s.checks + [Check(if s.inFlight.value.key == "" then OtherInvalid else Unreachable, s.clock)]
            && t.lastOk == s.lastOk
  {
  }

  /** When the marker of a reply that would be valid cannot be written, it counts only within the grace. */
  lemma {:induction false} UnmarkedReplyExactlyWhen(
    s: State, r: Response, lastOkReadable: bool, limits: Limits, crypto: Crypto)
    requires s.inFlight.Some? && s.inFlight.value.key != ""
    ensures var marked := Step(s, Finish(Answered(r), true, lastOkReadable), limits, crypto);
            var t := Step(s, Finish(Answered(r), false, lastOkReadable), limits, crypto);
            && (t.cached == Some(true) <==>
                && marked.cached == Some(true) && s.lastValid == Some(true)
                && lastOkReadable && s.lastOk.Some? && s.clock - s.lastOk.value < limits.graceMs)
            && t.checks == marked.checks && t.lastOk == s.lastOk
  {
    hide SaysValid;
  }

  /** The grace ends: a check begun after it is invalid without an answer, and the cached answer goes stale. */
  lemma {:induction false} GraceEnds(
    s: State, wait: nat, marked: bool, lastOkReadable: bool, limits: Limits, crypto: Crypto)
    requires s.inFlight.None?
    ensures var later := Step(s, Tick(s.clock + wait), limits, crypto);
            && (s.clock + wait - s.cachedAt >= limits.cacheMs ==> CachedAnswer(later, limits).None?)
            && (s.lastOk.Some? && s.clock + wait - s.lastOk.value >= limits.graceMs ==>
                  Step(Step(later, Begin, limits, crypto),
                       Finish(Failed, marked, lastOkReadable), limits, crypto).cached == Some(false))
  {
    hide SaysValid, Trim;
  }

  /** A restart drops the check under way: its end changes nothing, and the next one begins anew. */
  lemma {:induction false} RestartDropsCheck(
    s: State, reply: Reply, marked: bool, lastOkReadable: bool, limits: Limits, crypto: Crypto)
    ensures var t := Step(s, Restart, limits, crypto);
            && Step(t, Finish(reply, marked, lastOkReadable), limits, crypto) == t
            && CachedAnswer(t, limits).None? && t.key == s.key && t.lastOk == s.lastOk
            && Step(t, Begin, limits, crypto).inFlight == Some(InFlight(s.clock, None, s.key))
  {
    hide SaysValid, Trim;
  }

  lemma {:induction false} StepKeepsBacked(s: State, e: Event, limits: Limits, crypto: Crypto)
    requires Backed(s, limits)
    ensures Backed(Step(s, e, limits, crypto), limits)
    ensures e.Finish? && s.inFlight.Some? && Step(s, e, limits, crypto).cached == Some(true) ==>
              s.clock - Support(Step(s, e, limits, crypto).checks).value.end <= Max(0, limits.graceMs)
  {
    hide Judge, Support, Trim;
    if e.Finish? && s.inFlight.Some? {
      JudgeMeans(s, e, limits, crypto);
      SupportAppend(s.checks, Check(Judge(s, e, limits, crypto).0, s.clock));
    }
  }

  lemma {:induction false} RunKeepsBacked(
    key: string, lastOk: Option<int>, clock: int, events: seq<Event>, limits: Limits, crypto: Crypto)
    requires lastOk.Some? ==> lastOk.value <= clock
    ensures Backed(Run(Boot(key, lastOk, clock), events, limits, crypto), limits)
  {
    if events != [] {
      var front := events[..|events| - 1];
      RunKeepsBacked(key, lastOk, clock, front, limits, crypto);
      hide Step, Backed;
      StepKeepsBacked(Run(Boot(key, lastOk, clock), front, limits, crypto), events[|events| - 1], limits, crypto);
    }
  }

  /**
   In every run, across restarts, key changes and failed writes: a valid answer from the cache rests
   on a genuine signed check that ended less than grace plus cache interval ago, with only
   unreachable checks since.
   */
  lemma {:induction false} ValidAnswersAreBacked(
    key: string, lastOk: Option<int>, clock: int, events: seq<Event>, limits: Limits, crypto: Crypto)
    requires lastOk.Some? ==> lastOk.value <= clock
    ensures var s := Run(Boot(key, lastOk, clock), events, limits, crypto);
            CachedAnswer(s, limits) == Some(true) ==>
              exists i :: 0 <= i < |s.checks| && s.checks[i].kind.SignedValid? && Genuine(s.checks[i], crypto)
                && s.clock - s.checks[i].end < Max(0, limits.graceMs) + limits.cacheMs
                && forall j | i < j < |s.checks| :: s.checks[j].kind == Unreachable
  {
    var s := Run(Boot(key, lastOk, clock), events, limits, crypto);
    RunKeepsBacked(key, lastOk, clock, events, limits, crypto);
    ChecksAreGenuine(Boot(key, lastOk, clock), events, limits, crypto);
    if CachedAnswer(s, limits) == Some(true) {
      SupportMeans(s.checks);
    }
  }

  /** The answer a caller gets by waiting for a check obeys the grace alone. */
  lemma {:induction false} FinishedAnswersAreBacked(
    key: string, lastOk: Option<int>, clock: int, events: seq<Event>, e: Event, limits: Limits, crypto: Crypto)
    requires (lastOk.Some? ==> lastOk.value <= clock) && e.Finish?
    ensures var s := Run(Boot(key, lastOk, clock), events, limits, crypto);
            var t := Step(s, e, limits, crypto);
            s.inFlight.Some? && t.cached == Some(true) ==>
              exists i :: 0 <= i < |t.checks| && t.checks[i].kind.SignedValid? && Genuine(t.checks[i], crypto)
                && t.clock - t.checks[i].end <= Max(0, limits.graceMs)
                && forall j | i < j < |t.checks| :: t.checks[j].kind == Unreachable
  {
    var s := Run(Boot(key, lastOk, clock), events, limits, crypto);
    RunKeepsBacked(key, lastOk, clock, events, limits, crypto);
    ChecksAreGenuine(Boot(key, lastOk, clock), events, limits, crypto);
    StepKeepsBacked(s, e, limits, crypto);
    GenuineStep(s, e, limits, crypto);
    var t := Step(s, e, limits, crypto);
    if s.inFlight.Some? && t.cached == Some(true) {
      SupportMeans(t.checks);
    }
  }

  // ----- one enforcement per flip -----

  /** How often a valid result is directly followed by an invalid one; a restart forgets the former. */
  function Flips(validity: seq<Option<bool>>): nat
  {
    if |validity| < 2 then 0
    else
      var n := |validity|;
      Flips(validity[..n - 1]) + (if validity[n - 2] == Some(true) && validity[n - 1] == Some(false) then 1 else 0)
  }

  lemma {:induction false} OneEnforcementPerFlip(
    key: string, lastOk: Option<int>, clock: int, events: seq<Event>, limits: Limits, crypto: Crypto)
    ensures var s := Run(Boot(key, lastOk, clock), events, limits, crypto);
            && s.enforced == Flips(s.validity)
            && s.lastValid == (if s.validity == [] then None else s.validity[|s.validity| - 1])
  {
    if events != [] {
      var front := events[..|events| - 1];
      OneEnforcementPerFlip(key, lastOk, clock, front, limits, crypto);
      hide Step;
      FlipsStep(Run(Boot(key, lastOk, clock), front, limits, crypto), events[|events| - 1], limits, crypto);
    }
  }

  lemma {:induction false} FlipsAppend(validity: seq<Option<bool>>, v: Option<bool>)
    ensures Flips(validity + [v]) == Flips(validity) +
              (if validity != [] && validity[|validity| - 1] == Some(true) && v == Some(false) then 1 else 0)
  {
    assert (validity + [v])[..|validity|] == validity;
  }

  lemma {:induction false} FlipsStep(s: State, e: Event, limits: Limits, crypto: Crypto)
    requires s.enforced == Flips(s.validity)
    requires s.lastValid == (if s.validity == [] then None else s.validity[|s.validity| - 1])
    ensures var t := Step(s, e, limits, crypto);
            && t.enforced == Flips(t.validity)
            && t.lastValid == (if t.validity == [] then None else t.validity[|t.validity| - 1])
  {
    hide Judge, Flips, Trim;
    if e.Finish? && s.inFlight.Some? {
      FlipsAppend(s.validity, Some(Judge(s, e, limits, crypto).1));
    } else if e.Restart? {
      FlipsAppend(s.validity, None);
    }
  }

  // ----- changing the key: is a new signed check needed? -----

  /** The check under way would give a valid result now if the server could not be reached. */
  predicate SoftPossible(s: State, limits: Limits)
  {
    && s.inFlight.Some? && s.inFlight.value.key != "" && s.inFlight.value.snapshot == Some(true)
    && WithinGrace(s, limits)
  }

  predicate KeyChange(e: Event) { e.SetKey? || e.ClearKey? || e.Restart? }

  /** How many of the checks found a signed valid license. */
  function SignedChecks(checks: seq<Check>): nat
  {
    if checks == [] then 0
    else SignedChecks(checks[..|checks| - 1]) + (if checks[|checks| - 1].kind.SignedValid? then 1 else 0)
  }

  lemma {:induction false} SignedChecksAppend(checks: seq<Check>, c: Check)
    ensures SignedChecks(checks + [c]) == SignedChecks(checks) + (if c.kind.SignedValid? then 1 else 0)
  {
    assert (checks + [c])[..|checks|] == checks;
  }

  /** A valid state needs another signed check. */
  predicate Unsupported(s: State, limits: Limits) { s.cached != Some(true) && !SoftPossible(s, limits) }

  lemma {:induction false} UnsupportedStep(s: State, e: Event, limits: Limits, crypto: Crypto)
    ensures var t := Step(s, e, limits, crypto);
            && SignedChecks(t.checks) >= SignedChecks(s.checks)
            && (Unsupported(s, limits) && SignedChecks(t.checks) == SignedChecks(s.checks) ==> Unsupported(t, limits))
  {
    hide Judge, Trim;
    if e.Finish? && s.inFlight.Some? {
      JudgeMeans(s, e, limits, crypto);
      SignedChecksAppend(s.checks, Check(Judge(s, e, limits, crypto).0, s.clock));
    }
  }

  lemma {:induction false} UnsupportedRun(s: State, events: seq<Event>, limits: Limits, crypto: Crypto)
    requires Unsupported(s, limits)
    ensures var t := Run(s, events, limits, crypto);
            && SignedChecks(t.checks) >= SignedChecks(s.checks)
            && (SignedChecks(t.checks) == SignedChecks(s.checks) ==> Unsupported(t, limits))
  {
    if events != [] {
      var front := events[..|events| - 1];
      UnsupportedRun(s, front, limits, crypto);
      hide Step, SignedChecks, Unsupported;
      UnsupportedStep(Run(s, front, limits, crypto), events[|events| - 1], limits, crypto);
    }
  }

  /** From `s` on, the panel is valid only after another signed valid check. */
  ghost predicate NeedsSignedCheck(s: State, limits: Limits, crypto: Crypto)
  {
    forall events :: var t := Run(s, events, limits, crypto);
      t.cached == Some(true) ==> SignedChecks(t.checks) > SignedChecks(s.checks)
  }

  lemma {:induction false} RunOne(s: State, e: Event, limits: Limits, crypto: Crypto)
    ensures Run(s, [e], limits, crypto) == Step(s, e, limits, crypto)
  {
    assert [e][..0] == [];
    assert Run(s, [], limits, crypto) == s;
  }

  /**
   A key change or a restart starts from scratch exactly when no check under way could still fall
   back on the grace. A cleared key and a restart always do; a new key does unless a check that saw
   a valid state is under way within the grace.
   */
  lemma {:induction false} StartsFromScratchExactlyWhen(s: State, change: Event, limits: Limits, crypto: Crypto)
    requires KeyChange(change)
    ensures var t := Step(s, change, limits, crypto);
            && (NeedsSignedCheck(t, limits, crypto) <==> !SoftPossible(t, limits))
            && (change.ClearKey? || change.Restart? ==> !SoftPossible(t, limits))
            && (change.SetKey? && s.inFlight.None? && !change.checkBegins ==> !SoftPossible(t, limits))
  {
    hide Run, SignedChecks, Trim;
    var t := Step(s, change, limits, crypto);
    if SoftPossible(t, limits) {
      var fails := Finish(Failed, true, true);
      RunOne(t, fails, limits, crypto);
      SignedChecksAppend(t.checks, Check(Unreachable, t.clock));
      assert Run(t, [fails], limits, crypto).cached == Some(true);
    } else {
      forall events
        ensures var u := Run(t, events, limits, crypto);
                u.cached == Some(true) ==> SignedChecks(u.checks) > SignedChecks(t.checks)
      {
        UnsupportedRun(t, events, limits, crypto);
      }
    }
  }

  // ----- changing the key: whose signed check is it? -----

  /** A valid state rests on a signed check of the key the panel has now. */
  ghost predicate RestsOnKey(s: State)
  {
    s.cached == Some(true) ==> Support(s.checks).Some? && Support(s.checks).value.kind.key == s.key
  }

  /** A check of another key is under way. */
  predicate ForeignCheck(s: State)
  {
    s.inFlight.Some? && s.inFlight.value.key != "" && s.inFlight.value.key != s.key
  }

  /**
   A check under way can make the state valid for the wrong key: it checks another one, or it could
   fall back on the grace that another one has earned.
   */
  predicate Loose(s: State, limits: Limits)
  {
    || ForeignCheck(s)
    || (SoftPossible(s, limits) && Support(s.checks).Some? && Support(s.checks).value.kind.key != s.key)
  }

  ghost predicate Owned(s: State, limits: Limits)
  {
    RestsOnKey(s) && !Loose(s, limits) && (s.lastValid == Some(true) ==> Support(s.checks).Some?)
  }

  /** Every change of the key comes with no loose check under way. */
  ghost predicate ChangesAreClean(s: State, events: seq<Event>, limits: Limits, crypto: Crypto)
  {
    forall n | 0 <= n < |events| && KeyChange(events[n]) ::
      !Loose(Step(Run(s, events[..n], limits, crypto), events[n], limits, crypto), limits)
  }

  lemma {:induction false} OwnedStep(s: State, e: Event, limits: Limits, crypto: Crypto)
    requires Owned(s, limits)
    requires KeyChange(e) ==> !Loose(Step(s, e, limits, crypto), limits)
    ensures Owned(Step(s, e, limits, crypto), limits)
  {
    hide Judge, Support, Trim;
    if e.Finish? && s.inFlight.Some? {
      JudgeMeans(s, e, limits, crypto);
      SupportAppend(s.checks, Check(Judge(s, e, limits, crypto).0, s.clock));
    }
  }

  lemma {:induction false} OwnedRun(s: State, events: seq<Event>, limits: Limits, crypto: Crypto)
    requires Owned(s, limits) && ChangesAreClean(s, events, limits, crypto)
    ensures Owned(Run(s, events, limits, crypto), limits)
  {
    if events != [] {
      var m := |events| - 1;
      var front := events[..m];
      assert forall n | 0 <= n <= m :: front[..n] == events[..n];
      assert forall n | 0 <= n < m :: front[n] == events[n];
      hide Step, Owned, Loose;
      OwnedRun(s, front, limits, crypto);
      OwnedStep(Run(s, front, limits, crypto), events[m], limits, crypto);
    }
  }

  /**
   In every run whose key changes come with no loose check under way, a valid state rests on a
   signed check of the current key, and so there is none while there is no key.
   */
  lemma {:induction false} ValidMeansCurrentKey(
    key: string, lastOk: Option<int>, clock: int, events: seq<Event>, limits: Limits, crypto: Crypto)
    requires ChangesAreClean(Boot(key, lastOk, clock), events, limits, crypto)
    ensures var s := Run(Boot(key, lastOk, clock), events, limits, crypto);
            RestsOnKey(s) && (s.key == "" ==> s.cached != Some(true))
  {
    var s := Run(Boot(key, lastOk, clock), events, limits, crypto);
    OwnedRun(Boot(key, lastOk, clock), events, limits, crypto);
    ChecksAreGenuine(Boot(key, lastOk, clock), events, limits, crypto);
    if s.cached == Some(true) {
      SupportMeans(s.checks);
    }
  }

  /** From `s` on, every valid state rests on a signed check of the key the panel then has. */
  ghost predicate StaysWithKey(s: State, limits: Limits, crypto: Crypto)
  {
    forall events | ChangesAreClean(s, events, limits, crypto) :: RestsOnKey(Run(s, events, limits, crypto))
  }

  /**
   The condition is exact: after a key change or a restart every valid state rests on a signed check
   of the current key if and only if no loose check is under way at the change. `confirmation` is
   the reply with which the server would confirm the other key, when a check of one is under way.
   */
  lemma {:induction false} KeyChangeIsCleanExactlyWhen(
    s: State, change: Event, confirmation: Response, limits: Limits, crypto: Crypto)
    requires KeyChange(change) && Backed(s, limits)
    requires var t := Step(s, change, limits, crypto);
             ForeignCheck(t) ==> SaysValid(confirmation, t.inFlight.value.key, crypto, t.clock / 1000)
    ensures var t := Step(s, change, limits, crypto);
            && (StaysWithKey(t, limits, crypto) <==> !Loose(t, limits))
            && (s.inFlight.None? && !(change.SetKey? && change.checkBegins) ==> !Loose(t, limits))
  {
    hide Run, Trim, SaysValid;
    var t := Step(s, change, limits, crypto);
    if Loose(t, limits) {
      var e := Finish(if ForeignCheck(t) then Answered(confirmation) else Failed, true, true);
      RunOne(t, e, limits, crypto);
      SupportAppend(t.checks, Check(Judge(t, e, limits, crypto).0, t.clock));
      assert ChangesAreClean(t, [e], limits, crypto);
      assert !RestsOnKey(Run(t, [e], limits, crypto));
    } else {
      hide Step, Loose;
      forall events | ChangesAreClean(t, events, limits, crypto)
        ensures RestsOnKey(Run(t, events, limits, crypto))
      {
        OwnedRun(t, events, limits, crypto);
      }
    }
  }

  // ----- the failing runs, from the start -----

  lemma {:induction false} Extend(
    s: State, events: seq<Event>, e: Event, limits: Limits, crypto: Crypto, before: State, next: State)
    requires Run(s, events, limits, crypto) == before && Step(before, e, limits, crypto) == next
    ensures Run(s, events + [e], limits, crypto) == next
  {
    assert (events + [e])[..|events|] == events;
  }

  /** The state after one confirmed check of `key` at time `clock`. */
  function Confirmed(r: Response, key: string, clock: int): State
    requires r.claims.Some? && r.signature.Some?
  {
    State(key, Some(true), clock, Some(true), Some(clock), None, clock,
          [Check(SignedValid(r.claims.value, r.signature.value, key), clock)], [Some(true)], 0)
  }

  lemma {:induction false} ConfirmedIsReached(key: string, clock: int, r: Response, limits: Limits, crypto: Crypto)
      returns (events: seq<Event>)
    requires key != "" && SaysValid(r, key, crypto, clock / 1000)
    ensures Run(Boot(key, None, clock), events, limits, crypto) == Confirmed(r, key, clock)
  {
    var start := Boot(key, None, clock);
    var checking := start.(inFlight := Some(InFlight(clock, None, key)));
    var answer := Finish(Answered(r), true, true);
    assert Run(start, [], limits, crypto) == start;
    hide Run;
    Extend(start, [], Begin, limits, crypto, start, checking);
    hide SaysValid;
    Extend(start, [] + [Begin], answer, limits, crypto, checking, Confirmed(r, key, clock));
    events := [] + [Begin] + [answer];
  }

  /** A check of another key has left the panel valid, and no check of the present one was signed. */
  ghost predicate ValidByAnotherKey(t: State, key: string, limits: Limits)
  {
    && t.cached == Some(true) && (limits.cacheMs > 0 ==> CachedAnswer(t, limits) == Some(true))
    && key != t.key && forall c | c in t.checks && c.kind.SignedValid? :: c.kind.key == key
  }

  /** First failing input: a check of the old key is confirmed after the key was cleared or replaced. */
  lemma {:induction false} ConfirmationAfterChange(
    key: string, clock: int, change: Event, r: Response, limits: Limits, crypto: Crypto)
    requires key != "" && SaysValid(r, key, crypto, clock / 1000)
    requires change.ClearKey? || (change.SetKey? && Trim(change.key) != key)
    ensures exists events ::
              var t := Run(Boot(key, None, clock), events, limits, crypto);
              && t.key == (if change.ClearKey? then "" else Trim(change.key))
              && ValidByAnotherKey(t, key, limits)
  {
    hide Run, SaysValid, Trim;
    var start := Boot(key, None, clock);
    var checking := start.(inFlight := Some(InFlight(clock, None, key)));
    var changed := Step(checking, change, limits, crypto);
    var answer := Finish(Answered(r), true, true);
    RunNone(start, limits, crypto);
    Extend(start, [], Begin, limits, crypto, start, checking);
    Extend(start, [] + [Begin], change, limits, crypto, checking, changed);
    var t := Step(changed, answer, limits, crypto);
    Extend(start, [] + [Begin] + [change], answer, limits, crypto, changed, t);
    assert t == Run(start, [] + [Begin] + [change] + [answer], limits, crypto);
  }

  lemma {:induction false} RunNone(s: State, limits: Limits, crypto: Crypto)
    ensures Run(s, [], limits, crypto) == s
  {
  }

  lemma {:induction false} GraceCarriesOver(
    key: string, clock: int, newKey: string, during: bool, r: Response, limits: Limits, crypto: Crypto)
    requires key != "" && r.claims.Some? && r.signature.Some? && limits.graceMs > 0
    requires Trim(newKey) != key && (during ==> Trim(newKey) != "")
    ensures var valid := Confirmed(r, key, clock);
            var before := if during then valid else Step(valid, Begin, limits, crypto);
            var changed := Step(before, SetKey(newKey, during), limits, crypto);
            var t := Step(changed, Finish(Failed, true, true), limits, crypto);
            t.key == Trim(newKey) && ValidByAnotherKey(t, key, limits)
  {
    hide SaysValid, Trim;
  }

  /**
   Second failing input: the key is replaced while a check that saw a valid state is under way, or
   such a check begins during the change, and the server cannot be reached. The new key is valid and
   no check of it has ever been signed.
   */
  lemma {:induction false} GraceOfAnotherKey(
    key: string, clock: int, newKey: string, during: bool, r: Response, limits: Limits, crypto: Crypto)
    requires key != "" && SaysValid(r, key, crypto, clock / 1000) && limits.graceMs > 0
    requires Trim(newKey) != key && (during ==> Trim(newKey) != "")
    ensures exists events ::
              var t := Run(Boot(key, None, clock), events, limits, crypto);
              t.key == Trim(newKey) && ValidByAnotherKey(t, key, limits)
  {
    var events := ConfirmedIsReached(key, clock, r, limits, crypto);
    GraceCarriesOver(key, clock, newKey, during, r, limits, crypto);
    hide *;
    var start, s := Boot(key, None, clock), Confirmed(r, key, clock);
    if !during {
      Extend(start, events, Begin, limits, crypto, s, Step(s, Begin, limits, crypto));
      s, events := Step(s, Begin, limits, crypto), events + [Begin];
    }
    ChangeThenFail(start, events, s, SetKey(newKey, during), limits, crypto);
  }

  lemma {:induction false} ChangeThenFail(
    start: State, events: seq<Event>, s: State, change: Event, limits: Limits, crypto: Crypto)
    requires Run(start, events, limits, crypto) == s
    ensures exists longer ::
              Run(start, longer, limits, crypto)
              == Step(Step(s, change, limits, crypto), Finish(Failed, true, true), limits, crypto)
  {
    hide *;
    var fails, changed := Finish(Failed, true, true), Step(s, change, limits, crypto);
    Extend(start, events, change, limits, crypto, s, changed);
    Extend(start, events + [change], fails, limits, crypto, changed, Step(changed, fails, limits, crypto));
  }
}

/** The daemon's license gate (`license-gate.ts`): pushed tickets, freshness and the grace window. */
module LicenseGate {
  import opened JsText

  const UNLICENSED_MAX_SERVERS := 1
  const UNLICENSED_MAX_DISK_MB := 10_240
  const UNLICENSED_MAX_MEMORY_MB := 8192

  /** The claims the gate reads; `iat` and `exp` are in seconds. */
  datatype Claims = Claims(
    valid: bool, iat: int, exp: int, maxServers: Option<int>, maxMemoryMb: Option<int>,
    maxMemoryMbPerServer: Option<int>)

  type Signature = string

  /** Signature checking with the daemon's public key; false throughout when no key is available. */
  type Verifier = (Claims, Signature) -> bool

  /** A pushed body: anything malformed, a free ticket, or a licensed one whose parts may be missing. */
  datatype Push = Malformed | FreePush | LicensedPush(claims: Option<Claims>, signature: Option<Signature>)

  datatype Ticket = Free | Licensed(claims: Claims, signature: Signature)

  datatype Stored = Stored(ticket: Ticket, lastFreshAtMs: nat)

  datatype Reply = Rejected | AcceptedFree | AcceptedLicensed

  datatype Caps = Caps(
    licensed: bool, maxServers: Option<int>, maxDiskMb: Option<int>, maxMemoryMb: Option<int>,
    maxMemoryMbPerServer: Option<int>)

  const FREE_CAPS :=
    Caps(false, Some(UNLICENSED_MAX_SERVERS), Some(UNLICENSED_MAX_DISK_MB), Some(UNLICENSED_MAX_MEMORY_MB), None)

  predicate IsFreshLicensed(claims: Claims, nowSec: int)
  {
    claims.valid && claims.exp >= nowSec && claims.iat <= nowSec + 60
  }

  function LastFresh(stored: Option<Stored>): nat { if stored.Some? then stored.value.lastFreshAtMs else 0 }

  class Gate {
    var stored: Option<Stored>

    constructor ()
      ensures stored == None
    {
      stored := None;
    }

    /** `now` is the clock in milliseconds, read once per push. */
    method AcceptLicenseTicket(push: Push, verify: Verifier, now: nat) returns (reply: Reply)
      modifies this
      ensures stored == Accept(old(stored), push, verify, now)
      ensures reply == ReplyOf(old(stored), push, verify, now)
    {
      match push
      case Malformed => return Rejected;
      case FreePush =>
        stored := Some(Stored(Free, LastFresh(stored)));
        return AcceptedFree;
      case LicensedPush(claims, signature) =>
        if claims.None? || signature.None? {
          return Rejected;
        }
        if !verify(claims.value, signature.value) {
          return Rejected;
        }
        var isFresh := IsFreshLicensed(claims.value, now / 1000);
        if !isFresh && !(LastFresh(stored) != 0 && claims.value.valid) {
          if !claims.value.valid {
            stored := Some(Stored(Free, 0));
            return AcceptedFree;
          }
          return Rejected;
        }
        stored := Some(Stored(Licensed(claims.value, signature.value), if isFresh then now else LastFresh(stored)));
        return AcceptedLicensed;
    }

    method ResolveEffectiveCaps(verify: Verifier, now: nat, graceMs: nat) returns (caps: Caps)
      ensures caps == EffectiveCaps(stored, verify, now, graceMs)
    {
      if stored.None? || stored.value.ticket.Free? {
        return FREE_CAPS;
      }
      var claims, signature := stored.value.ticket.claims, stored.value.ticket.signature;
      if !verify(claims, signature) {
        return FREE_CAPS;
      }
      var isFresh := IsFreshLicensed(claims, now / 1000);
      var withinGrace := !isFresh && claims.valid && stored.value.lastFreshAtMs > 0
        && now - stored.value.lastFreshAtMs < graceMs;
      if !claims.valid || (!isFresh && !withinGrace) {
        return FREE_CAPS;
      }
      return Caps(true, claims.maxServers, None, claims.maxMemoryMb, claims.maxMemoryMbPerServer);
    }
  }

  // ----- the same steps on values -----

  /** A licensed push with both parts and a good signature. */
  predicate Genuine(push: Push, verify: Verifier)
  {
    push.LicensedPush? && push.claims.Some? && push.signature.Some? && verify(push.claims.value, push.signature.value)
  }

  function ReplyOf(stored: Option<Stored>, push: Push, verify: Verifier, now: nat): Reply
  {
    if push.FreePush? then AcceptedFree
    else if !Genuine(push, verify) then Rejected
    else if !push.claims.value.valid then AcceptedFree
    else if IsFreshLicensed(push.claims.value, now / 1000) || LastFresh(stored) > 0 then AcceptedLicensed
    else Rejected
  }

  function Accept(stored: Option<Stored>, push: Push, verify: Verifier, now: nat): Option<Stored>
  {
    if push.FreePush? then Some(Stored(Free, LastFresh(stored)))
    else if !Genuine(push, verify) then stored
    else
      var claims, signature := push.claims.value, push.signature.value;
      if IsFreshLicensed(claims, now / 1000) then Some(Stored(Licensed(claims, signature), now))
      else if !claims.valid then Some(Stored(Free, 0))
      else if LastFresh(stored) > 0 then Some(Stored(Licensed(claims, signature), LastFresh(stored)))
      else stored
  }

  function EffectiveCaps(stored: Option<Stored>, verify: Verifier, now: nat, graceMs: nat): Caps
  {
    if stored.Some? && stored.value.ticket.Licensed?
       && verify(stored.value.ticket.claims, stored.value.ticket.signature) && stored.value.ticket.claims.valid
       && (IsFreshLicensed(stored.value.ticket.claims, now / 1000)
           || (stored.value.lastFreshAtMs > 0 && now - stored.value.lastFreshAtMs < graceMs))
    then
      var claims := stored.value.ticket.claims;
      Caps(true, claims.maxServers, None, claims.maxMemoryMb, claims.maxMemoryMbPerServer)
    else FREE_CAPS
  }

  // ----- whole runs -----

  datatype Event = Event(push: Push, at: nat)

  function Run(events: seq<Event>, verify: Verifier): Option<Stored>
  {
    if events == [] then None
    else
      var n := |events| - 1;
      Accept(Run(events[..n], verify), events[n].push, verify, events[n].at)
  }

  /** A verified ticket that was fresh when it was pushed, at a time the gate can remember. */
  predicate FreshPush(e: Event, verify: Verifier)
  {
    Genuine(e.push, verify) && IsFreshLicensed(e.push.claims.value, e.at / 1000)
  }

  /** A verified ticket that says the license is not valid. */
  predicate RevokingPush(e: Event, verify: Verifier) { Genuine(e.push, verify) && !e.push.claims.value.valid }

  /** The last fresh push that no later push revoked. */
  ghost predicate LatestFresh(events: seq<Event>, i: int, verify: Verifier)
  {
    && 0 <= i < |events| && FreshPush(events[i], verify)
    && forall j | i < j < |events| :: !FreshPush(events[j], verify) && !RevokingPush(events[j], verify)
  }

  /**
   The remembered time is exactly that of the latest unrevoked fresh push: free tickets, stale
   tickets and bad ones neither extend nor end the grace window.
   */
  lemma {:induction false} GraceStartsAtFreshPush(events: seq<Event>, verify: Verifier)
    requires forall i | 0 <= i < |events| :: events[i].at > 0
    ensures var t := LastFresh(Run(events, verify));
            && (t > 0 ==> exists i :: LatestFresh(events, i, verify) && events[i].at == t)
            && (t == 0 ==> forall i :: !LatestFresh(events, i, verify))
  {
    if events != [] {
      var n := |events| - 1;
      var front, e := events[..n], events[n];
      GraceStartsAtFreshPush(front, verify);
      var before := LastFresh(Run(front, verify));
      if FreshPush(e, verify) {
        assert LatestFresh(events, n, verify);
      } else if RevokingPush(e, verify) {
      } else {
        forall i
          ensures LatestFresh(events, i, verify) <==> LatestFresh(front, i, verify)
        {
          assert forall j | 0 <= j < n :: front[j] == events[j];
        }
      }
    }
  }

  /** The ticket in force: the latest push that changed it. */
  ghost predicate StoredFrom(events: seq<Event>, i: int, verify: Verifier)
  {
    && 0 <= i < |events| && Genuine(events[i].push, verify)
    && Run(events, verify).Some?
    && Run(events, verify).value.ticket == Licensed(events[i].push.claims.value, events[i].push.signature.value)
  }

  /** The claims are in force at the time, spelled out; `at` is in milliseconds. */
  predicate InForce(claims: Claims, at: nat) { claims.valid && claims.iat - 60 <= at / 1000 <= claims.exp }

  /** The push carries claims that verify and are in force when it is made. */
  ghost predicate PushedInForce(e: Event, verify: Verifier)
  {
    && e.push.LicensedPush? && e.push.claims.Some? && e.push.signature.Some?
    && verify(e.push.claims.value, e.push.signature.value) && InForce(e.push.claims.value, e.at)
  }

  /** The push carries claims that verify and say the license is not valid. */
  ghost predicate PushedInvalid(e: Event, verify: Verifier)
  {
    && e.push.LicensedPush? && e.push.claims.Some? && e.push.signature.Some?
    && verify(e.push.claims.value, e.push.signature.value) && !e.push.claims.value.valid
  }

  /** A push in force less than the grace before `now` that nothing has revoked. */
  ghost predicate GraceAt(events: seq<Event>, verify: Verifier, now: nat, graceMs: nat)
  {
    exists j ::
      && 0 <= j < |events| && PushedInForce(events[j], verify) && now - events[j].at < graceMs
      && forall k | j < k < |events| :: !PushedInForce(events[k], verify) && !PushedInvalid(events[k], verify)
  }

  lemma {:induction false} FreshIsInForce(e: Event, verify: Verifier)
    ensures FreshPush(e, verify) <==> PushedInForce(e, verify)
    ensures RevokingPush(e, verify) <==> PushedInvalid(e, verify)
  {
  }

  lemma {:induction false} GraceIsRemembered(events: seq<Event>, verify: Verifier, now: nat, graceMs: nat)
    requires forall i | 0 <= i < |events| :: events[i].at > 0
    ensures var t := LastFresh(Run(events, verify));
            t > 0 && now - t < graceMs <==> GraceAt(events, verify, now, graceMs)
  {
    hide IsFreshLicensed, Genuine, FreshPush, RevokingPush, PushedInForce, PushedInvalid;
    GraceStartsAtFreshPush(events, verify);
    forall i | 0 <= i < |events|
      ensures FreshPush(events[i], verify) <==> PushedInForce(events[i], verify)
      ensures RevokingPush(events[i], verify) <==> PushedInvalid(events[i], verify)
    {
      FreshIsInForce(events[i], verify);
    }
    if GraceAt(events, verify, now, graceMs) {
      var j :| 0 <= j < |events| && PushedInForce(events[j], verify) && now - events[j].at < graceMs
               && forall k | j < k < |events| :: !PushedInForce(events[k], verify) && !PushedInvalid(events[k], verify);
      assert LatestFresh(events, j, verify);
      var i :| LatestFresh(events, i, verify) && events[i].at == LastFresh(Run(events, verify));
      assert i == j;
    }
  }

  /**
   Caps at time `now` are licensed exactly when the ticket in force verifies, is valid, and is itself
   in force at `now` or covered by an unrevoked push in force less than the grace ago; then they are
   the caps of its claims, and otherwise those of the free tier.
   */
  lemma {:induction false} LicensedExactlyWhen(events: seq<Event>, verify: Verifier, now: nat, graceMs: nat)
    requires forall i | 0 <= i < |events| :: events[i].at > 0
    ensures var s := Run(events, verify);
            var caps := EffectiveCaps(s, verify, now, graceMs);
            if s.Some? && s.value.ticket.Licensed? && verify(s.value.ticket.claims, s.value.ticket.signature)
               && s.value.ticket.claims.valid
               && (InForce(s.value.ticket.claims, now) || GraceAt(events, verify, now, graceMs))
            then
              var claims := s.value.ticket.claims;
              caps == Caps(true, claims.maxServers, None, claims.maxMemoryMb, claims.maxMemoryMbPerServer)
            else caps == Caps(false, Some(1), Some(10_240), Some(8192), None)
  {
    GraceIsRemembered(events, verify, now, graceMs);
    hide Run, GraceAt;
  }

  /** Which push is answered how, and which ticket it puts in force. */
  lemma {:induction false} AcceptedExactlyWhen(events: seq<Event>, push: Push, verify: Verifier, now: nat)
    requires forall i | 0 <= i < |events| :: events[i].at > 0
    ensures var s := Run(events, verify);
            var reply, t := ReplyOf(s, push, verify, now), Accept(s, push, verify, now);
            var verified := push.LicensedPush? && push.claims.Some? && push.signature.Some?
                            && verify(push.claims.value, push.signature.value);
            && (reply == AcceptedLicensed <==>
                verified && push.claims.value.valid
                && (InForce(push.claims.value, now) || exists g: nat :: GraceAt(events, verify, now, g)))
            && (reply == AcceptedFree <==> push.FreePush? || (verified && !push.claims.value.valid))
            && (reply == Rejected ==> t == s)
            && (reply == AcceptedLicensed ==>
                t.Some? && t.value.ticket == Licensed(push.claims.value, push.signature.value))
            && (reply == AcceptedFree ==> t.Some? && t.value.ticket == Free)
  {
    var last := LastFresh(Run(events, verify));
    GraceIsRemembered(events, verify, now, now + 1);
    forall g: nat | GraceAt(events, verify, now, g)
      ensures last > 0
    {
      GraceIsRemembered(events, verify, now, g);
    }
    hide Run, GraceAt;
  }

  /**
   Licensed caps at time `now` mean that some pushed ticket verifies, is valid and supplies the
   caps, and is in force at `now` or covered by an unrevoked push in force less than the grace ago.
   */
  lemma {:induction false} LicensedCapsAreEarned(events: seq<Event>, verify: Verifier, now: nat, graceMs: nat)
    requires forall i | 0 <= i < |events| :: events[i].at > 0
    ensures var caps := EffectiveCaps(Run(events, verify), verify, now, graceMs);
            caps.licensed ==>
              exists i :: StoredFrom(events, i, verify)
                && var claims := events[i].push.claims.value;
                   && claims.valid
                   && caps == Caps(true, claims.maxServers, None, claims.maxMemoryMb, claims.maxMemoryMbPerServer)
                   && (InForce(claims, now) || GraceAt(events, verify, now, graceMs))
  {
    LicensedExactlyWhen(events, verify, now, graceMs);
    LicensedIsPushed(events, verify);
    hide Run, GraceAt;
  }

  lemma {:induction false} LicensedIsPushed(events: seq<Event>, verify: Verifier)
    ensures Run(events, verify).Some? && Run(events, verify).value.ticket.Licensed? ==>
              exists i :: StoredFrom(events, i, verify)
  {
    if events != [] {
      var n := |events| - 1;
      LicensedIsPushed(events[..n], verify);
      var s := Run(events, verify);
      if s.Some? && s.value.ticket.Licensed? {
        if s == Run(events[..n], verify) {
          var i :| StoredFrom(events[..n], i, verify);
          assert StoredFrom(events, i, verify);
        } else {
          assert StoredFrom(events, n, verify);
        }
      }
    }
  }

  /** Conversely, a fresh push gives licensed caps at once, and for the whole grace with no other push. */
  lemma {:induction false} FreshPushLicenses(events: seq<Event>, e: Event, verify: Verifier, now: nat, graceMs: nat)
    requires FreshPush(e, verify) && 0 < e.at <= now < e.at + graceMs
    ensures EffectiveCaps(Run(events + [e], verify), verify, now, graceMs).licensed
  {
    assert (events + [e])[..|events|] == events;
  }

  /** After a revoking push no ticket but a fresh one brings licensed caps back. */
  lemma {:induction false} RevokedUntilFresh(events: seq<Event>, e: Event, later: seq<Event>, verify: Verifier,
      now: nat, graceMs: nat)
    requires RevokingPush(e, verify)
    requires forall i | 0 <= i < |later| :: !FreshPush(later[i], verify)
    ensures Run(events + [e] + later, verify).Some? && Run(events + [e] + later, verify).value == Stored(Free, 0)
    ensures EffectiveCaps(Run(events + [e] + later, verify), verify, now, graceMs) == FREE_CAPS
  {
    var all := events + [e] + later;
    if later == [] {
      assert all == events + [e];
      assert (events + [e])[..|events|] == events;
    } else {
      var m := |later| - 1;
      RevokedUntilFresh(events, e, later[..m], verify, now, graceMs);
      assert all[..|all| - 1] == events + [e] + later[..m];
    }
  }
}

/**
 Token revocation of pkg/auth/jwt/jwt.go on top of a memory cache that only the
 authenticator writes.  Signature checking is a parameter; what it yields does not depend
 on time.  A token is accepted by the parser while the clock is before its expiry (RFC
 7519, section 4.1.4) and not before its not-before time (section 4.1.5).  The clock
 readings that one call takes are kept apart.
 */
module JwtRevocation {
  import opened Prelude
  import opened MemoryCaches

  datatype Claims = Claims(expiresAt: Option<int>, notBefore: Option<int>, issuedAt: Option<int>)

  /** The claims of a token whose HMAC signature checks out under the secret key. */
  type Verifier = string -> Option<Claims>

  datatype AuthResult = Accepted | Invalid | Revoked | Panicked

  datatype RevokeResult = Revoking | ParseError | RevokePanicked

  predicate Parses(verify: Verifier, token: string, now: int) {
    verify(token).Some? &&
    var c := verify(token).value;
    (c.expiresAt.Some? ==> now < c.expiresAt.value) &&
    (c.notBefore.Some? ==> c.notBefore.value <= now)
  }

  function BlacklistKey(token: string): string {
    "jwt:blacklist:" + token
  }

  const TRUE_JSON := Json("true")

  function AuthOutcome(verify: Verifier, enabled: bool, list: Store, token: string,
                       parseAt: int, existsAt: int): AuthResult
  {
    if !Parses(verify, token, parseAt) then Invalid
    else if enabled && Live(list, BlacklistKey(token), existsAt) then Revoked
    else if verify(token).value.issuedAt.None? || verify(token).value.expiresAt.None? then Panicked
    else Accepted
  }

  function RevokeStep(verify: Verifier, enabled: bool, list: Store, token: string,
                      parseAt: int, untilAt: int, setAt: int): (Store, RevokeResult)
  {
    if !enabled then (list, Revoking)
    else if !Parses(verify, token, parseAt) then (list, ParseError)
    else if verify(token).value.expiresAt.None? then (list, RevokePanicked)
    else
      var ttl := verify(token).value.expiresAt.value - untilAt;
      if ttl <= 0 then (list, Revoking)
      else (Put(list, BlacklistKey(token), TRUE_JSON, ttl, setAt), Revoking)
  }

  class Authenticator {
    const verify: Verifier
    const blacklistEnabled: bool
    const blacklist: MemoryCache?

    ghost predicate Enabled() {
      blacklistEnabled && blacklist != null
    }

    ghost function List(): Store
      reads blacklist
    {
      if blacklist == null then map[] else blacklist.data
    }

    constructor (verify: Verifier, blacklistEnabled: bool, blacklist: MemoryCache?)
      ensures this.verify == verify && this.blacklist == blacklist
      ensures this.blacklistEnabled == blacklistEnabled
    {
      this.verify := verify;
      this.blacklistEnabled := blacklistEnabled;
      this.blacklist := blacklist;
    }

    method Authenticate(token: string, parseAt: int, existsAt: int) returns (r: AuthResult)
      ensures r == AuthOutcome(verify, Enabled(), List(), token, parseAt, existsAt)
    {
      if !Parses(verify, token, parseAt) {
        return Invalid;
      }
      if blacklistEnabled && blacklist != null {
        var exists_ := blacklist.Exists("jwt:blacklist:" + token, existsAt);
        if exists_ {
          return Revoked;
        }
      }
      var claims := verify(token).value;
      if claims.issuedAt.None? || claims.expiresAt.None? {
        return Panicked;
      }
      return Accepted;
    }

    method RevokeToken(token: string, parseAt: int, untilAt: int, setAt: int) returns (r: RevokeResult)
      modifies blacklist
      ensures (List(), r) == RevokeStep(verify, Enabled(), old(List()), token, parseAt, untilAt, setAt)
    {
      if !blacklistEnabled || blacklist == null {
        return Revoking;
      }
      if !Parses(verify, token, parseAt) {
        return ParseError;
      }
      var claims := verify(token).value;
      if claims.expiresAt.None? {
        return RevokePanicked;
      }
      var ttl := claims.expiresAt.value - untilAt;
      if ttl <= 0 {
        return Revoking;
      }
      var _ := blacklist.Set("jwt:blacklist:" + token, TRUE_JSON, ttl, setAt);
      return Revoking;
    }
  }

  // ---------------------------------------------------------------- one call

  /** A token parses when its signature checks out and the clock has reached its not-before
      time, if it has one, and not yet its expiry, if it has one. */
  lemma ParsesIff(verify: Verifier, token: string, now: int)
    ensures Parses(verify, token, now) <==>
            match verify(token)
            case None => false
            case Some(c) => (c.notBefore.None? || c.notBefore.value <= now) &&
                            (c.expiresAt.None? || now < c.expiresAt.value)
  {
  }

  /** RevokeToken does nothing without a blacklist; otherwise it fails on a token that does not
      parse, panics on one without an expiry, and else lists the token -- unless it has expired
      in the meantime -- for as long as was left of it. */
  lemma WhatRevokeDoes(verify: Verifier, list: Store, token: string, parseAt: int, untilAt: int, setAt: int)
    ensures RevokeStep(verify, false, list, token, parseAt, untilAt, setAt) == (list, Revoking)
    ensures var (next, r) := RevokeStep(verify, true, list, token, parseAt, untilAt, setAt);
            var key := "jwt:blacklist:" + token;
            if !Parses(verify, token, parseAt) then next == list && r == ParseError
            else if verify(token).value.expiresAt.None? then next == list && r == RevokePanicked
            else
              var expiry := verify(token).value.expiresAt.value;
              r == Revoking && if expiry <= untilAt then next == list
                               else key in next && next == list[key := next[key]] &&
                                    next[key].deadline == Some(setAt + (expiry - untilAt))
  {
  }

  /** Authenticate, on any list: what parses and is not alive in it passes, if it can say when
      it was issued and when it expires. */
  lemma WhatAuthenticateDoes(verify: Verifier, enabled: bool, list: Store, token: string, parseAt: int, existsAt: int)
    ensures var key := "jwt:blacklist:" + token;
            var listed := enabled && key in list && (list[key].deadline.None? || existsAt <= list[key].deadline.value);
            AuthOutcome(verify, enabled, list, token, parseAt, existsAt) ==
              if !Parses(verify, token, parseAt) then Invalid
              else if listed then Revoked
              else if verify(token).value.issuedAt.Some? && verify(token).value.expiresAt.Some? then Accepted
              else Panicked
  {
  }

  // ---------------------------------------------------------------- runs

  datatype Event =
    | Authenticate(token: string, parseAt: int, existsAt: int)
    | Revoke(token: string, parseAt: int, untilAt: int, setAt: int)
    | Cleanup(at: int)

  function Begins(e: Event): int {
    match e
    case Authenticate(_, p, _) => p
    case Revoke(_, p, _, _) => p
    case Cleanup(at) => at
  }

  function Ends(e: Event): int {
    match e
    case Authenticate(_, _, x) => x
    case Revoke(_, _, _, s) => s
    case Cleanup(at) => at
  }

  ghost predicate WellTimed(e: Event) {
    match e
    case Authenticate(_, p, x) => p <= x
    case Revoke(_, p, u, s) => p <= u <= s
    case Cleanup(_) => true
  }

  ghost predicate Chronological(from: int, es: seq<Event>)
    decreases |es|
  {
    es != [] ==> from <= Begins(es[0]) && WellTimed(es[0]) && Chronological(Ends(es[0]), es[1..])
  }

  function EventStep(verify: Verifier, enabled: bool, list: Store, e: Event): Store {
    match e
    case Authenticate(_, _, _) => list
    case Revoke(token, p, u, s) => RevokeStep(verify, enabled, list, token, p, u, s).0
    case Cleanup(at) => Swept(list, at)
  }

  function After(verify: Verifier, enabled: bool, list: Store, es: seq<Event>): Store
    decreases |es|
  {
    if es == [] then list else After(verify, enabled, EventStep(verify, enabled, list, es[0]), es[1..])
  }

  /** The run holds a call of RevokeToken for this token that reported no error. */
  ghost predicate HasRevoked(verify: Verifier, enabled: bool, list: Store, es: seq<Event>, token: string)
    decreases |es|
  {
    es != [] &&
    ((es[0].Revoke? && es[0].token == token &&
      RevokeStep(verify, enabled, list, token, es[0].parseAt, es[0].untilAt, es[0].setAt).1.Revoking?) ||
     HasRevoked(verify, enabled, EventStep(verify, enabled, list, es[0]), es[1..], token))
  }

  function EndOf(es: seq<Event>, from: int): int
    decreases |es|
  {
    if es == [] then from else EndOf(es[1..], Ends(es[0]))
  }

  /** Listed until its own expiry at least, or past its expiry already. */
  ghost predicate Barred(list: Store, token: string, expiry: int, now: int) {
    expiry <= now ||
    (BlacklistKey(token) in list &&
     list[BlacklistKey(token)].deadline.Some? && expiry <= list[BlacklistKey(token)].deadline.value)
  }

  lemma KeysDiffer(s: string, t: string)
    requires BlacklistKey(s) == BlacklistKey(t)
    ensures s == t
  {
    var n := |"jwt:blacklist:"|;
    assert BlacklistKey(s)[n..] == s && BlacklistKey(t)[n..] == t;
  }

  lemma RevokingBars(verify: Verifier, list: Store, token: string, p: int, u: int, s: int)
    requires p <= u <= s
    requires RevokeStep(verify, true, list, token, p, u, s).1.Revoking?
    ensures verify(token).Some? && verify(token).value.expiresAt.Some?
    ensures Barred(RevokeStep(verify, true, list, token, p, u, s).0, token,
                   verify(token).value.expiresAt.value, s)
  {
  }

  lemma BarredStep(verify: Verifier, list: Store, token: string, expiry: int, now: int, e: Event)
    requires verify(token).Some? && verify(token).value.expiresAt == Some(expiry)
    requires Barred(list, token, expiry, now) && now <= Begins(e) && WellTimed(e)
    ensures Barred(EventStep(verify, true, list, e), token, expiry, Ends(e))
  {
    if e.Revoke? && e.token != token && BlacklistKey(e.token) == BlacklistKey(token) {
      KeysDiffer(e.token, token);
    }
  }

  lemma {:induction false} BarredRun(verify: Verifier, list: Store, es: seq<Event>, token: string,
                                     expiry: int, from: int)
    requires verify(token).Some? && verify(token).value.expiresAt == Some(expiry)
    requires Barred(list, token, expiry, from) && Chronological(from, es)
    ensures Barred(After(verify, true, list, es), token, expiry, EndOf(es, from))
    decreases |es|
  {
    if es != [] {
      BarredStep(verify, list, token, expiry, from, es[0]);
      hide EventStep, Barred;
      BarredRun(verify, EventStep(verify, true, list, es[0]), es[1..], token, expiry, Ends(es[0]));
    }
  }

  lemma {:induction false} RevokedIsBarred(verify: Verifier, list: Store, es: seq<Event>, token: string,
                                           from: int)
    requires Chronological(from, es) && HasRevoked(verify, true, list, es, token)
    ensures verify(token).Some? && verify(token).value.expiresAt.Some?
    ensures Barred(After(verify, true, list, es), token, verify(token).value.expiresAt.value, EndOf(es, from))
    decreases |es|
  {
    var e := es[0];
    var next := EventStep(verify, true, list, e);
    if e.Revoke? && e.token == token &&
       RevokeStep(verify, true, list, token, e.parseAt, e.untilAt, e.setAt).1.Revoking? {
      RevokingBars(verify, list, token, e.parseAt, e.untilAt, e.setAt);
      BarredRun(verify, next, es[1..], token, verify(token).value.expiresAt.value, Ends(e));
    } else {
      RevokedIsBarred(verify, next, es[1..], token, Ends(e));
    }
  }

  /** When the last revocation of this token that was listed lapses.  A deadline is as far
      past the expiry as reading the clock again has taken. */
  function ListedUntil(verify: Verifier, es: seq<Event>, token: string): Option<int>
    decreases |es|
  {
    if es == [] then None
    else
      var e, later := es[0], ListedUntil(verify, es[1..], token);
      if later.Some? then later
      else if e.Revoke? && e.token == token && Parses(verify, token, e.parseAt) &&
              verify(token).value.expiresAt.Some? && e.untilAt < verify(token).value.expiresAt.value
      then Some(verify(token).value.expiresAt.value + (e.setAt - e.untilAt))
      else None
  }

  /** The list holds the token alive just as long as `until` says. */
  ghost predicate Lists(list: Store, token: string, until: Option<int>, now: int) {
    forall later :: now <= later ==>
      (Live(list, BlacklistKey(token), later) <==> until.Some? && later <= until.value)
  }

  lemma ListsStep(verify: Verifier, list: Store, token: string, until: Option<int>, now: int, e: Event)
    requires Lists(list, token, until, now) && now <= Begins(e) && WellTimed(e)
    ensures var one := ListedUntil(verify, [e], token);
            Lists(EventStep(verify, true, list, e), token, if one.Some? then one else until, Ends(e))
  {
    assert [e][1..] == [] && ListedUntil(verify, [], token) == None;
    var next, key := EventStep(verify, true, list, e), BlacklistKey(token);
    if e.Revoke? {
      if BlacklistKey(e.token) == key { KeysDiffer(e.token, token); }
      if e.token == token && ListedUntil(verify, [e], token).Some? {
        assert next == list[key := Item(TRUE_JSON, ListedUntil(verify, [e], token))];
      } else {
        assert key in next <==> key in list;
        assert key in list ==> next[key] == list[key];
        assert forall later :: Live(next, key, later) <==> Live(list, key, later);
      }
    } else {
      assert forall later :: Ends(e) <= later ==> (Live(next, key, later) <==> Live(list, key, later));
    }
  }

  lemma {:induction false} ListsRun(verify: Verifier, list: Store, token: string, until: Option<int>, from: int,
                                    es: seq<Event>)
    requires Lists(list, token, until, from) && Chronological(from, es)
    ensures var more := ListedUntil(verify, es, token);
            Lists(After(verify, true, list, es), token, if more.Some? then more else until, EndOf(es, from))
    decreases |es|
  {
    if es != [] {
      ListsStep(verify, list, token, until, from, es[0]);
      assert [es[0]][1..] == [];
      var one := ListedUntil(verify, [es[0]], token);
      hide EventStep, Lists, Live, Parses;
      ListsRun(verify, EventStep(verify, true, list, es[0]), token, if one.Some? then one else until,
               Ends(es[0]), es[1..]);
    }
  }

  predicate Complete(verify: Verifier, token: string) {
    verify(token).Some? && verify(token).value.issuedAt.Some? && verify(token).value.expiresAt.Some?
  }

  /** From an empty blacklist, whatever is revoked and swept: what Authenticate answers, on
      the two clock readings it takes, is determined by the token and by the revocations of
      this token alone. */
  lemma WhatAuthenticateAnswers(verify: Verifier, es: seq<Event>, token: string, from: int, parseAt: int, existsAt: int)
    requires Chronological(from, es) && EndOf(es, from) <= parseAt <= existsAt
    ensures var until := ListedUntil(verify, es, token);
            AuthOutcome(verify, true, After(verify, true, map[], es), token, parseAt, existsAt) ==
              if !Parses(verify, token, parseAt) then Invalid
              else if until.Some? && existsAt <= until.value then Revoked
              else if Complete(verify, token) then Accepted
              else Panicked
  {
    ListsRun(verify, map[], token, None, from, es);
  }

  lemma {:induction false} RevokedIsListed(verify: Verifier, list: Store, es: seq<Event>, token: string, from: int)
    requires Chronological(from, es) && HasRevoked(verify, true, list, es, token)
    ensures verify(token).Some? && verify(token).value.expiresAt.Some?
    ensures var expiry := verify(token).value.expiresAt.value;
            match ListedUntil(verify, es, token)
            case Some(until) => expiry <= until
            case None => expiry <= EndOf(es, from)
    decreases |es|
  {
    var e := es[0];
    EndsLast(es[1..], Ends(e));
    ListedLate(verify, es, token, from);
    if HasRevoked(verify, true, EventStep(verify, true, list, e), es[1..], token) {
      RevokedIsListed(verify, EventStep(verify, true, list, e), es[1..], token, Ends(e));
    }
  }

  lemma {:induction false} EndsLast(es: seq<Event>, from: int)
    requires Chronological(from, es)
    ensures from <= EndOf(es, from)
    decreases |es|
  {
    if es != [] { EndsLast(es[1..], Ends(es[0])); }
  }

  lemma {:induction false} ListedLate(verify: Verifier, es: seq<Event>, token: string, from: int)
    requires Chronological(from, es)
    ensures ListedUntil(verify, es, token).Some? ==>
              verify(token).Some? && verify(token).value.expiresAt.Some? &&
              verify(token).value.expiresAt.value <= ListedUntil(verify, es, token).value
    decreases |es|
  {
    if es != [] { ListedLate(verify, es[1..], token, Ends(es[0])); }
  }

  /** A revoked token gets past Authenticate if and only if it parses and is looked up after
      its entry has lapsed, which is never before its expiry: the two readings lie on either
      side of the expiry. */
  lemma RevokedPassesIff(verify: Verifier, es: seq<Event>, token: string, from: int, parseAt: int, existsAt: int)
    requires Chronological(from, es) && HasRevoked(verify, true, map[], es, token)
    requires EndOf(es, from) <= parseAt <= existsAt
    ensures AuthOutcome(verify, true, After(verify, true, map[], es), token, parseAt, existsAt) in {Accepted, Panicked}
            <==> Parses(verify, token, parseAt) && ListedUntil(verify, es, token).Some? &&
                 ListedUntil(verify, es, token).value < existsAt
    ensures Parses(verify, token, parseAt) ==>
              ListedUntil(verify, es, token).Some? && verify(token).value.expiresAt.Some? &&
              parseAt < verify(token).value.expiresAt.value <= ListedUntil(verify, es, token).value
  {
    WhatAuthenticateAnswers(verify, es, token, from, parseAt, existsAt);
    RevokedIsListed(verify, map[], es, token, from);
  }

  /** RevokeToken reads the clock once for the time that is left and for the deadline. */
  ghost predicate Prompt(es: seq<Event>) {
    forall e :: e in es && e.Revoke? ==> e.untilAt == e.setAt
  }

  lemma {:induction false} PromptlyListed(verify: Verifier, es: seq<Event>, token: string)
    requires Prompt(es) && ListedUntil(verify, es, token).Some?
    ensures verify(token).Some? && verify(token).value.expiresAt == ListedUntil(verify, es, token)
    decreases |es|
  {
    assert es[0] in es && forall e :: e in es[1..] ==> e in es;
    if ListedUntil(verify, es[1..], token).Some? { PromptlyListed(verify, es[1..], token); }
  }

  /** Then exactly the calls that straddle the expiry get past. */
  lemma StraddlingTheExpiry(verify: Verifier, es: seq<Event>, token: string, from: int, parseAt: int, existsAt: int)
    requires Chronological(from, es) && HasRevoked(verify, true, map[], es, token) && Prompt(es)
    requires EndOf(es, from) <= parseAt <= existsAt
    ensures verify(token).Some? && verify(token).value.expiresAt.Some?
    ensures AuthOutcome(verify, true, After(verify, true, map[], es), token, parseAt, existsAt) in {Accepted, Panicked}
            <==> Parses(verify, token, parseAt) && verify(token).value.expiresAt.value < existsAt
  {
    RevokedPassesIff(verify, es, token, from, parseAt, existsAt);
    RevokedIsListed(verify, map[], es, token, from);
    if ListedUntil(verify, es, token).Some? { PromptlyListed(verify, es, token); }
  }

  /** Once revoked, a token is never accepted again, whatever the list held before and
      whatever other revocations and sweeps follow, by a call that does not straddle the
      expiry. */
  lemma RevocationIsFinal(verify: Verifier, list: Store, es: seq<Event>, token: string, from: int,
                          parseAt: int, existsAt: int)
    requires Chronological(from, es) && HasRevoked(verify, true, list, es, token)
    requires EndOf(es, from) <= parseAt <= existsAt
    requires verify(token).Some? && verify(token).value.expiresAt.Some? ==>
               !(parseAt < verify(token).value.expiresAt.value < existsAt)
    ensures AuthOutcome(verify, true, After(verify, true, list, es), token, parseAt, existsAt)
              in {Invalid, Revoked}
  {
    RevokedIsBarred(verify, list, es, token, from);
  }

  /** Only tokens this run has revoked are listed. */
  lemma {:induction false} OnlyRevokedListed(verify: Verifier, list: Store, es: seq<Event>, token: string)
    requires !HasRevoked(verify, true, list, es, token)
    ensures ListedUntil(verify, es, token) == None
    decreases |es|
  {
    if es != [] { OnlyRevokedListed(verify, EventStep(verify, true, list, es[0]), es[1..], token); }
  }

  /** With one clock reading per call Authenticate accepts a token exactly when it parses,
      has not been revoked and says when it was issued and when it expires; it panics exactly
      when one of those two is missing. */
  lemma AcceptsIffNotRevoked(verify: Verifier, es: seq<Event>, token: string, from: int, now: int)
    requires Chronological(from, es) && EndOf(es, from) <= now
    ensures var outcome := AuthOutcome(verify, true, After(verify, true, map[], es), token, now, now);
            var passes := Parses(verify, token, now) && !HasRevoked(verify, true, map[], es, token);
            (outcome == Accepted <==> passes && Complete(verify, token)) &&
            (outcome == Panicked <==> passes && !Complete(verify, token))
  {
    WhatAuthenticateAnswers(verify, es, token, from, now, now);
    if HasRevoked(verify, true, map[], es, token) {
      RevokedPassesIff(verify, es, token, from, now, now);
    } else {
      OnlyRevokedListed(verify, map[], es, token);
    }
  }

  /** Without a blacklist RevokeToken reports success and revokes nothing. */
  lemma {:induction false} RevocationWithoutBlacklist(verify: Verifier, list: Store, es: seq<Event>,
                                                      token: string, now: int)
    ensures var outcome := AuthOutcome(verify, false, After(verify, false, list, es), token, now, now);
            (outcome == Accepted <==> Parses(verify, token, now) && Complete(verify, token)) &&
            (outcome == Panicked <==> Parses(verify, token, now) && !Complete(verify, token))
    ensures forall p, u, s :: RevokeStep(verify, false, list, token, p, u, s) == (list, Revoking)
  {
  }
}

/** Refresh-token rotation: one stored refresh token per user, deleted and set step by step. */
module Tokens {
  import opened Basics
  import opened Digits

  // times are nanoseconds
  const SECOND: int := 1_000_000_000
  const HOUR: int := 3600 * SECOND
  const ACCESS_DURATION: int := 12 * HOUR
  const REFRESH_DURATION: int := 7 * 24 * HOUR

  datatype TokenType = Access | Refresh | Unknown

  /** The claims of a token, with dates in whole seconds. */
  datatype Claims = Claims(user: nat, expiresAt: int, issuedAt: int)

  /** Signing and checking; signing is injective on its claims. */
  datatype Jwt = Jwt(sign: Claims -> string, parse: string -> Option<Claims>) {
    ghost predicate Lawful() { forall c :: parse(sign(c)) == Some(c) }
  }

  /** The clock readings of one issue: for the expiry, for the issue date, and when it is stored. */
  datatype Clock = Clock(expiry: int, issue: int, store: int) {
    predicate Ordered() { expiry <= issue <= store }
  }

  datatype Stored = Stored(token: string, expires: int)

  type Store = map<nat, Stored>

  function ClaimsAt(user: nat, c: Clock, duration: int): Claims {
    Claims(user, (c.expiry + duration) / SECOND, c.issue / SECOND)
  }

  // ----- what the calls do to the store

  datatype Event =
    | Issue(user: nat, clock: Clock, deleted: bool, stored: bool)
    | Revoke(user: nat, at: int, deleted: bool)

  /** Issuing deletes the stored token first; either command may fail. */
  function Step(jwt: Jwt, s: Store, e: Event): Store {
    match e
    case Issue(user, clock, deleted, stored) =>
      if !deleted then s
      else if !stored then s - {user}
      else s[user := Stored(TokenOf(jwt, e), clock.store + REFRESH_DURATION)]
    case Revoke(user, _, deleted) => if deleted then s - {user} else s
  }

  function TokenOf(jwt: Jwt, e: Event): string
    requires e.Issue?
  {
    jwt.sign(ClaimsAt(e.user, e.clock, REFRESH_DURATION))
  }

  /** The user a token is good for, if any. */
  function Verify(jwt: Jwt, s: Store, token: string, tokenType: TokenType, now: int): Option<nat> {
    match jwt.parse(token)
    case None => None
    case Some(claims) =>
      if now >= claims.expiresAt * SECOND then None
      else if !tokenType.Refresh? then Some(claims.user)
      else if claims.user !in s || now >= s[claims.user].expires then None
      else if s[claims.user].token != token then None
      else Some(claims.user)
  }

  datatype Issued = Token(value: string) | InvalidType | RevokeFailed | StoreFailed

  class TokenManager {
    var redis: Store
    const jwt: Jwt

    constructor (jwt: Jwt)
      ensures this.jwt == jwt && redis == map[]
    {
      this.jwt := jwt;
      redis := map[];
    }

    method RevokeToken(userID: nat, tokenType: TokenType, deletes: bool) returns (ok: bool)
      modifies this`redis
      ensures redis == if tokenType.Refresh? then Step(jwt, old(redis), Revoke(userID, 0, deletes)) else old(redis)
      ensures redis == if tokenType.Refresh? && deletes then old(redis) - {userID} else old(redis)
      ensures ok == (tokenType.Refresh? ==> deletes)
    {
      if tokenType != Refresh {
        return true;
      }
      if deletes {
        redis := redis - {userID};
      }
      return deletes;
    }

    method GenerateToken(userID: nat, tokenType: TokenType, clock: Clock, deletes: bool, stores: bool)
      returns (r: Issued)
      modifies this`redis
      ensures redis == if tokenType.Refresh? then Step(jwt, old(redis), Issue(userID, clock, deletes, stores))
                       else old(redis)
      ensures tokenType.Refresh? ==>
                r == if !deletes then RevokeFailed else if !stores then StoreFailed
                     else Token(TokenOf(jwt, Issue(userID, clock, deletes, stores)))
      ensures tokenType.Access? ==> r == Token(jwt.sign(ClaimsAt(userID, clock, ACCESS_DURATION)))
      ensures tokenType.Unknown? <==> r.InvalidType?
      // the same with the durations written out: twelve hours and seven days
      ensures tokenType.Access? ==>
                r == Token(jwt.sign(Claims(userID, (clock.expiry + 43_200_000_000_000) / 1_000_000_000,
                                           clock.issue / 1_000_000_000)))
      ensures tokenType.Refresh? && deletes && stores ==>
                && r == Token(jwt.sign(Claims(userID, (clock.expiry + 604_800_000_000_000) / 1_000_000_000,
                                              clock.issue / 1_000_000_000)))
                && redis == old(redis)[userID := Stored(r.value, clock.store + 604_800_000_000_000)]
      ensures tokenType.Refresh? && deletes && !stores ==> redis == old(redis) - {userID}
      ensures !tokenType.Refresh? || !deletes ==> redis == old(redis)
    {
      var duration;
      match tokenType {
        case Access => duration := ACCESS_DURATION;
        case Refresh =>
          duration := REFRESH_DURATION;
          var revoked := RevokeToken(userID, tokenType, deletes);
          if !revoked {
            return RevokeFailed;
          }
        case Unknown => return InvalidType;
      }
      var claims := Claims(userID, (clock.expiry + duration) / SECOND, clock.issue / SECOND);
      var tokenString := jwt.sign(claims);
      if tokenType == Refresh {
        if !stores {
          return StoreFailed;
        }
        redis := redis[userID := Stored(tokenString, clock.store + duration)];
      }
      return Token(tokenString);
    }

    /** An access token and then a refresh token; the pair fails when the refresh token does. */
    method GenerateTokenPair(userID: nat, access: Clock, refresh: Clock, deletes: bool, stores: bool)
      returns (accessToken: Issued, refreshToken: Issued)
      modifies this`redis
      ensures redis == Step(jwt, old(redis), Issue(userID, refresh, deletes, stores))
      ensures accessToken == Token(jwt.sign(ClaimsAt(userID, access, ACCESS_DURATION)))
      ensures accessToken == Token(jwt.sign(Claims(userID, (access.expiry + 43_200_000_000_000) / 1_000_000_000,
                                                   access.issue / 1_000_000_000)))
      ensures refreshToken.Token? <==> deletes && stores
      ensures refreshToken.Token? ==> refreshToken.value == redis[userID].token
    {
      accessToken := GenerateToken(userID, Access, access, deletes, stores);
      refreshToken := GenerateToken(userID, Refresh, refresh, deletes, stores);
    }

    /** The read of the store, which only a refresh verification needs, may fail. */
    method VerifyToken(token: string, tokenType: TokenType, now: int, answered: bool) returns (user: Option<nat>)
      ensures user == if tokenType.Refresh? && !answered then None else Verify(jwt, redis, token, tokenType, now)
    {
      var parsed := jwt.parse(token);
      if parsed.None? {
        return None;
      }
      var claims := parsed.value;
      if now >= claims.expiresAt * SECOND {
        return None;
      }
      if tokenType == Refresh {
        if !answered {
          return None;
        }
        if claims.user !in redis || now >= redis[claims.user].expires {
          return None;
        }
        var storedToken := redis[claims.user].token;
        if storedToken != token {
          return None;
        }
      }
      return Some(claims.user);
    }
  }

  // ----- runs

  function Run(jwt: Jwt, events: seq<Event>): Store {
    if events == [] then map[] else
      Step(jwt, Run(jwt, events[..|events| - 1]), events[|events| - 1])
  }

  function Begin(e: Event): int { if e.Issue? then e.clock.expiry else e.at }

  function End(e: Event): int { if e.Issue? then e.clock.store else e.at }

  /** The calls happen one after the other on a clock that never goes back. */
  ghost predicate Timely(events: seq<Event>) {
    && (forall e | e in events && e.Issue? :: e.clock.Ordered())
    && (forall i, j | 0 <= i < j < |events| :: End(events[i]) <= Begin(events[j]))
  }

  /** The call takes away whatever was stored for the user before. */
  predicate Clears(e: Event, user: nat) { e.user == user && e.deleted }

  /** Event i stored the user's token and nothing has taken it away since. */
  ghost predicate Current(events: seq<Event>, user: nat, i: nat) {
    && i < |events| && events[i].Issue? && Clears(events[i], user) && events[i].stored
    && forall j | i < j < |events| :: !Clears(events[j], user)
  }

  lemma {:induction false} StoreIsCurrent(jwt: Jwt, events: seq<Event>, user: nat)
    ensures user in Run(jwt, events) <==> exists i: nat :: Current(events, user, i)
    ensures forall i: nat | Current(events, user, i) ::
              user in Run(jwt, events) &&
              Run(jwt, events)[user] == Stored(TokenOf(jwt, events[i]), events[i].clock.store + REFRESH_DURATION)
    decreases |events|
  {
    if events != [] {
      var m := |events| - 1;
      StoreIsCurrent(jwt, events[..m], user);
      CurrentStep(events, user);
      if user in Run(jwt, events) {
        if Clears(events[m], user) {
          assert Current(events, user, m);
        } else {
          var i: nat :| Current(events[..m], user, i);
          assert Current(events, user, i);
        }
      }
    }
  }

  lemma CurrentStep(events: seq<Event>, user: nat)
    requires events != []
    ensures var m := |events| - 1;
            if Clears(events[m], user)
            then forall i: nat :: Current(events, user, i) <==> i == m && events[m].Issue? && events[m].stored
            else forall i: nat :: Current(events, user, i) <==> Current(events[..m], user, i)
  {
    var m := |events| - 1;
    assert forall j | 0 <= j < m :: events[..m][j] == events[j];
  }

  /** In every run a refresh verification succeeds exactly for the user's last stored token that is
      not revoked and not expired. */
  lemma {:induction false} RefreshVerifiesExactly(jwt: Jwt, events: seq<Event>, token: string, now: int, user: nat)
    requires jwt.Lawful() && Timely(events)
    ensures Verify(jwt, Run(jwt, events), token, Refresh, now) == Some(user) <==>
            exists i: nat ::
              && Current(events, user, i) && token == TokenOf(jwt, events[i])
              && now < (events[i].clock.expiry + 604_800_000_000_000) / 1_000_000_000 * 1_000_000_000
  {
    StoreIsCurrent(jwt, events, user);
    var s := Run(jwt, events);
    if user in s {
      var i: nat :| Current(events, user, i);
      VerifiesStored(jwt, s, events[i], token, now);
      hide Verify, TokenOf, ExpiryOf, Run;
      forall k: nat | Current(events, user, k) ensures k == i {
        assert Clears(events[k], user) && Clears(events[i], user);
      }
    }
  }

  /** Against the entry that an issue stored, its own token verifies and no other does. */
  lemma VerifiesStored(jwt: Jwt, s: Store, e: Event, token: string, now: int)
    requires jwt.Lawful() && e.Issue? && e.clock.Ordered() && e.user in s
    requires s[e.user] == Stored(TokenOf(jwt, e), e.clock.store + REFRESH_DURATION)
    ensures Verify(jwt, s, token, Refresh, now) == Some(e.user) <==> token == TokenOf(jwt, e) && now < ExpiryOf(e)
  {
    JwtExpiresFirst(e);
  }

  /** When the claims of a refresh token expire. */
  function ExpiryOf(e: Event): int
    requires e.Issue?
  {
    (e.clock.expiry + REFRESH_DURATION) / SECOND * SECOND
  }

  /** The stored entry outlives the claims. */
  lemma JwtExpiresFirst(e: Event)
    requires e.Issue? && e.clock.Ordered()
    ensures ExpiryOf(e) <= e.clock.store + REFRESH_DURATION
  {
    DivMod(SECOND, e.clock.expiry + REFRESH_DURATION);
  }

  /** A refresh token that was replaced by one issued in a later second never passes a refresh verification
      again, whatever happens after the replacement. */
  lemma {:induction false} RotatedNeverVerifies(jwt: Jwt, events: seq<Event>, i: nat, j: nat, now: int)
    requires jwt.Lawful() && Timely(events)
    requires i < j < |events| && events[i].Issue? && events[j].Issue? && events[i].user == events[j].user
    requires events[j].deleted && events[i].clock.issue / SECOND < events[j].clock.issue / SECOND
    ensures Verify(jwt, Run(jwt, events), TokenOf(jwt, events[i]), Refresh, now) == None
  {
    var token := TokenOf(jwt, events[i]);
    var v := Verify(jwt, Run(jwt, events), token, Refresh, now);
    if v.Some? {
      RefreshVerifiesExactly(jwt, events, token, now, v.value);
      var m: nat :| Current(events, v.value, m) && token == TokenOf(jwt, events[m]);
      SameTokenSameClaims(jwt, events[i], events[m]);
      assert Clears(events[j], v.value);
      assert m >= j;
      LaterSecond(events, j, m);
      assert false;
    }
  }

  /** Tokens carry no type, and only a refresh verification reads the store: a refresh token passes as an
      access token of its user until it expires, whether it is stored, replaced or revoked. */
  lemma PassesAsAccessExactly(jwt: Jwt, s: Store, e: Event, now: int)
    requires jwt.Lawful() && e.Issue?
    ensures Verify(jwt, s, TokenOf(jwt, e), Access, now) == Some(e.user) <==>
            now < (e.clock.expiry + 604_800_000_000_000) / 1_000_000_000 * 1_000_000_000
    ensures Verify(jwt, s, TokenOf(jwt, e), Access, now) in {None, Some(e.user)}
  {
    assert jwt.parse(TokenOf(jwt, e)) == Some(ClaimsAt(e.user, e.clock, REFRESH_DURATION));
  }

  /** Verification by claims and store: the claims name the user and are not over, and for a refresh the
      user's live entry is the token itself. */
  lemma VerifyExactly(jwt: Jwt, s: Store, token: string, tokenType: TokenType, now: int, user: nat)
    ensures Verify(jwt, s, token, tokenType, now) == Some(user) <==>
              && jwt.parse(token).Some? && jwt.parse(token).value.user == user
              && now < jwt.parse(token).value.expiresAt * 1_000_000_000
              && (tokenType == Refresh ==> user in s && s[user].token == token && now < s[user].expires)
  {
  }

  /** An access token that is issued for a user lets that user in, whatever is stored, exactly for twelve
      hours, up to the second. */
  lemma AccessVerifiesExactly(jwt: Jwt, s: Store, user: nat, c: Clock, now: int)
    requires jwt.Lawful()
    ensures var token := jwt.sign(ClaimsAt(user, c, ACCESS_DURATION));
            && (Verify(jwt, s, token, Access, now) == Some(user) <==>
                  now < (c.expiry + 43_200_000_000_000) / 1_000_000_000 * 1_000_000_000)
            && Verify(jwt, s, token, Access, now) in {None, Some(user)}
  {
    assert jwt.parse(jwt.sign(ClaimsAt(user, c, ACCESS_DURATION))) == Some(ClaimsAt(user, c, ACCESS_DURATION));
  }

  /** A refresh token lets its user in, if it is stored, exactly for seven days, up to the second. */
  lemma RefreshExpiry(e: Event)
    requires e.Issue?
    ensures ExpiryOf(e) == (e.clock.expiry + 604_800_000_000_000) / 1_000_000_000 * 1_000_000_000
  {
  }

  lemma SameTokenSameClaims(jwt: Jwt, a: Event, b: Event)
    requires jwt.Lawful() && a.Issue? && b.Issue?
    ensures TokenOf(jwt, a) == TokenOf(jwt, b) <==>
            ClaimsAt(a.user, a.clock, REFRESH_DURATION) == ClaimsAt(b.user, b.clock, REFRESH_DURATION)
  {
    assert jwt.parse(TokenOf(jwt, a)) == Some(ClaimsAt(a.user, a.clock, REFRESH_DURATION));
    assert jwt.parse(TokenOf(jwt, b)) == Some(ClaimsAt(b.user, b.clock, REFRESH_DURATION));
  }

  lemma LaterSecond(events: seq<Event>, j: nat, m: nat)
    requires Timely(events) && j <= m < |events| && events[j].Issue? && events[m].Issue?
    ensures events[j].clock.issue / SECOND <= events[m].clock.issue / SECOND
  {
    if j < m {
      assert events[j].clock.Ordered() && events[m].clock.Ordered();
      DivMod(SECOND, events[j].clock.issue);
      DivMod(SECOND, events[m].clock.issue);
    }
  }

  /** A replaced token still verifies exactly while its replacement carries the same dates, that is,
      when both were issued within the same seconds, until they expire. */
  lemma ReplacedVerifiesExactly(jwt: Jwt, events: seq<Event>, i: nat, j: nat, now: int)
    requires jwt.Lawful() && Timely(events)
    requires i < |events| && events[i].Issue? && Current(events, events[i].user, j)
    ensures Verify(jwt, Run(jwt, events), TokenOf(jwt, events[i]), Refresh, now) == Some(events[i].user) <==>
              && events[i].clock.issue / SECOND == events[j].clock.issue / SECOND
              && ExpiryOf(events[i]) == ExpiryOf(events[j])
              && now < ExpiryOf(events[j])
  {
    var token, user := TokenOf(jwt, events[i]), events[i].user;
    SameDates(jwt, events[i], events[j]);
    RefreshExpiry(events[j]);
    assert forall k: nat | Current(events, user, k) :: k == j by {
      forall k: nat | Current(events, user, k) ensures k == j {
        assert Clears(events[k], user) && Clears(events[j], user);
      }
    }
    assert events[j].Issue? && events[j].user == user;
    hide *;
    RefreshVerifiesExactly(jwt, events, token, now, user);
  }

  /** Two refresh tokens of a user are the same exactly when both dates are. */
  lemma SameDates(jwt: Jwt, a: Event, b: Event)
    requires jwt.Lawful() && a.Issue? && b.Issue? && a.user == b.user
    ensures TokenOf(jwt, a) == TokenOf(jwt, b) <==>
            a.clock.issue / SECOND == b.clock.issue / SECOND && ExpiryOf(a) == ExpiryOf(b)
  {
    SameTokenSameClaims(jwt, a, b);
    hide TokenOf;
  }

  /** Two issues in one second: rotation leaves the old token valid. */
  lemma SameSecondSurvives(jwt: Jwt)
    requires jwt.Lawful()
    ensures var a := Issue(1, Clock(0, 1, 2), true, true);
            var b := Issue(1, Clock(3, 4, 5), true, true);
            Timely([a, b]) && Verify(jwt, Run(jwt, [a, b]), TokenOf(jwt, a), Refresh, 6) == Some(1)
  {
    var a := Issue(1, Clock(0, 1, 2), true, true);
    var b := Issue(1, Clock(3, 4, 5), true, true);
    assert Current([a, b], 1, 1);
    ReplacedVerifiesExactly(jwt, [a, b], 0, 1, 6);
  }

  /** An access token never passes for a refresh token, as long as no issue takes a day. */
  lemma {:induction false} AccessIsNotRefresh(jwt: Jwt, events: seq<Event>, user: nat, clock: Clock, now: int)
    requires jwt.Lawful() && Timely(events) && clock.Ordered()
    requires forall e | e in events && e.Issue? :: e.clock.issue - e.clock.expiry <= 24 * HOUR
    ensures Verify(jwt, Run(jwt, events), jwt.sign(ClaimsAt(user, clock, ACCESS_DURATION)), Refresh, now) == None
  {
    var token := jwt.sign(ClaimsAt(user, clock, ACCESS_DURATION));
    var v := Verify(jwt, Run(jwt, events), token, Refresh, now);
    if v.Some? {
      RefreshVerifiesExactly(jwt, events, token, now, v.value);
      var i: nat :| Current(events, v.value, i) && token == TokenOf(jwt, events[i]);
      var e := events[i];
      assert jwt.parse(token) == Some(ClaimsAt(e.user, e.clock, REFRESH_DURATION));
      assert ClaimsAt(e.user, e.clock, REFRESH_DURATION) == ClaimsAt(user, clock, ACCESS_DURATION);
      LifetimesDiffer(e.clock, clock);
      assert false;
    }
  }

  lemma LifetimesDiffer(refresh: Clock, access: Clock)
    requires refresh.Ordered() && access.Ordered() && refresh.issue - refresh.expiry <= 24 * HOUR
    requires refresh.issue / SECOND == access.issue / SECOND
    ensures (refresh.expiry + REFRESH_DURATION) / SECOND > (access.expiry + ACCESS_DURATION) / SECOND
  {
    DivMod(SECOND, refresh.expiry + REFRESH_DURATION);
    DivMod(SECOND, access.expiry + ACCESS_DURATION);
    DivMod(SECOND, refresh.issue);
    DivMod(SECOND, access.issue);
  }
}

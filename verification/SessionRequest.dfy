// One request's view of sessions: the context keys and response cookies that starting, continuing and
// ending a session leave behind.
module SessionRequest {
  import opened Wrappers
  import opened SessionStore

  datatype Error = NoCookie | InvalidJWT | SessionInvalidated | MissingValues | Failure(what: string)

  /** A request cookie: absent (or empty), not a signed token of ours, or a token. */
  datatype Cookie<+Token> = Absent | Forged | Signed(token: Token)

  /** A response cookie: left alone, deleted, or set. */
  datatype SetCookie<+Token> = Untouched | Cleared | Set(token: Token)

  /** The shared session table and forced-refresh cache, and the clock. */
  class Backend {
    var now: nat
    var rows: Rows
    var cache: Cache
    const cfg: Config

    constructor (cfg: Config)
      ensures rows == map[] && cache == map[] && now == 0 && this.cfg == cfg
    {
      this.cfg := cfg;
      now, rows, cache := 0, map[], map[];
    }
  }

  /** What the environment decides during a request: generated ids, role lookup, and which calls fail. */
  datatype Env = Env(
    newSession: ID,
    newRefresh: ID,
    roles: Result<seq<Role>, Error>,
    refreshSigning: Option<Error>,
    authSigning: Option<Error>,
    upsert: Option<Error>,
    cacheReadable: bool,
    invalidates: bool,
    forces: bool)
  {
    /** The first call of token issuing that fails, before the row is looked at. */
    function IssueFailure(): Option<Error> {
      if refreshSigning.Some? then refreshSigning
      else if roles.Err? then Some(roles.error)
      else if authSigning.Some? then authSigning
      else upsert
    }
  }

  class Request {
    const authCookie: Cookie<AuthToken>
    const refreshCookie: Cookie<RefreshToken>

    var userID: ID
    var sessionID: ID
    var authError: Option<Error>
    var authed: bool
    var roles: seq<Role>
    var setAuth: SetCookie<AuthToken>
    var setRefresh: SetCookie<RefreshToken>

    constructor (authCookie: Cookie<AuthToken>, refreshCookie: Cookie<RefreshToken>)
      ensures this.authCookie == authCookie && this.refreshCookie == refreshCookie
      ensures CookiesUntouched() && !authed
    {
      this.authCookie, this.refreshCookie := authCookie, refreshCookie;
      userID, sessionID, authError, authed, roles := "", "", None, false, [];
      setAuth, setRefresh := Untouched, Untouched;
    }

    predicate CookiesUntouched()
      reads this
    {
      setAuth == Untouched && setRefresh == Untouched
    }

    predicate CookiesCleared()
      reads this
    {
      setAuth == Cleared && setRefresh == Cleared
    }

    /** The request acts for this session, without an error. */
    predicate AuthenticatedAs(user: ID, session: ID)
      reads this
    {
      authed && userID == user && sessionID == session && authError == None
    }

    /** The request acts for nobody, for this reason. */
    predicate Unauthenticated(err: Error)
      reads this
    {
      !authed && userID == "" && sessionID == "" && authError == Some(err) && roles == []
    }

    method ClearSessionState(err: Error)
      modifies this`userID, this`sessionID, this`authError, this`authed, this`roles
      ensures Unauthenticated(err)
    {
      userID, sessionID, authError, authed, roles := "", "", Some(err), false, [];
    }

    method ClearSessionCookies()
      modifies this`setAuth, this`setRefresh
      ensures CookiesCleared()
    {
      setAuth, setRefresh := Cleared, Cleared;
    }

    /** Sets the context to a session, or, when an id is missing, to an error with cleared cookies. */
    method SetSessionState(user: ID, session: ID, newRoles: seq<Role>)
      modifies this
      ensures user != "" && session != "" ==>
                && AuthenticatedAs(user, session) && roles == newRoles
                && setAuth == old(setAuth) && setRefresh == old(setRefresh)
      ensures !(user != "" && session != "") ==> Unauthenticated(MissingValues) && CookiesCleared()
    {
      if user == "" || session == "" {
        ClearSessionState(MissingValues);
        ClearSessionCookies();
        return;
      }
      userID, sessionID, authError, authed, roles := user, session, None, true, newRoles;
    }

    /** Generates both tokens, upserts the session row and, if the row is valid, hands the tokens out.
        On an error neither the context nor the cookies change. */
    method IssueSessionTokens(backend: Backend, user: ID, session: ID, parent: ID, env: Env)
      returns (err: Option<Error>)
      modifies this, backend`rows
      ensures backend.rows == if env.IssueFailure().Some? then old(backend.rows)
                              else Upsert(old(backend.rows), session, user, env.newRefresh)
      ensures err == (if env.IssueFailure().Some? then env.IssueFailure()
                      else if backend.rows[session].invalidated then Some(SessionInvalidated)
                      else None)
      ensures env.refreshSigning.Some? ==> err == env.refreshSigning
      ensures env.refreshSigning == None && env.roles.Err? ==> err == Some(env.roles.error)
      ensures env.refreshSigning == None && env.roles.Ok? && env.authSigning.Some? ==> err == env.authSigning
      ensures env.refreshSigning == None && env.roles.Ok? && env.authSigning == None && env.upsert.Some? ==>
                err == env.upsert
      ensures err.Some? ==>
                && userID == old(userID) && sessionID == old(sessionID) && authError == old(authError)
                && authed == old(authed) && roles == old(roles)
                && setAuth == old(setAuth) && setRefresh == old(setRefresh)
      ensures err == None ==>
                && env.roles.Ok?
                && setAuth == Set(NewAuthToken(backend.cfg, user, session, parent, env.roles.value, backend.now))
                && setRefresh == Set(NewRefreshToken(backend.cfg, env.newRefresh, parent, user, session, backend.now))
      ensures err == None && user != "" && session != "" ==> AuthenticatedAs(user, session) && env.roles == Ok(roles)
      ensures err == None && !(user != "" && session != "") ==> Unauthenticated(MissingValues)
    {
      if env.refreshSigning.Some? {
        return env.refreshSigning;
      }
      var rt := NewRefreshToken(backend.cfg, env.newRefresh, parent, user, session, backend.now);
      if env.roles.Err? {
        return Some(env.roles.error);
      }
      if env.authSigning.Some? {
        return env.authSigning;
      }
      var at := NewAuthToken(backend.cfg, user, session, parent, env.roles.value, backend.now);
      if env.upsert.Some? {
        return env.upsert;
      }
      backend.rows := Upsert(backend.rows, session, user, env.newRefresh);
      if backend.rows[session].invalidated {
        return Some(SessionInvalidated);
      }
      SetSessionState(user, session, env.roles.value);
      setAuth, setRefresh := Set(at), Set(rt);
      err := None;
    }

    method StartSession(backend: Backend, user: ID, env: Env) returns (err: Option<Error>)
      modifies this, backend`rows
      ensures err.Some? ==> Unauthenticated(err.value) && CookiesCleared()
      ensures err == None && user != "" && env.newSession != "" ==>
                AuthenticatedAs(user, env.newSession) && setRefresh.Set? && setRefresh.token.parent == ""
      ensures err == None && !(user != "" && env.newSession != "") ==> Unauthenticated(MissingValues)
      ensures env.newSession !in old(backend.rows) ==> err == env.IssueFailure()
    {
      err := IssueSessionTokens(backend, user, env.newSession, "", env);
      if err.Some? {
        ClearSessionState(err.value);
        ClearSessionCookies();
      }
    }

    function ParseAuth(now: nat): Result<AuthToken, Error> {
      match authCookie
      case Absent => Err(NoCookie)
      case Forged => Err(InvalidJWT)
      case Signed(t) => if Accepted(t.issuedAt, t.expiresAt, now) then Ok(t) else Err(InvalidJWT)
    }

    function ParseRefresh(now: nat): Result<RefreshToken, Error> {
      match refreshCookie
      case Absent => Err(NoCookie)
      case Forged => Err(InvalidJWT)
      case Signed(t) => if Accepted(t.issuedAt, t.expiresAt, now) then Ok(t) else Err(InvalidJWT)
    }

    /** The auth cookie is good enough to go without the database. */
    predicate TakesFastPath(now: nat, cache: Cache, env: Env) {
      && ParseAuth(now).Ok?
      && ParseAuth(now).value.session != ""
      && env.cacheReadable
      && !MustRefresh(cache, ParseAuth(now).value.user, ParseAuth(now).value.issuedAt, now)
    }

    /** The cookies of the request carry tokens with non-empty ids, as every issued token does. */
    predicate CookiesNameSessions() {
      && (authCookie.Signed? ==> authCookie.token.user != "" && authCookie.token.session != "")
      && (refreshCookie.Signed? ==> refreshCookie.token.user != "" && refreshCookie.token.session != "")
    }

    /** Neither id of the session that the request would continue, or start, is missing. */
    predicate NamesItsSession(now: nat, cache: Cache, env: Env) {
      if ParseAuth(now).Ok? && ParseAuth(now).value.session == "" then
        ParseAuth(now).value.user != "" && env.newSession != ""
      else if TakesFastPath(now, cache, env) then ParseAuth(now).value.user != ""
      else ParseRefresh(now).Ok? ==> ParseRefresh(now).value.user != "" && ParseRefresh(now).value.session != ""
    }

    /** There is no auth token, or it is not ours or not valid at this time. */
    predicate NoAuthToken(now: nat) {
      authCookie.Signed? ==> now < authCookie.token.issuedAt * SECOND || authCookie.token.expiresAt * SECOND <= now
    }

    predicate NoRefreshToken(now: nat) {
      refreshCookie.Signed? ==>
        now < refreshCookie.token.issuedAt * SECOND || refreshCookie.token.expiresAt * SECOND <= now
    }

    method ContinueSession(backend: Backend, env: Env) returns (err: Option<Error>)
      modifies this, backend`rows
      // Expired tokens are worth nothing.
      ensures NoAuthToken(backend.now) && NoRefreshToken(backend.now) ==>
                && err == Some(if refreshCookie.Absent? then NoCookie else InvalidJWT)
                && Unauthenticated(err.value) && backend.rows == old(backend.rows)
                && (if authCookie.Absent? && refreshCookie.Absent?
                    then setAuth == old(setAuth) && setRefresh == old(setRefresh) else CookiesCleared())
      // Without an auth token, only an upsert for the refresh token's session authenticates.
      ensures NoAuthToken(backend.now) && err == None ==>
                && !NoRefreshToken(backend.now) && env.IssueFailure() == None
                && var rt := refreshCookie.token;
                   && backend.rows == Upsert(old(backend.rows), rt.session, rt.user, env.newRefresh)
                   && (rt.session in old(backend.rows) ==> !old(backend.rows)[rt.session].invalidated)
                   && (rt.user != "" && rt.session != "" ==>
                         AuthenticatedAs(rt.user, rt.session) && env.roles == Ok(roles))
                   && setAuth
                      == Set(NewAuthToken(backend.cfg, rt.user, rt.session, rt.id, env.roles.value, backend.now))
                   && setRefresh
                      == Set(NewRefreshToken(backend.cfg, env.newRefresh, rt.id, rt.user, rt.session, backend.now))
      // A valid auth token that is not forced to refresh is all it takes, and its roles are taken over.
      ensures authCookie.Signed? && !NoAuthToken(backend.now)
              && authCookie.token.user != "" && authCookie.token.session != ""
              && env.cacheReadable && (authCookie.token.user in backend.cache ==>
                   || backend.cache[authCookie.token.user].expireAt * SECOND <= backend.now
                   || backend.cache[authCookie.token.user].value <= authCookie.token.issuedAt) ==>
                && err == None && AuthenticatedAs(authCookie.token.user, authCookie.token.session)
                && roles == authCookie.token.roles && backend.rows == old(backend.rows)
                && setAuth == old(setAuth) && setRefresh == old(setRefresh)
      // An error leaves the context unauthenticated with that error. Success authenticates it if and only
      // if the session has both ids, as every issued token does.
      ensures err.Some? ==> Unauthenticated(err.value)
      ensures err == None && NamesItsSession(backend.now, backend.cache, env) ==>
                authed && userID != "" && sessionID != "" && authError == None
      ensures err == None && !NamesItsSession(backend.now, backend.cache, env) ==> Unauthenticated(MissingValues)
      ensures CookiesNameSessions() ==> NamesItsSession(backend.now, backend.cache, env)
      // The fast path touches nothing but the context.
      ensures TakesFastPath(backend.now, backend.cache, env) ==>
                && err == None && backend.rows == old(backend.rows)
                && (CookiesNameSessions() ==>
                      AuthenticatedAs(authCookie.token.user, authCookie.token.session)
                      && setAuth == old(setAuth) && setRefresh == old(setRefresh))
      ensures CookiesNameSessions() && !TakesFastPath(backend.now, backend.cache, env) && ParseRefresh(backend.now).Ok?
              && env.IssueFailure() == None ==>
                var rt := refreshCookie.token;
                backend.rows == Upsert(old(backend.rows), rt.session, rt.user, env.newRefresh)
      // Without it, only a valid refresh token of a session that is not invalidated authenticates.
      ensures CookiesNameSessions() && !TakesFastPath(backend.now, backend.cache, env) && err == None ==>
                && ParseRefresh(backend.now).Ok?
                && AuthenticatedAs(refreshCookie.token.user, refreshCookie.token.session)
                && refreshCookie.token.session in backend.rows
                && !backend.rows[refreshCookie.token.session].invalidated
                && setRefresh.Set? && setRefresh.token.parent == refreshCookie.token.id
      ensures CookiesNameSessions() && !TakesFastPath(backend.now, backend.cache, env) && ParseRefresh(backend.now).Ok?
              && env.IssueFailure() == None && refreshCookie.token.session in old(backend.rows)
              && old(backend.rows)[refreshCookie.token.session].invalidated ==>
                err == Some(SessionInvalidated) && CookiesCleared() && backend.rows == old(backend.rows)
      // A failure to issue tokens, other than for an invalidated session, keeps the cookies of a request
      // with a valid refresh token.
      ensures CookiesNameSessions() && ParseRefresh(backend.now).Ok? && err.Some? && err != Some(SessionInvalidated) ==>
                setAuth == old(setAuth) && setRefresh == old(setRefresh)
      // Without any cookie there is nothing to clear; otherwise useless cookies are cleared.
      ensures CookiesNameSessions() && !TakesFastPath(backend.now, backend.cache, env)
              && ParseRefresh(backend.now).Err? ==>
                && err == Some(ParseRefresh(backend.now).error) && backend.rows == old(backend.rows)
                && (if authCookie.Absent? && refreshCookie.Absent?
                    then setAuth == old(setAuth) && setRefresh == old(setRefresh) else CookiesCleared())
    {
      var authToken := ParseAuth(backend.now);
      if authToken.Ok? {
        if authToken.value.session == "" {
          err := StartSession(backend, authToken.value.user, env);
          return;
        }
        var claims := authToken.value;
        if env.cacheReadable && !MustRefresh(backend.cache, claims.user, claims.issuedAt, backend.now) {
          SetSessionState(claims.user, claims.session, claims.roles);
          return None;
        }
      }
      err := ContinueByRefresh(backend, env, authToken != Err(NoCookie));
    }

    /** Without a usable auth cookie, the refresh cookie decides. */
    method ContinueByRefresh(backend: Backend, env: Env, hadAuthCookie: bool) returns (err: Option<Error>)
      modifies this, backend`rows
      ensures err.Some? ==> Unauthenticated(err.value)
      ensures ParseRefresh(backend.now).Err? ==>
                && err == Some(ParseRefresh(backend.now).error) && backend.rows == old(backend.rows)
                && (if !hadAuthCookie && ParseRefresh(backend.now).error == NoCookie
                    then setAuth == old(setAuth) && setRefresh == old(setRefresh) else CookiesCleared())
      ensures ParseRefresh(backend.now).Ok? ==>
                var rt := refreshCookie.token;
                && backend.rows == (if env.IssueFailure().Some? then old(backend.rows)
                                    else Upsert(old(backend.rows), rt.session, rt.user, env.newRefresh))
                && err == (if env.IssueFailure().Some? then env.IssueFailure()
                           else if backend.rows[rt.session].invalidated then Some(SessionInvalidated)
                           else None)
                && (err == Some(SessionInvalidated) ==> CookiesCleared())
                && (err.Some? && err != Some(SessionInvalidated) ==>
                      setAuth == old(setAuth) && setRefresh == old(setRefresh))
                && (err == None ==>
                      && env.roles.Ok?
                      && setAuth
                         == Set(NewAuthToken(backend.cfg, rt.user, rt.session, rt.id, env.roles.value, backend.now))
                      && setRefresh
                         == Set(NewRefreshToken(backend.cfg, env.newRefresh, rt.id, rt.user, rt.session, backend.now))
                      && if rt.user != "" && rt.session != ""
                         then AuthenticatedAs(rt.user, rt.session) && env.roles == Ok(roles)
                         else Unauthenticated(MissingValues))
    {
      var refreshToken := ParseRefresh(backend.now);
      if refreshToken.Err? {
        ClearSessionState(refreshToken.error);
        if hadAuthCookie || refreshToken.error != NoCookie {
          ClearSessionCookies();
        }
        return Some(refreshToken.error);
      }
      var rt := refreshToken.value;
      err := IssueSessionTokens(backend, rt.user, rt.session, rt.id, env);
      if err.Some? {
        ClearSessionState(err.value);
        if err.value == SessionInvalidated {
          ClearSessionCookies();
        }
      }
    }

    /** Invalidates the row and forces the user's auth tokens to refresh, then logs the request out. A
        failing write is only logged. */
    method EndSession(backend: Backend, env: Env)
      modifies this, backend`rows, backend`cache
      ensures Unauthenticated(NoCookie) && CookiesCleared()
      ensures backend.rows == if old(authed) && old(sessionID) != "" && env.invalidates
                              then Invalidate(old(backend.rows), old(sessionID)) else old(backend.rows)
      ensures backend.cache == if old(authed) && env.forces
                               then SetIfLater(old(backend.cache), old(userID), Seconds(backend.now),
                                               RefreshExpiry(backend.cfg, backend.now), backend.now)
                               else old(backend.cache)
    {
      if authed {
        if sessionID != "" {
          if env.invalidates {
            backend.rows := Invalidate(backend.rows, sessionID);
          }
        }
        ForceAuthTokenRefresh(backend, userID, env);
      }
      ClearSessionState(NoCookie);
      ClearSessionCookies();
    }

    method ForceAuthTokenRefresh(backend: Backend, user: ID, env: Env)
      modifies backend`cache
      ensures backend.cache == if env.forces
                               then SetIfLater(old(backend.cache), user, Seconds(backend.now),
                                               RefreshExpiry(backend.cfg, backend.now), backend.now)
                               else old(backend.cache)
    {
      if env.forces {
        backend.cache := SetIfLater(backend.cache, user, Seconds(backend.now),
                                    RefreshExpiry(backend.cfg, backend.now), backend.now);
      }
    }
  }

  /** The tokens that are handed out at one moment are accepted from then on for their whole lifetime, counted
      in full seconds, and no longer. */
  lemma IssuedTokensLive(cfg: Config, user: ID, session: ID, rid: ID, parent: ID, roles: seq<Role>,
                         now: nat, later: nat)
    requires now <= later
    ensures var at := NewAuthToken(cfg, user, session, parent, roles, now);
            Accepted(at.issuedAt, at.expiresAt, later) <==> later < (Seconds(now) + cfg.authTTL) * SECOND
    ensures var rt := NewRefreshToken(cfg, rid, parent, user, session, now);
            Accepted(rt.issuedAt, rt.expiresAt, later) <==> later < (Seconds(now) + cfg.refreshTTL) * SECOND
    ensures var rt := NewRefreshToken(cfg, rid, parent, user, session, now);
            rt.id == rid && rt.parent == parent && rt.user == user && rt.session == session
    ensures var at := NewAuthToken(cfg, user, session, parent, roles, now);
            at.user == user && at.session == session && at.refresh == parent && at.roles == roles
  {
    ExpiryIsWholeSeconds(now, cfg.authTTL);
    ExpiryIsWholeSeconds(now, cfg.refreshTTL);
    StartedSecond(now);
  }

  lemma StartedSecond(now: nat)
    ensures Seconds(now) * SECOND <= now
  {
  }

  /** An upsert records the refresh token in the session's own row, unless that is invalidated, and keeps the
      row's user and all other rows. */
  lemma UpsertRecords(rows: Rows, session: ID, user: ID, refresh: ID, other: ID)
    ensures var r := Upsert(rows, session, user, refresh);
            && (session !in rows ==> r[session] == Row(user, false, refresh))
            && (session in rows && !rows[session].invalidated ==> r[session] == Row(rows[session].user, false, refresh))
            && (other != session ==> (other in r <==> other in rows) && (other in rows ==> r[other] == rows[other]))
  {
  }

  /** Invalidating marks one row and touches nothing else. */
  lemma InvalidateMarks(rows: Rows, session: ID, other: ID)
    ensures var r := Invalidate(rows, session);
            && r.Keys == rows.Keys
            && (session in rows ==> r[session] == Row(rows[session].user, true, rows[session].currentRefresh))
            && (other in rows && other != session ==> r[other] == rows[other])
  {
  }

  /** A forced refresh leaves the later of two live times in the cache; an entry that is at least as late keeps
      its expiry too, and other users' entries stay. */
  lemma LaterTimeStays(cache: Cache, user: ID, value: nat, expireAt: nat, now: nat, other: ID)
    requires now < expireAt * SECOND
    ensures var c := SetIfLater(cache, user, value, expireAt, now);
            && CachedTime(c, user, now)
               == Some(if user in cache && now < cache[user].expireAt * SECOND && cache[user].value > value
                       then cache[user].value else value)
            && (user in cache && now < cache[user].expireAt * SECOND && cache[user].value >= value ==> c == cache)
            && (other != user ==> CachedTime(c, other, now) == CachedTime(cache, other, now))
  {
  }

  /** Ending a session shuts the door on its refresh tokens, whatever else the upsert brings. */
  lemma EndedRowStaysEnded(rows: Rows, session: ID, user: ID, refresh: ID)
    requires session in rows
    ensures Upsert(Invalidate(rows, session), session, user, refresh) == Invalidate(rows, session)
    ensures Invalidate(rows, session)[session].invalidated
  {
  }
}

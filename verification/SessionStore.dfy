// What sessions are made of: tokens, the session table and the forced-refresh cache, with the atomic
// operations that the database and the cache offer on them. Times are nanoseconds; token claims and
// cached times are whole seconds.
module SessionStore {
  import opened Wrappers

  type ID = string
  type Role = string

  const SECOND: nat := 1_000_000_000
  // The forced-refresh key outlives the tokens by an extra minute.
  const WIGGLE_ROOM: nat := 60

  /** Lifetimes of auth and refresh tokens, in seconds. */
  datatype Config = Config(authTTL: nat, refreshTTL: nat)

  function Seconds(t: nat): nat {
    t / SECOND
  }

  datatype AuthToken = AuthToken(user: ID, session: ID, refresh: ID, roles: seq<Role>, issuedAt: nat, expiresAt: nat)

  datatype RefreshToken = RefreshToken(id: ID, parent: ID, user: ID, session: ID, issuedAt: nat, expiresAt: nat)

  /** The tokens that are generated at one moment. The auth token names the refresh token that it replaces. */
  function NewAuthToken(cfg: Config, user: ID, session: ID, parent: ID, roles: seq<Role>, now: nat): AuthToken {
    AuthToken(user, session, parent, roles, Seconds(now), Seconds(now + cfg.authTTL * SECOND))
  }

  function NewRefreshToken(cfg: Config, id: ID, parent: ID, user: ID, session: ID, now: nat): RefreshToken {
    RefreshToken(id, parent, user, session, Seconds(now), Seconds(now + cfg.refreshTTL * SECOND))
  }

  lemma ExpiryIsWholeSeconds(now: nat, ttl: nat)
    ensures Seconds(now + ttl * SECOND) == Seconds(now) + ttl
  {
  }

  /** A token is accepted from the second it was issued in until the second it expires at. */
  predicate Accepted(issuedAt: nat, expiresAt: nat, now: nat) {
    issuedAt * SECOND <= now < expiresAt * SECOND
  }

  // ---- the session table ----

  datatype Row = Row(user: ID, invalidated: bool, currentRefresh: ID)

  type Rows = map<ID, Row>

  /** Inserts a session or refreshes it; an invalidated session stays exactly as it is. */
  function Upsert(rows: Rows, session: ID, user: ID, refresh: ID): (r: Rows)
    ensures session in r
  {
    if session !in rows then rows[session := Row(user, false, refresh)]
    else if rows[session].invalidated then rows
    else rows[session := rows[session].(currentRefresh := refresh)]
  }

  function Invalidate(rows: Rows, session: ID): Rows {
    if session in rows then rows[session := rows[session].(invalidated := true)] else rows
  }

  // ---- the forced-refresh cache ----

  datatype Entry = Entry(value: nat, expireAt: nat)

  type Cache = map<ID, Entry>

  function CachedTime(cache: Cache, user: ID, now: nat): Option<nat> {
    if user in cache && now < cache[user].expireAt * SECOND then Some(cache[user].value) else None
  }

  /** Writes a time unless a live entry already holds the same or a later one. */
  function SetIfLater(cache: Cache, user: ID, value: nat, expireAt: nat, now: nat): Cache {
    match CachedTime(cache, user, now)
    case None => cache[user := Entry(value, expireAt)]
    case Some(current) => if current < value then cache[user := Entry(value, expireAt)] else cache
  }

  function RefreshExpiry(cfg: Config, now: nat): nat {
    Seconds(now + (cfg.authTTL + WIGGLE_ROOM) * SECOND)
  }

  lemma RefreshExpiryIsLater(cfg: Config, now: nat)
    ensures RefreshExpiry(cfg, now) == Seconds(now) + cfg.authTTL + WIGGLE_ROOM
  {
  }

  predicate MustRefresh(cache: Cache, user: ID, issuedAt: nat, now: nat) {
    match CachedTime(cache, user, now)
    case None => false
    case Some(forceRefreshBefore) => issuedAt < forceRefreshBefore
  }
}

// Any number of requests issuing tokens, ending sessions and continuing them, interleaved step by
// step over one session table and one forced-refresh cache.
module SessionProtocol {
  import opened Wrappers
  import opened SessionStore

  /** Where one request is between two of its steps. */
  datatype Proc =
    | Issuing(user: ID, session: ID, parent: ID, rid: ID)   // ids chosen
    | Holding(rt: RefreshToken)                             // refresh token generated
    | Expiring(rt: RefreshToken, expiresAt: nat)            // expiry of the auth token computed
    | Stamped(rt: RefreshToken, at: AuthToken)              // auth token generated
    | Granted(rt: RefreshToken, at: AuthToken)              // the upserted row was valid
    | Refused(rt: RefreshToken)                             // the upserted row was invalidated
    | Ending(user: ID, session: ID)                         // an authenticated request ends its session
    | Forcing(user: ID, ended: Option<ID>)                  // about to force a refresh
    | ForceStamped(user: ID, ended: Option<ID>, value: nat)
    | ForceReady(user: ID, ended: Option<ID>, value: nat, expireAt: nat)
    | Checking(at: AuthToken, parsedAt: nat)                // auth cookie parsed, cache not read yet

  /** A session whose end has completed with both writes done. */
  datatype End = End(session: ID, user: ID, value: nat)

  datatype State = State(
    now: nat,
    rows: Rows,
    cache: Cache,
    procs: map<nat, Proc>,
    used: set<ID>,                     // every id generated so far
    owner: map<ID, ID>,                // the user each session was started for
    minted: seq<RefreshToken>,         // refresh tokens in the order they were generated
    released: set<AuthToken>,          // auth tokens handed out as cookies
    renewable: set<RefreshToken>,      // refresh tokens handed out as cookies
    invalidatedAt: map<ID, nat>,       // when a session row was invalidated
    forced: set<(ID, nat)>,            // completed forced refreshes: user and cached time
    ended: set<End>)

  const INITIAL := State(0, map[], map[], map[], {}, map[], [], {}, {}, map[], {}, {})

  datatype Step =
    | Tick(elapsed: nat)
    | Start(pid: nat, user: ID, session: ID, rid: ID)
    | Renew(pid: nat, rt: RefreshToken, rid: ID)
    | GenerateRefresh(pid: nat)
    | StampExpiry(pid: nat)
    | StampIssued(pid: nat, roles: seq<Role>)
    | UpsertRow(pid: nat)
    | Publish(pid: nat)
    | BeginEnd(pid: nat, at: AuthToken)
    | InvalidateRow(pid: nat, succeeds: bool)
    | BeginForce(pid: nat, user: ID)
    | StampForce(pid: nat)
    | StampForceExpiry(pid: nat)
    | WriteForce(pid: nat)
    | ParseAuth(pid: nat, at: AuthToken)
    | Abandon(pid: nat)

  predicate FreshID(s: State, id: ID) {
    id != "" && id !in s.used
  }

  predicate Enabled(s: State, step: Step) {
    match step
    case Tick(_) => true
    case Start(pid, user, session, rid) =>
      pid !in s.procs && user != "" && FreshID(s, session) && FreshID(s, rid) && session != rid
    case Renew(pid, rt, rid) =>
      pid !in s.procs && rt in s.renewable && Accepted(rt.issuedAt, rt.expiresAt, s.now) && FreshID(s, rid)
    case GenerateRefresh(pid) => pid in s.procs && s.procs[pid].Issuing?
    case StampExpiry(pid) => pid in s.procs && s.procs[pid].Holding?
    case StampIssued(pid, _) => pid in s.procs && s.procs[pid].Expiring?
    case UpsertRow(pid) => pid in s.procs && s.procs[pid].Stamped?
    case Publish(pid) => pid in s.procs && s.procs[pid].Granted?
    case BeginEnd(pid, at) => pid !in s.procs && at in s.released
    case InvalidateRow(pid, _) => pid in s.procs && s.procs[pid].Ending?
    case BeginForce(pid, _) => pid !in s.procs
    case StampForce(pid) => pid in s.procs && s.procs[pid].Forcing?
    case StampForceExpiry(pid) => pid in s.procs && s.procs[pid].ForceStamped?
    case WriteForce(pid) => pid in s.procs && s.procs[pid].ForceReady?
    case ParseAuth(pid, at) =>
      pid !in s.procs && at in s.released && Accepted(at.issuedAt, at.expiresAt, s.now)
    case Abandon(pid) => pid in s.procs
  }

  function Do(cfg: Config, s: State, step: Step): State
    requires Enabled(s, step)
  {
    match step
    case Tick(elapsed) => s.(now := s.now + elapsed)
    case Start(pid, user, session, rid) =>
      s.(procs := s.procs[pid := Issuing(user, session, "", rid)],
         used := s.used + {session, rid},
         owner := s.owner[session := user])
    case Renew(pid, rt, rid) =>
      s.(procs := s.procs[pid := Issuing(rt.user, rt.session, rt.id, rid)], used := s.used + {rid})
    case GenerateRefresh(pid) =>
      var p := s.procs[pid];
      var rt := NewRefreshToken(cfg, p.rid, p.parent, p.user, p.session, s.now);
      s.(procs := s.procs[pid := Holding(rt)], minted := s.minted + [rt])
    case StampExpiry(pid) =>
      s.(procs := s.procs[pid := Expiring(s.procs[pid].rt, Seconds(s.now) + cfg.authTTL)])
    case StampIssued(pid, roles) =>
      var p := s.procs[pid];
      var at := AuthToken(p.rt.user, p.rt.session, p.rt.parent, roles, Seconds(s.now), p.expiresAt);
      s.(procs := s.procs[pid := Stamped(p.rt, at)])
    case UpsertRow(pid) =>
      var p := s.procs[pid];
      var rows := Upsert(s.rows, p.rt.session, p.rt.user, p.rt.id);
      s.(rows := rows,
         procs := s.procs[pid := if rows[p.rt.session].invalidated then Refused(p.rt) else Granted(p.rt, p.at)])
    case Publish(pid) =>
      var p := s.procs[pid];
      s.(procs := s.procs - {pid}, released := s.released + {p.at}, renewable := s.renewable + {p.rt})
    case BeginEnd(pid, at) =>
      s.(procs := s.procs[pid := Ending(at.user, at.session)])
    case InvalidateRow(pid, succeeds) =>
      var p := s.procs[pid];
      if succeeds then
        s.(rows := Invalidate(s.rows, p.session),
           procs := s.procs[pid := Forcing(p.user, Some(p.session))],
           invalidatedAt :=
             if p.session in s.invalidatedAt then s.invalidatedAt else s.invalidatedAt[p.session := s.now])
      else s.(procs := s.procs[pid := Forcing(p.user, None)])
    case BeginForce(pid, user) =>
      s.(procs := s.procs[pid := Forcing(user, None)])
    case StampForce(pid) =>
      var p := s.procs[pid];
      s.(procs := s.procs[pid := ForceStamped(p.user, p.ended, Seconds(s.now))])
    case StampForceExpiry(pid) =>
      var p := s.procs[pid];
      s.(procs := s.procs[pid := ForceReady(p.user, p.ended, p.value, RefreshExpiry(cfg, s.now))])
    case WriteForce(pid) =>
      var p := s.procs[pid];
      s.(cache := SetIfLater(s.cache, p.user, p.value, p.expireAt, s.now),
         procs := s.procs - {pid},
         forced := s.forced + {(p.user, p.value)},
         ended := if p.ended.Some? then s.ended + {End(p.ended.value, p.user, p.value)} else s.ended)
    case ParseAuth(pid, at) =>
      s.(procs := s.procs[pid := Checking(at, s.now)])
    case Abandon(pid) => s.(procs := s.procs - {pid})
  }

  /** The state after all of `steps`, unless one of them cannot happen. */
  function Run(cfg: Config, s: State, steps: seq<Step>): Option<State>
    decreases |steps|
  {
    if steps == [] then Some(s)
    else if Enabled(s, steps[0]) then Run(cfg, Do(cfg, s, steps[0]), steps[1..])
    else None
  }

  ghost predicate Reachable(cfg: Config, s: State) {
    exists steps :: Run(cfg, INITIAL, steps) == Some(s)
  }

  /** What a request that has parsed its auth cookie finds when it now reads the cache. */
  predicate FastPath(s: State, at: AuthToken) {
    !MustRefresh(s.cache, at.user, at.issuedAt, s.now)
  }
}

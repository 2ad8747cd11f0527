// Particular runs of the session protocol: requests that are not interrupted, which do what the request
// methods do, and runs that show where the guarantees of the protocol end.
module SessionScenarios {
  import opened Wrappers
  import opened SessionStore
  import opened SessionProtocol
  import opened SessionSafety

  lemma RunTwo(cfg: Config, s: State, a: Step, b: Step)
    requires Enabled(s, a) && Enabled(Do(cfg, s, a), b)
    ensures Run(cfg, s, [a, b]) == Some(Do(cfg, Do(cfg, s, a), b))
  {
    assert [a, b][1..] == [b] && [b][1..] == [];
    assert Run(cfg, Do(cfg, s, a), [b]) == Some(Do(cfg, Do(cfg, s, a), b));
  }

  lemma Next(cfg: Config, s: State, step: Step) returns (s': State)
    requires Reachable(cfg, s) && Enabled(s, step)
    ensures s' == Do(cfg, s, step) && Reachable(cfg, s')
  {
    assert [step][1..] == [];
    s' := Do(cfg, s, step);
    assert Run(cfg, s, [step]) == Some(s');
    ReachableFurther(cfg, s, [step]);
  }

  // ---- requests that are not interrupted ----

  lemma Overwritten(procs: map<nat, Proc>, pid: nat, p: Proc, q: Proc)
    ensures procs[pid := p][pid := q] == procs[pid := q]
  {
  }

  lemma GenerateRun(cfg: Config, s: State, pid: nat, rt: RefreshToken, rid: ID)
    requires pid in s.procs && s.procs[pid] == Issuing(rt.user, rt.session, rt.id, rid)
    ensures var next := NewRefreshToken(cfg, rid, rt.id, rt.user, rt.session, s.now);
            Run(cfg, s, [GenerateRefresh(pid), StampExpiry(pid)])
            == Some(s.(procs := s.procs[pid := Expiring(next, Seconds(s.now) + cfg.authTTL)],
                       minted := s.minted + [next]))
  {
    RunTwo(cfg, s, GenerateRefresh(pid), StampExpiry(pid));
    var next := NewRefreshToken(cfg, rid, rt.id, rt.user, rt.session, s.now);
    Overwritten(s.procs, pid, Holding(next), Expiring(next, Seconds(s.now) + cfg.authTTL));
  }

  lemma GrantRun(cfg: Config, s: State, pid: nat, rt: RefreshToken, roles: seq<Role>)
    requires pid in s.procs && s.procs[pid] == Expiring(rt, Seconds(s.now) + cfg.authTTL)
    ensures var at := NewAuthToken(cfg, rt.user, rt.session, rt.parent, roles, s.now);
            var rows := Upsert(s.rows, rt.session, rt.user, rt.id);
            var p := if rows[rt.session].invalidated then Refused(rt) else Granted(rt, at);
            Run(cfg, s, [StampIssued(pid, roles), UpsertRow(pid)]) == Some(s.(rows := rows, procs := s.procs[pid := p]))
  {
    ExpiryIsWholeSeconds(s.now, cfg.authTTL);
    RunTwo(cfg, s, StampIssued(pid, roles), UpsertRow(pid));
    var at := NewAuthToken(cfg, rt.user, rt.session, rt.parent, roles, s.now);
    Overwritten(s.procs, pid, Stamped(rt, at), Refused(rt));
    Overwritten(s.procs, pid, Stamped(rt, at), Granted(rt, at));
  }

  /** The steps of issuing tokens for a refresh token. */
  function IssueSteps(pid: nat, roles: seq<Role>): seq<Step> {
    [GenerateRefresh(pid), StampExpiry(pid)] + [StampIssued(pid, roles), UpsertRow(pid)]
  }

  lemma IssueRun(cfg: Config, s: State, pid: nat, rt: RefreshToken, rid: ID, roles: seq<Role>)
    returns (s': State)
    requires pid in s.procs && s.procs[pid] == Issuing(rt.user, rt.session, rt.id, rid)
    ensures Run(cfg, s, IssueSteps(pid, roles)) == Some(s')
    ensures var at := NewAuthToken(cfg, rt.user, rt.session, rt.id, roles, s.now);
            var next := NewRefreshToken(cfg, rid, rt.id, rt.user, rt.session, s.now);
            var rows := Upsert(s.rows, rt.session, rt.user, rid);
            s' == s.(rows := rows, minted := s.minted + [next],
                     procs := s.procs[pid := if rows[rt.session].invalidated then Refused(next) else Granted(next, at)])
  {
    var generate, grant := [GenerateRefresh(pid), StampExpiry(pid)], [StampIssued(pid, roles), UpsertRow(pid)];
    GenerateRun(cfg, s, pid, rt, rid);
    var half := Run(cfg, s, generate).value;
    var next := NewRefreshToken(cfg, rid, rt.id, rt.user, rt.session, s.now);
    GrantRun(cfg, half, pid, next, roles);
    RunAppend(cfg, s, generate, grant);
    s' := Run(cfg, half, grant).value;
    Overwritten(s.procs, pid, half.procs[pid], s'.procs[pid]);
  }

  /** Uninterrupted, renewing from a refresh token upserts the row and, unless that is invalidated, hands out
      exactly the tokens that the request method for issuing tokens sets as cookies. */
  lemma RenewalAtOnce(cfg: Config, s: State, pid: nat, rt: RefreshToken, rid: ID, roles: seq<Role>) returns (s': State)
    requires Enabled(s, Renew(pid, rt, rid))
    ensures Run(cfg, Do(cfg, s, Renew(pid, rt, rid)), IssueSteps(pid, roles)) == Some(s')
    ensures s'.rows == Upsert(s.rows, rt.session, rt.user, rid)
    ensures s'.rows[rt.session].invalidated ==> pid in s'.procs && s'.procs[pid].Refused?
    ensures !s'.rows[rt.session].invalidated ==>
              && Enabled(s', Publish(pid))
              && Do(cfg, s', Publish(pid)).released
                 == s.released + {NewAuthToken(cfg, rt.user, rt.session, rt.id, roles, s.now)}
              && Do(cfg, s', Publish(pid)).renewable
                 == s.renewable + {NewRefreshToken(cfg, rid, rt.id, rt.user, rt.session, s.now)}
  {
    s' := IssueRun(cfg, Do(cfg, s, Renew(pid, rt, rid)), pid, rt, rid, roles);
  }

  /** The steps of forcing a refresh, and of ending a session. */
  function ForceSteps(pid: nat): seq<Step> {
    [StampForce(pid), StampForceExpiry(pid)] + [WriteForce(pid)]
  }

  function EndSteps(pid: nat, at: AuthToken): seq<Step> {
    [BeginEnd(pid, at), InvalidateRow(pid, true)] + ForceSteps(pid)
  }

  lemma ForceStampRun(cfg: Config, s: State, pid: nat, user: ID, ended: Option<ID>)
    requires pid in s.procs && s.procs[pid] == Forcing(user, ended)
    ensures var ready := ForceReady(user, ended, Seconds(s.now), RefreshExpiry(cfg, s.now));
            Run(cfg, s, [StampForce(pid), StampForceExpiry(pid)]) == Some(s.(procs := s.procs[pid := ready]))
  {
    RunTwo(cfg, s, StampForce(pid), StampForceExpiry(pid));
    Overwritten(s.procs, pid, ForceStamped(user, ended, Seconds(s.now)),
      ForceReady(user, ended, Seconds(s.now), RefreshExpiry(cfg, s.now)));
  }

  lemma ForceRun(cfg: Config, s: State, pid: nat, user: ID, ended: Option<ID>)
    requires pid in s.procs && s.procs[pid] == Forcing(user, ended)
    ensures var value := Seconds(s.now);
            Run(cfg, s, ForceSteps(pid))
            == Some(s.(cache := SetIfLater(s.cache, user, value, RefreshExpiry(cfg, s.now), s.now),
                       procs := s.procs - {pid},
                       forced := s.forced + {(user, value)},
                       ended := if ended.Some? then s.ended + {End(ended.value, user, value)} else s.ended))
  {
    ForceStampRun(cfg, s, pid, user, ended);
    var ready := Run(cfg, s, [StampForce(pid), StampForceExpiry(pid)]).value;
    RunAppend(cfg, s, [StampForce(pid), StampForceExpiry(pid)], [WriteForce(pid)]);
    assert [WriteForce(pid)][1..] == [];
    assert Run(cfg, ready, [WriteForce(pid)]) == Some(Do(cfg, ready, WriteForce(pid)));
    assert ready.procs - {pid} == s.procs - {pid};
  }

  /** Uninterrupted, ending a session leaves the row and the cache as the request method does. */
  lemma EndAtOnce(cfg: Config, s: State, pid: nat, at: AuthToken) returns (s': State)
    requires Enabled(s, BeginEnd(pid, at))
    ensures Run(cfg, s, EndSteps(pid, at)) == Some(s')
    ensures s'.rows == Invalidate(s.rows, at.session)
    ensures s'.cache == SetIfLater(s.cache, at.user, Seconds(s.now), RefreshExpiry(cfg, s.now), s.now)
    ensures s'.ended == s.ended + {End(at.session, at.user, Seconds(s.now))}
    ensures s'.forced == s.forced + {(at.user, Seconds(s.now))}
    ensures s'.now == s.now && s'.procs == s.procs && s'.released == s.released
  {
    RunTwo(cfg, s, BeginEnd(pid, at), InvalidateRow(pid, true));
    var half := Do(cfg, Do(cfg, s, BeginEnd(pid, at)), InvalidateRow(pid, true));
    RunAppend(cfg, s, [BeginEnd(pid, at), InvalidateRow(pid, true)], ForceSteps(pid));
    ForceRun(cfg, half, pid, at.user, Some(at.session));
    s' := Run(cfg, half, ForceSteps(pid)).value;
    assert half.procs - {pid} == s.procs;
  }

  // ---- where the guarantees end ----

  lemma Beginning(cfg: Config)
    ensures Reachable(cfg, INITIAL)
  {
    assert Run(cfg, INITIAL, []) == Some(INITIAL);
  }

  lemma TokensGenerated(cfg: Config) returns (s: State)
    ensures Reachable(cfg, s)
    ensures var rt := RefreshToken("r", "", "u", "s", 0, cfg.refreshTTL);
            && s.procs == map[0 := Stamped(rt, AuthToken("u", "s", "", [], 0, cfg.authTTL))]
            && s == INITIAL.(procs := s.procs, used := {"s", "r"}, owner := map["s" := "u"], minted := [rt])
  {
    Beginning(cfg);
    s := Next(cfg, INITIAL, Start(0, "u", "s", "r"));
    s := Next(cfg, s, GenerateRefresh(0));
    s := Next(cfg, s, StampExpiry(0));
    s := Next(cfg, s, StampIssued(0, []));
  }

  /** A user logs in at time zero. */
  lemma LogIn(cfg: Config) returns (s: State, at: AuthToken)
    ensures Reachable(cfg, s) && s.now == 0 && s.procs == map[] && s.cache == map[] && s.ended == {}
    ensures at == AuthToken("u", "s", "", [], 0, cfg.authTTL) && s.released == {at}
    ensures s.rows == map["s" := Row("u", false, "r")] && s.invalidatedAt == map[]
  {
    s := TokensGenerated(cfg);
    at := s.procs[0].at;
    s := Next(cfg, s, UpsertRow(0));
    s := Next(cfg, s, Publish(0));
    assert s.procs == map[];
  }

  /** The session that the token names is ended now, by request 1, with both writes done. */
  lemma LogOut(cfg: Config, s: State, at: AuthToken) returns (s': State, e: End)
    requires Reachable(cfg, s) && at in s.released && 1 !in s.procs && s.cache == map[]
    ensures Reachable(cfg, s') && s'.now == s.now && s'.procs == s.procs && s'.released == s.released
    ensures e == End(at.session, at.user, Seconds(s.now)) && e in s'.ended && (at.user, e.value) in s'.forced
    ensures s'.cache == map[at.user := Entry(e.value, RefreshExpiry(cfg, s.now))]
  {
    s' := EndAtOnce(cfg, s, 1, at);
    ReachableFurther(cfg, s, EndSteps(1, at));
    e := End(at.session, at.user, Seconds(s.now));
  }

  /** Logging in and out within one second leaves the auth token working: the forced refresh is not later
      than the second the token was issued in. */
  lemma SameSecondSurvives(cfg: Config) returns (s: State, e: End)
    requires cfg.authTTL > 0
    ensures Reachable(cfg, s) && e in s.ended
    ensures exists pid ::
              ChecksWithin(s, pid, 0) && s.procs[pid].at.session == e.session && FastPath(s, s.procs[pid].at)
  {
    var at;
    s, at := LogIn(cfg);
    s, e := LogOut(cfg, s, at);
    s := Next(cfg, s, ParseAuth(2, at));
    assert ChecksWithin(s, 2, 0) && FastPath(s, at);
  }

  /** A run in which request 2 parses its token one nanosecond before it expires, the session is ended in the
      second after the token's, and the refresh is about to be forgotten. With a lifetime of a single second
      the token is parsed before the end, otherwise after it. */
  lemma ParsedAndEnded(cfg: Config) returns (s: State, at: AuthToken, e: End)
    requires cfg.authTTL > 0
    ensures Reachable(cfg, s) && e in s.ended && e.value == 1 && (at.user, 1) in s.forced && e.session == at.session
    ensures at.issuedAt == 0 && s.released == {at}
    ensures s.procs == map[2 := Checking(at, cfg.authTTL * SECOND - 1)]
    ensures s.now <= (cfg.authTTL + WIGGLE_ROOM) * SECOND
    ensures s.cache == map[at.user := Entry(1, 1 + cfg.authTTL + WIGGLE_ROOM)]
  {
    RefreshExpiryIsLater(cfg, SECOND);
    s, at := LogIn(cfg);
    if cfg.authTTL == 1 {
      s := Next(cfg, s, Tick(SECOND - 1));
      s := Next(cfg, s, ParseAuth(2, at));
      s := Next(cfg, s, Tick(1));
      s, e := LogOut(cfg, s, at);
    } else {
      s := Next(cfg, s, Tick(SECOND));
      s, e := LogOut(cfg, s, at);
      s := Next(cfg, s, Tick((cfg.authTTL - 1) * SECOND - 1));
      s := Next(cfg, s, ParseAuth(2, at));
    }
  }

  /** A request that reads the cache one nanosecond later than 61 seconds after parsing its token can find the
      forced refresh forgotten, and is then authenticated after the end. */
  lemma SlowReaderSurvives(cfg: Config) returns (s: State, e: End, pid: nat)
    requires cfg.authTTL > 0
    ensures Reachable(cfg, s) && EndedLater(s, e) && ChecksWithin(s, pid, GRACE + 1)
    ensures s.procs[pid].at.session == e.session && !NotForced(s, s.procs[pid].at) && FastPath(s, s.procs[pid].at)
  {
    var at;
    s, at, e := ParsedAndEnded(cfg);
    var forgotten := (cfg.authTTL + WIGGLE_ROOM + 1) * SECOND;
    s := Next(cfg, s, Tick(forgotten - s.now));
    pid := 2;
    assert (at.user, 1) in s.forced;
  }

  /** Within this delay, the fast path is taken exactly by tokens that are not forced to refresh. */
  ghost predicate ExactWithin(cfg: Config, delay: nat) {
    forall s, pid :: Reachable(cfg, s) && ChecksWithin(s, pid, delay) ==>
      (FastPath(s, s.procs[pid].at) <==> NotForced(s, s.procs[pid].at))
  }

  /** Within this delay, no token of a session that was ended in a later second passes the fast path. */
  ghost predicate SafeWithin(cfg: Config, delay: nat) {
    forall s, e, pid :: Reachable(cfg, s) && EndedLater(s, e) && ChecksWithin(s, pid, delay)
                        && s.procs[pid].at.session == e.session ==>
      !FastPath(s, s.procs[pid].at)
  }

  /** How long a request may take between parsing its auth cookie and reading the cache: the fast path is exact,
      and ended sessions stay out, if and only if it takes at most 61 seconds (or tokens never live at all). */
  lemma HowSlowIsSafe(cfg: Config, delay: nat)
    ensures ExactWithin(cfg, delay) <==> delay <= 61 * SECOND || cfg.authTTL == 0
    ensures SafeWithin(cfg, delay) <==> delay <= 61 * SECOND || cfg.authTTL == 0
  {
    if delay > GRACE && cfg.authTTL > 0 {
      var s, e, pid := SlowReaderSurvives(cfg);
      assert ChecksWithin(s, pid, delay);
    } else {
      WithinGrace(cfg, delay);
    }
  }

  lemma WithinGrace(cfg: Config, delay: nat)
    requires delay <= GRACE || cfg.authTTL == 0
    ensures ExactWithin(cfg, delay) && SafeWithin(cfg, delay)
  {
    forall s, pid | Reachable(cfg, s) && ChecksWithin(s, pid, delay)
      ensures ChecksWithin(s, pid, GRACE) && (FastPath(s, s.procs[pid].at) <==> NotForced(s, s.procs[pid].at))
    {
      ParsedOnlyIfAlive(cfg, s, pid);
      FastPathIsExact(cfg, s, pid);
    }
    forall s, e, pid | Reachable(cfg, s) && EndedLater(s, e) && ChecksWithin(s, pid, delay)
                       && s.procs[pid].at.session == e.session
      ensures !FastPath(s, s.procs[pid].at)
    {
      assert Run(cfg, s, []) == Some(s);
      EndedForGood(cfg, s, e, []);
    }
  }

  lemma ParsedOnlyIfAlive(cfg: Config, s: State, pid: nat)
    requires Reachable(cfg, s) && pid in s.procs && s.procs[pid].Checking?
    ensures cfg.authTTL > 0
  {
    ReachableInvariant(cfg, s);
    var at := s.procs[pid].at;
    assert ProcTimes(cfg, s, s.procs[pid]) && ProcOwned(s, s.procs[pid]) && TokenTimes(cfg, s, at);
  }
}

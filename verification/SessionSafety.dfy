// Invariants of every reachable state of the session protocol, and what they say about sessions
// that have been ended and tokens that have been forced to refresh.
module SessionSafety {
  import opened Wrappers
  import opened SessionStore
  import opened SessionProtocol

  // ---- whose session is it ----

  ghost predicate Owned(s: State, session: ID, user: ID) {
    session in s.owner && s.owner[session] == user
  }

  /** The session has a row, which belongs to the user. */
  ghost predicate HasRow(s: State, session: ID, user: ID) {
    session in s.rows && s.rows[session].user == user && Owned(s, session, user)
  }

  ghost predicate EndedRow(s: State, session: ID, user: ID) {
    HasRow(s, session, user) && session in s.invalidatedAt
  }

  ghost predicate ProcOwned(s: State, p: Proc) {
    match p
    case Issuing(user, session, _, _) => Owned(s, session, user)
    case Holding(rt) => Owned(s, rt.session, rt.user)
    case Expiring(rt, _) => Owned(s, rt.session, rt.user)
    case Stamped(rt, at) => Owned(s, rt.session, rt.user) && at.session == rt.session && at.user == rt.user
    case Granted(rt, at) => HasRow(s, rt.session, rt.user) && at.session == rt.session && at.user == rt.user
    case Refused(rt) => EndedRow(s, rt.session, rt.user)
    case Ending(user, session) => HasRow(s, session, user)
    case Forcing(user, ended) => ended.Some? ==> EndedRow(s, ended.value, user)
    case ForceStamped(user, ended, _) => ended.Some? ==> EndedRow(s, ended.value, user)
    case ForceReady(user, ended, _, _) => ended.Some? ==> EndedRow(s, ended.value, user)
    case Checking(at, _) => at in s.released
  }

  ghost predicate RowsOwned(s: State) {
    && (forall x :: x in s.owner ==> x in s.used && x != "" && s.owner[x] != "")
    && (forall x :: x in s.rows ==> Owned(s, x, s.rows[x].user))
    && (forall x :: x in s.invalidatedAt <==> x in s.rows && s.rows[x].invalidated)
  }

  ghost predicate Ownership(s: State) {
    && RowsOwned(s)
    && (forall pid :: pid in s.procs ==> ProcOwned(s, s.procs[pid]))
    && (forall at :: at in s.released ==> HasRow(s, at.session, at.user))
    && (forall rt :: rt in s.renewable ==> HasRow(s, rt.session, rt.user))
    && (forall e :: e in s.ended ==> EndedRow(s, e.session, e.user))
  }

  /** Rows, owners and invalidations are only ever added to. */
  ghost predicate Grows(s: State, s': State) {
    && (forall x :: x in s.owner ==> x in s'.owner && s'.owner[x] == s.owner[x])
    && (forall x :: x in s.rows ==> x in s'.rows && s'.rows[x].user == s.rows[x].user)
    && (forall x :: x in s.invalidatedAt ==> x in s'.invalidatedAt && s'.invalidatedAt[x] == s.invalidatedAt[x])
    && s.released <= s'.released
    && s.now <= s'.now
  }

  /** The steps by which tokens are issued, from choosing ids to handing out cookies. */
  predicate Issues(step: Step) {
    || step.Start? || step.Renew? || step.GenerateRefresh? || step.StampExpiry? || step.StampIssued?
    || step.UpsertRow? || step.Publish?
  }

  lemma IssuingGrows(cfg: Config, s: State, step: Step)
    requires Ownership(s) && Enabled(s, step) && Issues(step)
    ensures Grows(s, Do(cfg, s, step))
  {
  }

  lemma OthersGrow(cfg: Config, s: State, step: Step)
    requires Enabled(s, step) && !Issues(step)
    ensures Grows(s, Do(cfg, s, step))
  {
  }

  lemma StepGrows(cfg: Config, s: State, step: Step)
    requires Ownership(s) && Enabled(s, step)
    ensures Grows(s, Do(cfg, s, step))
  {
    if Issues(step) {
      IssuingGrows(cfg, s, step);
    } else {
      OthersGrow(cfg, s, step);
    }
  }

  lemma OthersStayOwned(s: State, s': State, p: Proc)
    requires Grows(s, s') && ProcOwned(s, p)
    ensures ProcOwned(s', p)
  {
  }

  /** The process that makes the step ends up in a state it may be in. */
  lemma IssuerOwned(cfg: Config, s: State, step: Step, pid: nat)
    requires Ownership(s) && Enabled(s, step) && Issues(step)
    requires pid in Do(cfg, s, step).procs && (pid in s.procs ==> Do(cfg, s, step).procs[pid] != s.procs[pid])
    ensures ProcOwned(Do(cfg, s, step), Do(cfg, s, step).procs[pid])
  {
    if step.Start? {
    } else if pid in s.procs {
      assert ProcOwned(s, s.procs[pid]);
    }
  }

  lemma InvalidatorOwned(cfg: Config, s: State, pid: nat, succeeds: bool)
    requires Ownership(s) && Enabled(s, InvalidateRow(pid, succeeds))
    ensures ProcOwned(Do(cfg, s, InvalidateRow(pid, succeeds)), Do(cfg, s, InvalidateRow(pid, succeeds)).procs[pid])
  {
    assert ProcOwned(s, s.procs[pid]);
  }

  lemma EnderOwned(cfg: Config, s: State, step: Step, pid: nat)
    requires Ownership(s) && Enabled(s, step) && !Issues(step) && !step.InvalidateRow?
    requires pid in Do(cfg, s, step).procs && (pid in s.procs ==> Do(cfg, s, step).procs[pid] != s.procs[pid])
    ensures ProcOwned(Do(cfg, s, step), Do(cfg, s, step).procs[pid])
  {
    if pid in s.procs {
      assert ProcOwned(s, s.procs[pid]);
    }
  }

  lemma ProcsStayOwned(cfg: Config, s: State, step: Step, pid: nat)
    requires Ownership(s) && Enabled(s, step) && pid in Do(cfg, s, step).procs
    ensures ProcOwned(Do(cfg, s, step), Do(cfg, s, step).procs[pid])
  {
    if pid in s.procs && Do(cfg, s, step).procs[pid] == s.procs[pid] {
      StepGrows(cfg, s, step);
      OthersStayOwned(s, Do(cfg, s, step), s.procs[pid]);
    } else if Issues(step) {
      IssuerOwned(cfg, s, step, pid);
    } else if step.InvalidateRow? {
      InvalidatorOwned(cfg, s, pid, step.succeeds);
    } else {
      EnderOwned(cfg, s, step, pid);
    }
  }

  lemma UpsertKeepsRows(cfg: Config, s: State, pid: nat)
    requires Ownership(s) && Enabled(s, UpsertRow(pid))
    ensures RowsOwned(Do(cfg, s, UpsertRow(pid)))
  {
    assert ProcOwned(s, s.procs[pid]);
  }

  lemma StartKeepsRows(cfg: Config, s: State, step: Step)
    requires Ownership(s) && Enabled(s, step) && (step.Start? || step.Renew?)
    ensures RowsOwned(Do(cfg, s, step))
  {
    var s' := Do(cfg, s, step);
    assert s'.rows == s.rows && s'.invalidatedAt == s.invalidatedAt && s.used <= s'.used;
  }

  lemma IssuingKeepsRows(cfg: Config, s: State, step: Step)
    requires Ownership(s) && Enabled(s, step) && Issues(step)
    ensures RowsOwned(Do(cfg, s, step))
  {
    if step.UpsertRow? {
      UpsertKeepsRows(cfg, s, step.pid);
    } else if step.Start? || step.Renew? {
      StartKeepsRows(cfg, s, step);
    } else {
      SameRowsOwned(s, Do(cfg, s, step));
    }
  }

  /** Rows, owners, ids and invalidations stay as they are. */
  ghost predicate SameRows(s: State, s': State) {
    s'.rows == s.rows && s'.owner == s.owner && s'.used == s.used && s'.invalidatedAt == s.invalidatedAt
  }

  lemma SameRowsOwned(s: State, s': State)
    requires RowsOwned(s) && SameRows(s, s')
    ensures RowsOwned(s')
  {
  }

  lemma InvalidatingKeepsRows(cfg: Config, s: State, pid: nat, succeeds: bool)
    requires Ownership(s) && Enabled(s, InvalidateRow(pid, succeeds))
    ensures RowsOwned(Do(cfg, s, InvalidateRow(pid, succeeds)))
  {
    assert ProcOwned(s, s.procs[pid]);
  }

  lemma OthersKeepRows(cfg: Config, s: State, step: Step)
    requires Ownership(s) && Enabled(s, step) && !Issues(step)
    ensures RowsOwned(Do(cfg, s, step))
  {
    if step.InvalidateRow? {
      InvalidatingKeepsRows(cfg, s, step.pid, step.succeeds);
    } else {
      SameRowsOwned(s, Do(cfg, s, step));
    }
  }

  lemma TokensStayOwned(cfg: Config, s: State, step: Step)
    requires Ownership(s) && Enabled(s, step)
    ensures var s' := Do(cfg, s, step);
            && (forall at :: at in s'.released ==> HasRow(s', at.session, at.user))
            && (forall rt :: rt in s'.renewable ==> HasRow(s', rt.session, rt.user))
  {
    StepGrows(cfg, s, step);
    if step.Publish? {
      assert ProcOwned(s, s.procs[step.pid]);
    } else {
      assert Do(cfg, s, step).released == s.released && Do(cfg, s, step).renewable == s.renewable;
    }
  }

  lemma EndsStayOwned(cfg: Config, s: State, step: Step)
    requires Ownership(s) && Enabled(s, step)
    ensures var s' := Do(cfg, s, step); forall e :: e in s'.ended ==> EndedRow(s', e.session, e.user)
  {
    StepGrows(cfg, s, step);
    if step.WriteForce? {
      assert ProcOwned(s, s.procs[step.pid]);
    } else {
      assert Do(cfg, s, step).ended == s.ended;
    }
  }

  lemma OwnershipStep(cfg: Config, s: State, step: Step)
    requires Ownership(s) && Enabled(s, step)
    ensures Ownership(Do(cfg, s, step))
  {
    if Issues(step) {
      IssuingKeepsRows(cfg, s, step);
    } else {
      OthersKeepRows(cfg, s, step);
    }
    TokensStayOwned(cfg, s, step);
    EndsStayOwned(cfg, s, step);
    forall pid | pid in Do(cfg, s, step).procs
      ensures ProcOwned(Do(cfg, s, step), Do(cfg, s, step).procs[pid])
    {
      ProcsStayOwned(cfg, s, step, pid);
    }
  }

  // ---- when was it stamped ----

  /** The auth token was stamped no later than now, lives no longer than the configured time and, when its
      session has been invalidated, was stamped no later than that. */
  ghost predicate TokenTimes(cfg: Config, s: State, at: AuthToken) {
    && at.issuedAt <= Seconds(s.now)
    && at.expiresAt <= at.issuedAt + cfg.authTTL
  }

  ghost predicate StampedInTime(s: State, at: AuthToken) {
    at.session in s.invalidatedAt ==> at.issuedAt <= Seconds(s.invalidatedAt[at.session])
  }

  ghost predicate ForceTimes(s: State, ended: Option<ID>, value: nat) {
    && value <= Seconds(s.now)
    && (ended.Some? ==> ended.value in s.invalidatedAt && Seconds(s.invalidatedAt[ended.value]) <= value)
  }

  ghost predicate ProcTimes(cfg: Config, s: State, p: Proc) {
    match p
    case Expiring(_, expiresAt) => expiresAt <= Seconds(s.now) + cfg.authTTL
    case Stamped(_, at) => TokenTimes(cfg, s, at)
    case Granted(_, at) => TokenTimes(cfg, s, at) && StampedInTime(s, at)
    case ForceStamped(_, ended, value) => ForceTimes(s, ended, value)
    case ForceReady(_, ended, value, expireAt) =>
      ForceTimes(s, ended, value) && value + cfg.authTTL + WIGGLE_ROOM <= expireAt
    case Checking(at, parsedAt) => Accepted(at.issuedAt, at.expiresAt, parsedAt) && parsedAt <= s.now
    case _ => true
  }

  ghost predicate Timing(cfg: Config, s: State) {
    && (forall x :: x in s.invalidatedAt ==> s.invalidatedAt[x] <= s.now)
    && (forall pid :: pid in s.procs ==> ProcTimes(cfg, s, s.procs[pid]))
    && (forall at :: at in s.released ==> TokenTimes(cfg, s, at) && StampedInTime(s, at))
    && (forall e :: e in s.ended ==> ForceTimes(s, Some(e.session), e.value) && (e.user, e.value) in s.forced)
  }

  lemma SecondsMonotonic(a: nat, b: nat)
    requires a <= b
    ensures Seconds(a) <= Seconds(b)
  {
  }

  /** Invalidating a row now cannot be earlier than a stamp that was already made. */
  lemma TokensStayInTime(cfg: Config, s: State, step: Step, at: AuthToken)
    requires Ownership(s) && Timing(cfg, s) && Enabled(s, step)
    requires TokenTimes(cfg, s, at) && StampedInTime(s, at)
    ensures TokenTimes(cfg, Do(cfg, s, step), at) && StampedInTime(Do(cfg, s, step), at)
  {
    StepGrows(cfg, s, step);
    SecondsMonotonic(s.now, Do(cfg, s, step).now);
  }

  lemma OthersStayInTime(cfg: Config, s: State, step: Step, p: Proc)
    requires Ownership(s) && Timing(cfg, s) && Enabled(s, step) && ProcTimes(cfg, s, p)
    ensures ProcTimes(cfg, Do(cfg, s, step), p)
  {
    StepGrows(cfg, s, step);
    SecondsMonotonic(s.now, Do(cfg, s, step).now);
    if p.Granted? {
      TokensStayInTime(cfg, s, step, p.at);
    }
  }

  lemma IssuerInTime(cfg: Config, s: State, step: Step, pid: nat)
    requires Ownership(s) && Timing(cfg, s) && Enabled(s, step) && Issues(step)
    requires pid in Do(cfg, s, step).procs && (pid in s.procs ==> Do(cfg, s, step).procs[pid] != s.procs[pid])
    ensures ProcTimes(cfg, Do(cfg, s, step), Do(cfg, s, step).procs[pid])
  {
    if pid in s.procs {
      assert ProcTimes(cfg, s, s.procs[pid]);
    }
  }

  lemma EnderInTime(cfg: Config, s: State, step: Step, pid: nat)
    requires Ownership(s) && Timing(cfg, s) && Enabled(s, step) && !Issues(step)
    requires pid in Do(cfg, s, step).procs && (pid in s.procs ==> Do(cfg, s, step).procs[pid] != s.procs[pid])
    ensures ProcTimes(cfg, Do(cfg, s, step), Do(cfg, s, step).procs[pid])
  {
    RefreshExpiryIsLater(cfg, s.now);
    if pid in s.procs {
      assert ProcTimes(cfg, s, s.procs[pid]) && ProcOwned(s, s.procs[pid]);
      if step.StampForce? && s.procs[pid].ended.Some? {
        SecondsMonotonic(s.invalidatedAt[s.procs[pid].ended.value], s.now);
      }
    }
  }

  lemma ProcsStayInTime(cfg: Config, s: State, step: Step, pid: nat)
    requires Ownership(s) && Timing(cfg, s) && Enabled(s, step) && pid in Do(cfg, s, step).procs
    ensures ProcTimes(cfg, Do(cfg, s, step), Do(cfg, s, step).procs[pid])
  {
    if pid in s.procs && Do(cfg, s, step).procs[pid] == s.procs[pid] {
      OthersStayInTime(cfg, s, step, s.procs[pid]);
    } else if Issues(step) {
      IssuerInTime(cfg, s, step, pid);
    } else {
      EnderInTime(cfg, s, step, pid);
    }
  }

  lemma ReleasedStayInTime(cfg: Config, s: State, step: Step, at: AuthToken)
    requires Ownership(s) && Timing(cfg, s) && Enabled(s, step) && at in Do(cfg, s, step).released
    ensures TokenTimes(cfg, Do(cfg, s, step), at) && StampedInTime(Do(cfg, s, step), at)
  {
    if at !in s.released {
      assert step.Publish? && ProcTimes(cfg, s, s.procs[step.pid]);
    }
    TokensStayInTime(cfg, s, step, at);
  }

  lemma EndsStayInTime(cfg: Config, s: State, step: Step, e: End)
    requires Ownership(s) && Timing(cfg, s) && Enabled(s, step) && e in Do(cfg, s, step).ended
    ensures ForceTimes(Do(cfg, s, step), Some(e.session), e.value) && (e.user, e.value) in Do(cfg, s, step).forced
  {
    StepGrows(cfg, s, step);
    SecondsMonotonic(s.now, Do(cfg, s, step).now);
    if e in s.ended {
      assert ForceTimes(s, Some(e.session), e.value) && s.forced <= Do(cfg, s, step).forced;
    } else {
      assert step.WriteForce? && ProcTimes(cfg, s, s.procs[step.pid]);
    }
  }

  lemma InvalidationsInThePast(cfg: Config, s: State, step: Step)
    requires Timing(cfg, s) && Enabled(s, step)
    ensures var s' := Do(cfg, s, step); forall x :: x in s'.invalidatedAt ==> s'.invalidatedAt[x] <= s'.now
  {
  }

  lemma TimingStep(cfg: Config, s: State, step: Step)
    requires Ownership(s) && Timing(cfg, s) && Enabled(s, step)
    ensures Timing(cfg, Do(cfg, s, step))
  {
    InvalidationsInThePast(cfg, s, step);
    forall pid | pid in Do(cfg, s, step).procs
      ensures ProcTimes(cfg, Do(cfg, s, step), Do(cfg, s, step).procs[pid])
    {
      ProcsStayInTime(cfg, s, step, pid);
    }
    forall at | at in Do(cfg, s, step).released
      ensures TokenTimes(cfg, Do(cfg, s, step), at) && StampedInTime(Do(cfg, s, step), at)
    {
      ReleasedStayInTime(cfg, s, step, at);
    }
    forall e | e in Do(cfg, s, step).ended
      ensures ForceTimes(Do(cfg, s, step), Some(e.session), e.value) && (e.user, e.value) in Do(cfg, s, step).forced
    {
      EndsStayInTime(cfg, s, step, e);
    }
  }

  // ---- what the cache remembers ----

  /** A forced refresh is remembered until every token it rejects has been expired for the extra minute. */
  ghost predicate Remembered(cfg: Config, s: State, user: ID, value: nat) {
    || (value + cfg.authTTL + WIGGLE_ROOM) * SECOND <= s.now
    || (CachedTime(s.cache, user, s.now).Some? && value <= CachedTime(s.cache, user, s.now).value)
  }

  ghost predicate Memory(cfg: Config, s: State) {
    && (forall u :: u in s.cache ==>
          (u, s.cache[u].value) in s.forced && s.cache[u].value + cfg.authTTL + WIGGLE_ROOM <= s.cache[u].expireAt)
    && (forall u, v :: (u, v) in s.forced ==> Remembered(cfg, s, u, v))
  }

  lemma Milestone(a: nat, b: nat)
    requires a <= b
    ensures a * SECOND <= b * SECOND
  {
  }

  lemma StillRemembered(cfg: Config, s: State, step: Step, u: ID, v: nat)
    requires Timing(cfg, s) && Memory(cfg, s) && Enabled(s, step) && Remembered(cfg, s, u, v)
    ensures Remembered(cfg, Do(cfg, s, step), u, v)
  {
    var s' := Do(cfg, s, step);
    if CachedTime(s.cache, u, s.now).Some? && v <= CachedTime(s.cache, u, s.now).value {
      Milestone(v + cfg.authTTL + WIGGLE_ROOM, s.cache[u].expireAt);
      if step.WriteForce? {
        var p := s.procs[step.pid];
        assert ProcTimes(cfg, s, p);
        if p.user == u && p.value > v {
          Milestone(v + cfg.authTTL + WIGGLE_ROOM, p.expireAt);
        }
      }
    }
  }

  lemma NewlyRemembered(cfg: Config, s: State, pid: nat)
    requires Timing(cfg, s) && Memory(cfg, s) && Enabled(s, WriteForce(pid))
    ensures Remembered(cfg, Do(cfg, s, WriteForce(pid)), s.procs[pid].user, s.procs[pid].value)
  {
    var p := s.procs[pid];
    assert ProcTimes(cfg, s, p);
    Milestone(p.value + cfg.authTTL + WIGGLE_ROOM, p.expireAt);
  }

  lemma MemoryStep(cfg: Config, s: State, step: Step)
    requires Timing(cfg, s) && Memory(cfg, s) && Enabled(s, step)
    ensures Memory(cfg, Do(cfg, s, step))
  {
    var s' := Do(cfg, s, step);
    if step.WriteForce? {
      assert ProcTimes(cfg, s, s.procs[step.pid]);
    }
    forall u, v | (u, v) in s'.forced
      ensures Remembered(cfg, s', u, v)
    {
      if (u, v) in s.forced {
        StillRemembered(cfg, s, step, u, v);
      } else {
        NewlyRemembered(cfg, s, step.pid);
      }
    }
  }

  /** Only tokens that are alive are renewed from or parsed, and only ids never used before are given out. */
  lemma OnlyLiveTokens(s: State, step: Step)
    requires Enabled(s, step)
    ensures step.Renew? ==> step.rt in s.renewable && step.rt.issuedAt * SECOND <= s.now < step.rt.expiresAt * SECOND
    ensures step.ParseAuth? ==> step.at in s.released && step.at.issuedAt * SECOND <= s.now < step.at.expiresAt * SECOND
    ensures step.Start? || step.Renew? ==> step.rid != "" && step.rid !in s.used
  {
  }

  // ---- every reachable state ----

  ghost predicate Invariant(cfg: Config, s: State) {
    Ownership(s) && Timing(cfg, s) && Memory(cfg, s)
  }

  lemma {:induction false} RunKeepsInvariant(cfg: Config, s: State, steps: seq<Step>)
    requires Invariant(cfg, s) && Run(cfg, s, steps).Some?
    ensures Invariant(cfg, Run(cfg, s, steps).value)
    decreases |steps|
  {
    if steps == [] {
    } else {
      OwnershipStep(cfg, s, steps[0]);
      TimingStep(cfg, s, steps[0]);
      MemoryStep(cfg, s, steps[0]);
      RunKeepsInvariant(cfg, Do(cfg, s, steps[0]), steps[1..]);
    }
  }

  lemma ReachableInvariant(cfg: Config, s: State)
    requires Reachable(cfg, s)
    ensures Invariant(cfg, s)
  {
    var steps :| Run(cfg, INITIAL, steps) == Some(s);
    RunKeepsInvariant(cfg, INITIAL, steps);
  }

  // How long after parsing its auth cookie a request may read the cache: a refresh that rejects a token is at
  // least a second later than the token, and is remembered for the extra minute longer.
  const GRACE: nat := (WIGGLE_ROOM + 1) * SECOND

  /** Process `pid` parsed an auth token and reads the cache within the delay. */
  predicate ChecksWithin(s: State, pid: nat, delay: nat) {
    pid in s.procs && s.procs[pid].Checking? && s.now <= s.procs[pid].parsedAt + delay
  }

  /** Process `pid` is about to upsert the session's row. */
  predicate Upserts(s: State, pid: nat, session: ID) {
    pid in s.procs && s.procs[pid].Stamped? && s.procs[pid].rt.session == session
  }

  /** No forced refresh of the token's user that has completed carries a time later than the second the token
      was issued in. */
  ghost predicate NotForced(s: State, at: AuthToken) {
    forall v :: (at.user, v) in s.forced ==> v <= at.issuedAt
  }

  lemma RejectedIsRemembered(cfg: Config, s: State, pid: nat, v: nat)
    requires Invariant(cfg, s) && ChecksWithin(s, pid, GRACE)
    requires (s.procs[pid].at.user, v) in s.forced && s.procs[pid].at.issuedAt < v
    ensures !FastPath(s, s.procs[pid].at)
  {
    var at := s.procs[pid].at;
    assert ProcTimes(cfg, s, s.procs[pid]) && ProcOwned(s, s.procs[pid]) && TokenTimes(cfg, s, at);
    assert Remembered(cfg, s, at.user, v);
    Milestone(at.expiresAt + WIGGLE_ROOM + 1, v + cfg.authTTL + WIGGLE_ROOM);
  }

  /** In every reachable state, a request that parsed an unexpired auth token and reads the cache within 61
      seconds takes the fast path if and only if no forced refresh of its user that has completed carries a
      time later than the second the token was issued in. */
  lemma FastPathIsExact(cfg: Config, s: State, pid: nat)
    requires Reachable(cfg, s) && ChecksWithin(s, pid, GRACE)
    ensures FastPath(s, s.procs[pid].at) <==> NotForced(s, s.procs[pid].at)
  {
    ReachableInvariant(cfg, s);
    var at := s.procs[pid].at;
    if v :| (at.user, v) in s.forced && at.issuedAt < v {
      RejectedIsRemembered(cfg, s, pid, v);
    }
  }

  /** Whose token a request with a token of an ended session holds, and when it was issued. */
  lemma TokenOfEnded(cfg: Config, s: State, e: End, at: AuthToken)
    requires Invariant(cfg, s) && e in s.ended && at in s.released && at.session == e.session
    ensures at.user == e.user && at.issuedAt <= e.value && (e.user, e.value) in s.forced
  {
    assert HasRow(s, at.session, at.user) && EndedRow(s, e.session, e.user);
    assert StampedInTime(s, at) && ForceTimes(s, Some(e.session), e.value);
  }

  /** Once a session has been ended with both writes done: no upsert for it grants tokens any more, and a
      request with one of its auth tokens (reading the cache within 61 seconds) is authenticated on the fast
      path if and only if the token was issued in the very second of the session's end, and that is the user's
      latest forced refresh. */
  lemma EndedSession(cfg: Config, s: State, e: End)
    requires Reachable(cfg, s) && e in s.ended
    ensures forall pid :: Upserts(s, pid, e.session) ==> Do(cfg, s, UpsertRow(pid)).procs[pid].Refused?
    ensures forall pid :: ChecksWithin(s, pid, GRACE) && s.procs[pid].at.session == e.session ==>
              (FastPath(s, s.procs[pid].at)
               <==> s.procs[pid].at.issuedAt == e.value && forall v :: (e.user, v) in s.forced ==> v <= e.value)
  {
    ReachableInvariant(cfg, s);
    forall pid | ChecksWithin(s, pid, GRACE) && s.procs[pid].at.session == e.session
      ensures FastPath(s, s.procs[pid].at)
         <==> s.procs[pid].at.issuedAt == e.value && forall v :: (e.user, v) in s.forced ==> v <= e.value
    {
      assert ProcOwned(s, s.procs[pid]);
      TokenOfEnded(cfg, s, e, s.procs[pid].at);
      FastPathIsExact(cfg, s, pid);
    }
  }

  /** Within a minute the forced refresh is still in the cache. */
  lemma EndIsCached(cfg: Config, s: State, e: End, pid: nat)
    requires Reachable(cfg, s) && e in s.ended
    requires ChecksWithin(s, pid, WIGGLE_ROOM * SECOND) && s.procs[pid].at.session == e.session
    ensures CachedTime(s.cache, e.user, s.now).Some?
    ensures FastPath(s, s.procs[pid].at) <==> s.procs[pid].at.issuedAt == CachedTime(s.cache, e.user, s.now).value
  {
    ReachableInvariant(cfg, s);
    var at := s.procs[pid].at;
    assert ProcTimes(cfg, s, s.procs[pid]) && ProcOwned(s, s.procs[pid]) && TokenTimes(cfg, s, at);
    TokenOfEnded(cfg, s, e, at);
    assert Remembered(cfg, s, e.user, e.value);
    Milestone(at.expiresAt + WIGGLE_ROOM, e.value + cfg.authTTL + WIGGLE_ROOM);
  }

  /** All tokens that were granted for the ended session, handed out or not, were issued in an earlier second
      than the forced refresh of its end. */
  ghost predicate EndedLater(s: State, e: End) {
    && e in s.ended
    && (forall at :: at in s.released && at.session == e.session ==> at.issuedAt < e.value)
    && (forall pid :: pid in s.procs && s.procs[pid].Granted? && s.procs[pid].at.session == e.session ==>
          s.procs[pid].at.issuedAt < e.value)
  }

  /** An ended session gets no further tokens. */
  lemma NoNewGrants(cfg: Config, s: State, step: Step, e: End)
    requires Invariant(cfg, s) && EndedLater(s, e) && Enabled(s, step)
    ensures EndedLater(Do(cfg, s, step), e)
  {
    if step.UpsertRow? {
      UpsertIsRefused(cfg, s, step.pid, e);
    } else {
      GrantsOnlyMove(cfg, s, step);
    }
  }

  /** Other steps than upserting only move granted tokens along. */
  lemma GrantsOnlyMove(cfg: Config, s: State, step: Step)
    requires Enabled(s, step) && !step.UpsertRow?
    ensures var s' := Do(cfg, s, step);
            && s.ended <= s'.ended
            && (forall pid :: pid in s'.procs && s'.procs[pid].Granted? ==>
                  pid in s.procs && s.procs[pid] == s'.procs[pid])
            && (forall at :: at in s'.released ==>
                  at in s.released || exists pid :: pid in s.procs && s.procs[pid].Granted? && s.procs[pid].at == at)
  {
  }

  lemma UpsertIsRefused(cfg: Config, s: State, pid: nat, e: End)
    requires Invariant(cfg, s) && EndedLater(s, e) && Enabled(s, UpsertRow(pid))
    ensures EndedLater(Do(cfg, s, UpsertRow(pid)), e)
  {
    assert ProcOwned(s, s.procs[pid]) && EndedRow(s, e.session, e.user);
  }

  lemma {:induction false} StaysEnded(cfg: Config, s: State, e: End, steps: seq<Step>)
    requires Invariant(cfg, s) && EndedLater(s, e) && Run(cfg, s, steps).Some?
    ensures EndedLater(Run(cfg, s, steps).value, e)
    decreases |steps|
  {
    if steps == [] {
    } else {
      NoNewGrants(cfg, s, steps[0], e);
      RunKeepsInvariant(cfg, s, steps[..1]);
      assert steps[..1][1..] == [];
      StaysEnded(cfg, Do(cfg, s, steps[0]), e, steps[1..]);
    }
  }

  lemma {:induction false} RunAppend(cfg: Config, s: State, done: seq<Step>, more: seq<Step>)
    requires Run(cfg, s, done).Some?
    ensures Run(cfg, s, done + more) == Run(cfg, Run(cfg, s, done).value, more)
    decreases |done|
  {
    if done == [] {
      assert done + more == more;
    } else {
      assert (done + more)[1..] == done[1..] + more;
      RunAppend(cfg, Do(cfg, s, done[0]), done[1..], more);
    }
  }

  lemma ReachableFurther(cfg: Config, s: State, more: seq<Step>)
    requires Reachable(cfg, s) && Run(cfg, s, more).Some?
    ensures Reachable(cfg, Run(cfg, s, more).value)
  {
    var done :| Run(cfg, INITIAL, done) == Some(s);
    RunAppend(cfg, INITIAL, done, more);
  }

  /** A session ended in a later second than its tokens were issued in is over for good: after any further
      steps, no upsert for it grants tokens and none of its auth tokens passes the fast path. */
  lemma EndedForGood(cfg: Config, s: State, e: End, steps: seq<Step>)
    requires Reachable(cfg, s) && EndedLater(s, e) && Run(cfg, s, steps).Some?
    ensures var s' := Run(cfg, s, steps).value;
            && (forall pid :: Upserts(s', pid, e.session) ==> Do(cfg, s', UpsertRow(pid)).procs[pid].Refused?)
            && (forall pid :: ChecksWithin(s', pid, GRACE) && s'.procs[pid].at.session == e.session ==>
                  !FastPath(s', s'.procs[pid].at))
  {
    ReachableInvariant(cfg, s);
    StaysEnded(cfg, s, e, steps);
    ReachableFurther(cfg, s, steps);
    var s' := Run(cfg, s, steps).value;
    EndedSession(cfg, s', e);
    ReachableInvariant(cfg, s');
    forall pid | ChecksWithin(s', pid, GRACE) && s'.procs[pid].at.session == e.session
      ensures !FastPath(s', s'.procs[pid].at)
    {
      assert ProcOwned(s', s'.procs[pid]);
    }
  }

  /** Tokens that were granted, or handed out, for a session that has been ended were stamped no later
      than its forced refresh. */
  lemma GrantedBeforeTheEnd(cfg: Config, s: State, e: End)
    requires Reachable(cfg, s) && e in s.ended
    ensures forall pid :: pid in s.procs && s.procs[pid].Granted? && s.procs[pid].at.session == e.session ==>
              s.procs[pid].at.issuedAt <= e.value
    ensures forall at :: at in s.released && at.session == e.session ==> at.issuedAt <= e.value
  {
    ReachableInvariant(cfg, s);
    assert ForceTimes(s, Some(e.session), e.value);
    forall pid | pid in s.procs && s.procs[pid].Granted? && s.procs[pid].at.session == e.session
      ensures s.procs[pid].at.issuedAt <= e.value
    {
      assert ProcTimes(cfg, s, s.procs[pid]);
    }
  }

  /** Every token in circulation carries non-empty user and session ids. */
  lemma CirculatingTokensNameSessions(cfg: Config, s: State)
    requires Reachable(cfg, s)
    ensures forall at :: at in s.released ==> at.user != "" && at.session != ""
    ensures forall rt :: rt in s.renewable ==> rt.user != "" && rt.session != ""
  {
    ReachableInvariant(cfg, s);
    forall at | at in s.released
      ensures at.user != "" && at.session != ""
    {
      assert HasRow(s, at.session, at.user);
    }
    forall rt | rt in s.renewable
      ensures rt.user != "" && rt.session != ""
    {
      assert HasRow(s, rt.session, rt.user);
    }
  }
}

// The migration run itself: which scripts it applies, through which client, and when it crashes.
module MigrationRun {
  import opened Wrappers
  import opened Migrations

  /** What connecting as the ordinary role gives. */
  datatype Connect = Ready | NoRole | Refused

  /** The scripts from `from + 1` to `to`, all run by one client. */
  function Ups(from: nat, to: nat, role: Role): seq<Script>
    requires from <= to
  {
    seq(to - from, i requires 0 <= i < to - from => Up(from + 1 + i, role))
  }

  function Downs(from: nat, to: nat, role: Role): seq<Script>
    requires to <= from
  {
    seq(from - to, i requires 0 <= i < from - to => Down(from - i, role))
  }

  /** No script from `from + 1` to `to` fails. */
  predicate Intact(broken: set<nat>, from: nat, to: nat) {
    forall v :: from < v <= to ==> v !in broken
  }

  /** A database with its migration directory; scripts in `broken` fail when they are run. */
  class Database {
    const files: seq<File>
    const broken: set<nat>
    var version: nat
    var dirty: bool
    var log: seq<Script>
    var calls: seq<Call>

    constructor (files: seq<File>, broken: set<nat>)
      ensures this.files == files && this.broken == broken
      ensures version == 0 && !dirty && log == [] && calls == []
    {
      this.files, this.broken := files, broken;
      version, dirty, log, calls := 0, false, [], [];
    }

    /** Runs scripts upward until the target is reached or one fails, which leaves its version dirty. */
    method ApplyThrough(target: nat, role: Role) returns (out: Outcome)
      requires version <= target && !dirty
      modifies this`version, this`dirty, this`log
      ensures out == Done <==> Intact(broken, old(version), target)
      ensures out == Done ==> version == target && !dirty && log == old(log) + Ups(old(version), target, role)
      ensures out != Done ==>
                && out == Failed(ScriptFailed(version)) && dirty && version in broken
                && old(version) < version <= target && log == old(log) + Ups(old(version), version - 1, role)
    {
      while version < target
        invariant old(version) <= version <= target && !dirty && Intact(broken, old(version), version)
        invariant log == old(log) + Ups(old(version), version, role)
        decreases target - version
      {
        version := version + 1;
        if version in broken {
          dirty := true;
          return Failed(ScriptFailed(version));
        }
        log := log + [Up(version, role)];
      }
      out := Done;
    }

    /** Brings the database to one version, up or down. */
    method MigrateTo(target: nat, role: Role) returns (out: Outcome)
      modifies this
      ensures calls == old(calls) + [Call(old(version), target)]
      ensures old(dirty) ==> out == Failed(DirtyDatabase)
      ensures !old(dirty) && !(1 <= target <= Newest(files)) ==> out == Failed(NoSuchVersion)
      ensures old(dirty) || !(1 <= target <= Newest(files)) ==>
                version == old(version) && dirty == old(dirty) && log == old(log)
      ensures !old(dirty) && 1 <= target <= Newest(files) && target == old(version) ==>
                out == NoChange && version == target && !dirty && log == old(log)
      ensures !old(dirty) && 1 <= target <= Newest(files) && target < old(version) ==>
                out == Done && version == target && !dirty && log == old(log) + Downs(old(version), target, role)
      ensures !old(dirty) && old(version) < target <= Newest(files) ==>
                (out == Done <==> Intact(broken, old(version), target))
      ensures !old(dirty) && old(version) < target <= Newest(files) ==>
                if out == Done then version == target && !dirty && log == old(log) + Ups(old(version), target, role)
                else
                  && out == Failed(ScriptFailed(version)) && dirty && version in broken
                  && old(version) < version <= target && log == old(log) + Ups(old(version), version - 1, role)
    {
      calls := calls + [Call(version, target)];
      if dirty {
        return Failed(DirtyDatabase);
      }
      if target == 0 || target > Newest(files) {
        return Failed(NoSuchVersion);
      }
      if target == version {
        return NoChange;
      }
      if target > version {
        out := ApplyThrough(target, role);
        return;
      }
      while version > target
        invariant target <= version <= old(version) && !dirty && calls == old(calls) + [Call(old(version), target)]
        invariant log == old(log) + Downs(old(version), version, role)
        decreases version
      {
        log := log + [Down(version, role)];
        version := version - 1;
      }
      out := Done;
    }

    /** Runs every pending script. */
    method UpAll(role: Role) returns (out: Outcome)
      requires version <= Newest(files)
      modifies this`version, this`dirty, this`log
      ensures old(dirty) ==> out == Failed(DirtyDatabase)
      ensures !old(dirty) && old(version) == Newest(files) ==> out == NoChange
      ensures old(dirty) || old(version) == Newest(files) ==>
                version == old(version) && dirty == old(dirty) && log == old(log)
      ensures !old(dirty) && old(version) < Newest(files) ==>
                (out == Done <==> Intact(broken, old(version), Newest(files)))
      ensures !old(dirty) && old(version) < Newest(files) ==>
                if out == Done then
                  version == Newest(files) && !dirty && log == old(log) + Ups(old(version), version, role)
                else
                  && out == Failed(ScriptFailed(version)) && dirty && version in broken
                  && old(version) < version <= Newest(files) && log == old(log) + Ups(old(version), version - 1, role)
    {
      if dirty {
        return Failed(DirtyDatabase);
      }
      if version == Newest(files) {
        return NoChange;
      }
      out := ApplyThrough(Newest(files), role);
    }
  }

  // ---- what a run should do ----

  /** The versions whose scripts ask for the superuser. */
  function Marked(files: seq<File>): set<nat> {
    match Collect(files)
    case None => {}
    case Some(found) => found.versions
  }

  function LatestSuper(files: seq<File>): nat {
    match Collect(files)
    case None => 0
    case Some(found) => found.latest
  }

  function RoleFor(marked: set<nat>, v: nat): Role {
    if v in marked then Super else Ordinary
  }

  /** Every version above `from` up to `to`, once and in order, each through the client it asks for. */
  function Plan(marked: set<nat>, from: nat, to: nat): seq<Script>
    requires from <= to
  {
    seq(to - from, i requires 0 <= i < to - from => Up(from + 1 + i, RoleFor(marked, from + 1 + i)))
  }

  lemma PlanGrows(marked: set<nat>, from: nat, mid: nat, to: nat, role: Role)
    requires from <= mid <= to
    requires forall v :: mid < v <= to ==> RoleFor(marked, v) == role
    ensures Plan(marked, from, to) == Plan(marked, from, mid) + Ups(mid, to, role)
  {
  }

  /** A plan names every version of its range, in ascending order and hence once, with the superuser for
      exactly the versions that ask for it. */
  lemma PlanIsExact(marked: set<nat>, from: nat, to: nat)
    requires from <= to
    ensures var p := Plan(marked, from, to);
            && (forall v: nat, role: Role :: Up(v, role) in p <==> from < v <= to && role == RoleFor(marked, v))
            && (forall i, j :: 0 <= i < j < |p| ==> p[i].Up? && p[j].Up? && p[i].version < p[j].version)
  {
    var p := Plan(marked, from, to);
    forall v: nat, role: Role | from < v <= to && role == RoleFor(marked, v)
      ensures Up(v, role) in p
    {
      assert p[v - from - 1] == Up(v, role);
    }
  }

  /** A script that asks for the superuser is still to be run. */
  ghost predicate SuperPending(files: seq<File>, version: nat) {
    exists v :: version < v && NeedsSuper(files, v)
  }

  /** The ordinary role does not exist, or connecting works and a script that asks for the superuser is pending. */
  ghost predicate AsksForSuper(files: seq<File>, version: nat, probe: Connect) {
    probe == NoRole || (probe == Ready && SuperPending(files, version))
  }

  /** Looking at the latest script for the superuser is enough. */
  lemma LatestIsEnough(files: seq<File>, version: nat, probe: Connect)
    requires Contiguous(files)
    ensures SuperRequired(files, version, probe) <==> AsksForSuper(files, version, probe)
  {
    SuperOfContiguous(files);
    if version < LatestSuper(files) {
      assert NeedsSuper(files, LatestSuper(files));
    }
  }

  predicate SuperRequired(files: seq<File>, version: nat, probe: Connect) {
    probe == NoRole || (probe == Ready && version < LatestSuper(files))
  }

  method SuperUserRequired(db: Database, probe: Connect) returns (r: Result<bool, Reason>)
    ensures probe == Refused ==> r == Err(ClientFailed)
    ensures probe != Refused && (probe == NoRole || Collect(db.files).Some?) ==>
              r == Ok(SuperRequired(db.files, db.version, probe))
    ensures probe == Ready && Collect(db.files).None? ==> r == Err(BadFileName)
    ensures Contiguous(db.files) && probe != Refused ==> r == Ok(AsksForSuper(db.files, db.version, probe))
  {
    if Contiguous(db.files) {
      SuperOfContiguous(db.files);
      LatestIsEnough(db.files, db.version, probe);
    }
    if probe == NoRole {
      return Ok(true);
    }
    if probe == Refused {
      return Err(ClientFailed);
    }
    var found := FindSuperMigrations(db.files);
    if found.None? {
      return Err(BadFileName);
    }
    r := Ok(db.version < found.value.latest);
  }

  /** The last version of the unbroken series of superuser scripts that starts at `v`. */
  function SeriesEnd(marked: set<nat>, v: nat): (e: nat)
    requires v in marked
    ensures v <= e && (forall u :: v <= u <= e ==> u in marked) && e + 1 !in marked
    decreases |Above(marked, v)|
  {
    AboveShrinks(marked, v);
    if v + 1 in marked then SeriesEnd(marked, v + 1) else v
  }

  ghost function Above(marked: set<nat>, v: nat): set<nat> {
    set u | u in marked && u > v
  }

  lemma AboveShrinks(marked: set<nat>, v: nat)
    ensures v + 1 in marked ==> |Above(marked, v + 1)| < |Above(marked, v)|
  {
    if v + 1 in marked {
      assert Above(marked, v) == Above(marked, v + 1) + {v + 1};
    }
  }

  lemma SeriesEndsAt(marked: set<nat>, v: nat, e: nat)
    requires v <= e && e + 1 !in marked
    requires forall u :: v <= u <= e ==> u in marked
    ensures SeriesEnd(marked, v) == e
    decreases e - v
  {
    if v == e {
    } else {
      SeriesEndsAt(marked, v + 1, e);
    }
  }

  /** The ordinary role, missing at the start, can be used after the first series of superuser scripts, and
      before any script of its own: the next script asks for the superuser, its series is not the last, and
      by then connecting succeeds. */
  predicate RoleAppears(marked: set<nat>, latest: nat, version: nat, connect: nat -> Connect) {
    && version + 1 in marked
    && SeriesEnd(marked, version + 1) < latest
    && connect(SeriesEnd(marked, version + 1)) == Ready
  }

  /** The ordinary client, missing at the start, is used although it is still missing: at once when the next
      script is not for the superuser, and otherwise after the first series of superuser scripts, if that runs
      through, unless it is followed by a later series and connecting has an outcome other than a missing role. */
  predicate UsesMissing(marked: set<nat>, latest: nat, broken: set<nat>, dirty: bool, version: nat,
                        connect: nat -> Connect)
  {
    version + 1 in marked ==>
      var end := SeriesEnd(marked, version + 1);
      !dirty && Intact(broken, version, end) && (end < latest ==> connect(end) == NoRole)
  }

  /** The version up to which scripts have completely run. */
  function Reached(version: nat, dirty: bool): nat {
    if dirty && version > 0 then version - 1 else version
  }

  /** Runs the pending migrations. `probe` is the outcome of the first connection attempt, `connect` that of
      later attempts as the ordinary role when the database is at a given version. */
  method RunMigrations(db: Database, superClient: bool, probe: Connect, connect: nat -> Connect) returns (out: Outcome)
    requires Contiguous(db.files) && db.version <= Newest(db.files)
    modifies db
    // A database that an earlier failure left dirty is not touched.
    ensures old(db.dirty) ==> StillDirty(db, old(db.version), old(db.log)) && out != Done && out != NoChange
    // Success: every pending script was applied exactly once, in order, by the client it asks for.
    ensures out == Done ==>
              && db.version == Newest(db.files) && !db.dirty
              && db.log == old(db.log) + Plan(Marked(db.files), old(db.version), Newest(db.files))
    // Any outcome: what was applied is a prefix of that.
    ensures !old(db.dirty) ==>
              && old(db.version) <= Reached(db.version, db.dirty) <= Newest(db.files)
              && db.log == old(db.log) + Plan(Marked(db.files), old(db.version), Reached(db.version, db.dirty))
              && (db.dirty ==> out == Failed(ScriptFailed(db.version)) && db.version in db.broken)
    // Progress: no call asks for the version the database already has, or for an older one.
    ensures Upward(old(db.calls), db.calls)
    // Only a run without the superuser reports that nothing was pending.
    ensures out == NoChange ==>
              !AsksForSuper(db.files, old(db.version), probe) && db.version == old(db.version) == Newest(db.files)
    ensures probe == Refused ==> out == Failed(ClientFailed)
    ensures AsksForSuper(db.files, old(db.version), probe) && !superClient ==> out == Failed(SuperuserMissing)
    // Without need for the superuser: exactly when the run crashes, and when it succeeds.
    ensures probe == Ready && !AsksForSuper(db.files, old(db.version), probe) ==>
              && (out == Panicked <==> connect(old(db.version)) != Ready)
              && (out == NoChange <==>
                    && connect(old(db.version)) == Ready && !old(db.dirty) && old(db.version) == Newest(db.files))
              && (out == Done <==>
                    && connect(old(db.version)) == Ready && !old(db.dirty) && old(db.version) < Newest(db.files)
                    && Intact(db.broken, old(db.version), Newest(db.files)))
    // With the superuser, the ordinary client being there, refused or missing at the start.
    ensures AsksForSuper(db.files, old(db.version), probe) && superClient ==>
              match connect(old(db.version))
              case Ready =>
                && out != Panicked
                && (out == Done <==> !old(db.dirty) && Intact(db.broken, old(db.version), Newest(db.files)))
              case Refused => out == Failed(ClientFailed)
              case NoRole =>
                var marked, latest := Marked(db.files), LatestSuper(db.files);
                && (out == Panicked <==>
                      UsesMissing(marked, latest, db.broken, old(db.dirty), old(db.version), connect))
                && (out == Done <==>
                      && RoleAppears(marked, latest, old(db.version), connect) && !old(db.dirty)
                      && Intact(db.broken, old(db.version), Newest(db.files)))
  {
    SuperOfContiguous(db.files);
    LatestIsEnough(db.files, db.version, probe);
    var superRequired := SuperUserRequired(db, probe);
    if superRequired.Err? {
      return Failed(superRequired.error);
    }
    if superRequired.value && !superClient {
      return Failed(SuperuserMissing);
    }
    var curVer := db.version;
    if !superRequired.value {
      if connect(curVer) != Ready {
        return Panicked;
      }
      out := RunRest(db, Marked(db.files), old(db.log), curVer);
      return;
    }
    if connect(curVer) == Refused {
      return Failed(ClientFailed);
    }
    var loaded := connect(curVer) == Ready;
    out := RunRequired(db, connect, curVer, loaded);
  }

  /** Runs the scripts up to `target`, all of which are for `role`, as the next part of a plan from `cur`. */
  method RunPart(db: Database, ghost marked: set<nat>, ghost base: seq<Script>, ghost cur: nat, target: nat,
                 role: Role)
    returns (out: Outcome)
    requires cur <= db.version < target <= Newest(db.files)
    requires db.log == base + Plan(marked, cur, db.version)
    requires forall v :: db.version < v <= target ==> RoleFor(marked, v) == role
    modifies db
    ensures db.calls == old(db.calls) + [Call(old(db.version), target)]
    ensures old(db.dirty) ==> out == Failed(DirtyDatabase) && StillDirty(db, old(db.version), old(db.log))
    ensures !old(db.dirty) ==>
              && cur <= Reached(db.version, db.dirty) <= target
              && db.log == base + Plan(marked, cur, Reached(db.version, db.dirty))
              && (out == Done <==> Intact(db.broken, old(db.version), target))
              && if out == Done then db.version == target && !db.dirty
                 else
                   && out == Failed(ScriptFailed(db.version)) && db.dirty && db.version in db.broken
                   && old(db.version) < db.version <= target
  {
    ghost var from := db.version;
    out := db.MigrateTo(target, role);
    if out != Failed(DirtyDatabase) {
      PlanGrows(marked, cur, from, Reached(db.version, db.dirty), role);
    }
  }

  /** A database left dirty by an earlier run is not touched. */
  ghost predicate StillDirty(db: Database, version: nat, log: seq<Script>)
    reads db
  {
    db.dirty && db.version == version && db.log == log
  }

  /** Runs all scripts that are left as the ordinary role. */
  method RunRest(db: Database, ghost marked: set<nat>, ghost base: seq<Script>, ghost cur: nat) returns (out: Outcome)
    requires cur <= db.version <= Newest(db.files)
    requires db.log == base + Plan(marked, cur, db.version)
    requires forall v :: db.version < v <= Newest(db.files) ==> RoleFor(marked, v) == Ordinary
    modifies db
    ensures db.calls == old(db.calls)
    ensures old(db.dirty) ==> out == Failed(DirtyDatabase) && StillDirty(db, old(db.version), old(db.log))
    ensures !old(db.dirty) ==>
              && cur <= Reached(db.version, db.dirty) <= Newest(db.files)
              && db.log == base + Plan(marked, cur, Reached(db.version, db.dirty))
              && (out == NoChange <==> old(db.version) == Newest(db.files))
              && (out == Done || out == NoChange <==> Intact(db.broken, old(db.version), Newest(db.files)))
              && if out == Done || out == NoChange then db.version == Newest(db.files) && !db.dirty
                 else
                   && out == Failed(ScriptFailed(db.version)) && db.dirty && db.version in db.broken
                   && old(db.version) < db.version <= Newest(db.files)
  {
    ghost var from := db.version;
    out := db.UpAll(Ordinary);
    if out != Failed(DirtyDatabase) {
      PlanGrows(marked, cur, from, Reached(db.version, db.dirty), Ordinary);
    }
  }

  /** The loop looks at version `ver` with the database at `b`: every version in between is for the
      superuser when a superuser series is under way, and for the ordinary role otherwise. */
  ghost predicate At(marked: set<nat>, cur: nat, latest: nat, b: nat, ver: nat, superStreak: bool) {
    && cur <= b < ver <= (if latest > cur then latest else cur) + 1
    && (forall v :: b < v < ver ==> (v in marked <==> superStreak))
    && (superStreak || b > cur ==> b + 1 < ver)
    && (latest < ver && cur < latest ==> superStreak)
  }

  /** Whether the ordinary client has been loaded, given that it was missing at the start and that the
      database has reached version `b`. */
  ghost predicate LoadState(marked: set<nat>, cur: nat, latest: nat, connect: nat -> Connect, b: nat, loaded: bool)
  {
    if b == cur then !loaded
    else
      && cur + 1 in marked
      && SeriesEnd(marked, cur + 1) <= b && SeriesEnd(marked, cur + 1) < latest
      && (loaded ==> connect(SeriesEnd(marked, cur + 1)) == Ready)
      && (!loaded ==> b == SeriesEnd(marked, cur + 1) && connect(b) == NoRole)
  }

  /** A pending script has failed and left its version dirty. */
  ghost predicate FailedPending(db: Database, cur: nat)
    reads db
  {
    db.dirty && cur < db.version <= Newest(db.files) && db.version in db.broken
  }

  /** All calls since `before` asked for a later version than the database had. */
  ghost predicate Upward(before: seq<Call>, after: seq<Call>) {
    before <= after && forall i :: |before| <= i < |after| ==> after[i].from < after[i].target
  }

  lemma OneMoreCall(before: seq<Call>, after: seq<Call>, call: Call)
    requires Upward(before, after) && call.from < call.target
    ensures Upward(before, after + [call])
  {
  }

  /** The loop finds the ordinary client missing. */
  lemma FoundMissing(marked: set<nat>, latest: nat, connect: nat -> Connect, broken: set<nat>, dirty: bool, cur: nat,
                     b: nat, ver: nat)
    requires At(marked, cur, latest, b, ver, false) && ver - 1 != cur
    requires LoadState(marked, cur, latest, connect, b, false) && Intact(broken, cur, b) && (dirty ==> b == cur)
    ensures UsesMissing(marked, latest, broken, dirty, cur, connect)
  {
  }

  /** A superuser series fails: the first one, or a later one after the client has been loaded. */
  lemma NotMissing(marked: set<nat>, latest: nat, connect: nat -> Connect, broken: set<nat>, dirty: bool, cur: nat,
                   b: nat, ver: nat, loaded: bool)
    requires At(marked, cur, latest, b, ver, true) && LoadState(marked, cur, latest, connect, b, loaded)
    requires ver !in marked && (!loaded ==> b == cur) && (dirty || !Intact(broken, b, ver - 1))
    ensures !UsesMissing(marked, latest, broken, dirty, cur, connect)
  {
    if b == cur {
      SeriesEndsAt(marked, cur + 1, ver - 1);
    }
  }

  /** What a run of the loop starts from; `initially` says whether the ordinary client was there. */
  datatype Origin = Origin(marked: set<nat>, latest: nat, connect: nat -> Connect, version: nat, dirty: bool,
    log: seq<Script>, calls: seq<Call>, initially: bool)

  /** The loop is about to look at version `ver`. */
  ghost predicate Looping(db: Database, at: Origin, ver: nat, superStreak: bool, loaded: bool)
    reads db
  {
    && at.latest <= Newest(db.files) && (at.latest > 0 ==> at.latest in at.marked)
    && At(at.marked, at.version, at.latest, db.version, ver, superStreak)
    && db.dirty == at.dirty && (db.dirty ==> db.version == at.version)
    && Intact(db.broken, at.version, db.version)
    && db.log == at.log + Plan(at.marked, at.version, db.version)
    && Upward(at.calls, db.calls)
    && (at.initially ==> loaded)
    && (!at.initially ==>
          && LoadState(at.marked, at.version, at.latest, at.connect, db.version, loaded)
          && (!loaded && superStreak ==> db.version == at.version))
  }

  /** The loop has been left early. */
  ghost predicate Stopped(db: Database, at: Origin, out: Outcome)
    reads db
  {
    && out != Done && out != NoChange && (out == Panicked || db.dirty || out == Failed(ClientFailed))
    && (at.dirty ==> StillDirty(db, at.version, at.log))
    && (!at.dirty ==>
          && at.version <= Reached(db.version, db.dirty) <= Newest(db.files)
          && db.log == at.log + Plan(at.marked, at.version, Reached(db.version, db.dirty))
          && (db.dirty ==> out == Failed(ScriptFailed(db.version)) && FailedPending(db, at.version)))
    && Upward(at.calls, db.calls)
    && (at.initially ==> out != Panicked && out != Failed(ClientFailed))
    && (!at.initially ==>
          && (out == Panicked <==> UsesMissing(at.marked, at.latest, db.broken, at.dirty, at.version, at.connect))
          && (out == Failed(ClientFailed) ==>
                && at.version + 1 in at.marked && SeriesEnd(at.marked, at.version + 1) < at.latest
                && at.connect(SeriesEnd(at.marked, at.version + 1)) == Refused))
  }

  /** The loop's state behind a superuser series that ended before `ver`. */
  lemma ClosedSeries(marked: set<nat>, latest: nat, connect: nat -> Connect, cur: nat, b: nat, ver: nat,
                     wasLoaded: bool, loaded: bool)
    requires At(marked, cur, latest, b, ver, true) && ver <= latest && ver !in marked && latest in marked
    requires LoadState(marked, cur, latest, connect, b, wasLoaded) && (!wasLoaded ==> b == cur)
    requires loaded == (wasLoaded || connect(ver - 1) == Ready) && (!loaded ==> connect(ver - 1) == NoRole)
    ensures At(marked, cur, latest, ver - 1, ver + 1, false)
    ensures LoadState(marked, cur, latest, connect, ver - 1, loaded)
  {
    if b == cur {
      SeriesEndsAt(marked, cur + 1, ver - 1);
    }
  }

  /** Connecting is refused behind the first superuser series. */
  lemma RefusedBehindSeries(marked: set<nat>, latest: nat, connect: nat -> Connect, broken: set<nat>, dirty: bool,
                            cur: nat, ver: nat)
    requires At(marked, cur, latest, cur, ver, true) && ver <= latest && ver !in marked && latest in marked
    requires connect(ver - 1) == Refused
    ensures cur + 1 in marked && SeriesEnd(marked, cur + 1) == ver - 1 < latest
    ensures !UsesMissing(marked, latest, broken, dirty, cur, connect)
  {
    SeriesEndsAt(marked, cur + 1, ver - 1);
  }

  /** A superuser series begins at `ver`: everything before it is for the ordinary role. */
  method OpenSeries(db: Database, ghost at: Origin, curVer: nat, ver: nat, loaded: bool) returns (out: Outcome)
    requires Looping(db, at, ver, false, loaded) && curVer == at.version && ver <= at.latest && ver in at.marked
    modifies db
    ensures if out == Done then Looping(db, at, ver + 1, true, loaded) else Stopped(db, at, out)
  {
    if ver - 1 != curVer {
      if !loaded {
        FoundMissing(at.marked, at.latest, at.connect, db.broken, db.dirty, at.version, db.version, ver);
        return Panicked;
      }
      OneMoreCall(at.calls, db.calls, Call(db.version, ver - 1));
      out := RunPart(db, at.marked, at.log, at.version, ver - 1, Ordinary);
      return;
    }
    out := Done;
  }

  /** A superuser series has ended before `ver`; afterwards the ordinary client is loaded if it can be. */
  method CloseSeries(db: Database, ghost at: Origin, connect: nat -> Connect, ver: nat, wasLoaded: bool)
    returns (out: Outcome, loaded: bool)
    requires Looping(db, at, ver, true, wasLoaded) && connect == at.connect && ver <= at.latest && ver !in at.marked
    modifies db
    ensures if out == Done then Looping(db, at, ver + 1, false, loaded) else Stopped(db, at, out)
  {
    ghost var b := db.version;
    loaded := wasLoaded;
    OneMoreCall(at.calls, db.calls, Call(b, ver - 1));
    out := RunPart(db, at.marked, at.log, at.version, ver - 1, Super);
    if out != Done {
      if !at.initially {
        NotMissing(at.marked, at.latest, at.connect, db.broken, at.dirty, at.version, b, ver, loaded);
      }
      return;
    }
    out, loaded := LoadMigrate(db, connect, loaded);
    if out != Done {
      RefusedBehindSeries(at.marked, at.latest, connect, db.broken, at.dirty, at.version, ver);
    } else if !at.initially {
      ClosedSeries(at.marked, at.latest, connect, at.version, b, ver, wasLoaded, loaded);
    }
  }

  /** Connects as the ordinary role unless that has been done; a missing role is no error yet. */
  method LoadMigrate(db: Database, connect: nat -> Connect, wasLoaded: bool) returns (out: Outcome, loaded: bool)
    ensures wasLoaded ==> out == Done && loaded
    ensures !wasLoaded ==>
              && out == (if connect(db.version) == Refused then Failed(ClientFailed) else Done)
              && loaded == (connect(db.version) == Ready)
  {
    if wasLoaded {
      return Done, true;
    }
    if connect(db.version) == Refused {
      return Failed(ClientFailed), false;
    }
    return Done, connect(db.version) == Ready;
  }

  /** The alternating loop. On success it stops behind the last version that is for the superuser, with the
      superuser series that ends there, if any, still to be run. */
  method Alternate(db: Database, ghost at: Origin, connect: nat -> Connect, curVer: nat, marked: set<nat>, latest: nat,
                   initially: bool)
    returns (out: Outcome, superStreak: bool, loaded: bool)
    requires at == Origin(marked, latest, connect, db.version, db.dirty, db.log, db.calls, initially)
    requires db.version == curVer <= Newest(db.files) && latest <= Newest(db.files)
    requires (forall v :: v in marked ==> v <= latest) && (latest > 0 ==> latest in marked)
    modifies db
    ensures if out == Done then Looping(db, at, (if latest > curVer then latest else curVer) + 1, superStreak, loaded)
            else Stopped(db, at, out)
  {
    loaded := initially;
    superStreak := false;
    var ver := curVer + 1;
    while ver <= latest
      invariant Looping(db, at, ver, superStreak, loaded)
    {
      if !superStreak && ver in marked {
        superStreak := true;
        out := OpenSeries(db, at, curVer, ver, loaded);
        if out != Done {
          return;
        }
      } else if superStreak && ver !in marked {
        superStreak := false;
        out, loaded := CloseSeries(db, at, connect, ver, loaded);
        if out != Done {
          return;
        }
      }
      ver := ver + 1;
    }
    out := Done;
  }

  /** What follows the loop: the last superuser series if it is still to be run, the check that the ordinary
      client is there, and the rest. */
  method RunLast(db: Database, ghost marked: set<nat>, ghost base: seq<Script>, ghost cur: nat, latest: nat,
                 superStreak: bool, loaded: bool) returns (out: Outcome)
    requires cur <= db.version <= Newest(db.files) && (db.dirty ==> db.version == cur)
    requires db.log == base + Plan(marked, cur, db.version)
    requires superStreak ==> db.version < latest <= Newest(db.files)
    requires forall v :: db.version < v <= Newest(db.files) ==> (v in marked <==> superStreak && v <= latest)
    modifies db
    ensures old(db.dirty) ==> StillDirty(db, old(db.version), old(db.log))
    ensures !old(db.dirty) ==>
              && (out == Done ==> db.version == Newest(db.files) && !db.dirty)
              && cur <= Reached(db.version, db.dirty) <= Newest(db.files)
              && db.log == base + Plan(marked, cur, Reached(db.version, db.dirty))
              && (db.dirty ==> out == Failed(ScriptFailed(db.version)) && FailedPending(db, cur))
    ensures db.calls == old(db.calls) + if superStreak then [Call(old(db.version), latest)] else []
    ensures out != NoChange
    ensures out == Panicked <==>
              !loaded && (superStreak ==> !old(db.dirty) && Intact(db.broken, old(db.version), latest))
    ensures out == Done <==> loaded && !old(db.dirty) && Intact(db.broken, old(db.version), Newest(db.files))
  {
    if superStreak {
      out := RunPart(db, marked, base, cur, latest, Super);
      if out != Done {
        return;
      }
    }
    if !loaded {
      return Panicked;
    }
    out := RunRest(db, marked, base, cur);
    if out == NoChange {
      return Done;
    }
  }

  /** Where the loop leaves the run: only the last superuser series can be left for the superuser, and whether
      the client is still missing decides the outcome. */
  lemma AfterLoop(db: Database, at: Origin, superStreak: bool, loaded: bool)
    requires Looping(db, at, (if at.latest > at.version then at.latest else at.version) + 1, superStreak, loaded)
    requires forall v :: v in at.marked ==> v <= at.latest
    ensures superStreak ==> db.version < at.latest
    ensures forall v :: db.version < v <= Newest(db.files) ==> (v in at.marked <==> superStreak && v <= at.latest)
    ensures Intact(db.broken, at.version, Newest(db.files)) <==> Intact(db.broken, db.version, Newest(db.files))
    ensures !at.initially ==>
              (UsesMissing(at.marked, at.latest, db.broken, db.dirty, at.version, at.connect)
               <==> !loaded && (superStreak ==> !db.dirty && Intact(db.broken, db.version, at.latest)))
    ensures !at.initially ==> (loaded <==> RoleAppears(at.marked, at.latest, at.version, at.connect))
  {
    if superStreak && db.version == at.version {
      SeriesEndsAt(at.marked, at.version + 1, at.latest);
    }
  }

  /** Why a run that has left the loop early could not succeed. */
  lemma AfterStop(db: Database, at: Origin, out: Outcome)
    requires Stopped(db, at, out)
    ensures || at.dirty || !Intact(db.broken, at.version, Newest(db.files))
            || (!at.initially && !RoleAppears(at.marked, at.latest, at.version, at.connect))
  {
    if !at.dirty && db.dirty {
      assert db.version in db.broken;
    }
  }

  /** A run that needs the superuser: the alternating loop, the last superuser series, and the rest. */
  method RunRequired(db: Database, connect: nat -> Connect, curVer: nat, initially: bool) returns (out: Outcome)
    requires Contiguous(db.files) && db.version == curVer <= Newest(db.files)
    modifies db
    ensures old(db.dirty) ==> StillDirty(db, curVer, old(db.log)) && out != Done
    ensures !old(db.dirty) ==>
              && (out == Done ==> db.version == Newest(db.files) && !db.dirty)
              && curVer <= Reached(db.version, db.dirty) <= Newest(db.files)
              && db.log == old(db.log) + Plan(Marked(db.files), curVer, Reached(db.version, db.dirty))
              && (db.dirty ==> out == Failed(ScriptFailed(db.version)) && FailedPending(db, curVer))
    ensures Upward(old(db.calls), db.calls)
    ensures out != NoChange
    ensures initially ==>
              && out != Panicked
              && (out == Done <==> !old(db.dirty) && Intact(db.broken, curVer, Newest(db.files)))
    ensures !initially ==>
              var marked, latest := Marked(db.files), LatestSuper(db.files);
              && (out == Panicked <==> UsesMissing(marked, latest, db.broken, old(db.dirty), curVer, connect))
              && (out == Done <==>
                    && RoleAppears(marked, latest, curVer, connect) && !old(db.dirty)
                    && Intact(db.broken, curVer, Newest(db.files)))
  {
    SuperOfContiguous(db.files);
    var found := FindSuperMigrations(db.files);
    var marked, latest := found.value.versions, found.value.latest;
    var superStreak, loaded;
    ghost var at := Origin(marked, latest, connect, curVer, db.dirty, db.log, db.calls, initially);
    out, superStreak, loaded := Alternate(db, at, connect, curVer, marked, latest, initially);
    if out != Done {
      AfterStop(db, at, out);
      return;
    }
    AfterLoop(db, at, superStreak, loaded);
    out := RunLast(db, marked, old(db.log), curVer, latest, superStreak, loaded);
  }
}

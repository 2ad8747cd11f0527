// Running pending database migrations, alternating between a superuser and an ordinary client.
module Migrations {
  import opened Wrappers

  datatype Role = Super | Ordinary

  /** One migration script that was run, and by whom. */
  datatype Script = Up(version: nat, role: Role) | Down(version: nat, role: Role)

  /** A request to bring the database from the version it had to another one. */
  datatype Call = Call(from: nat, target: nat)

  datatype Reason =
    | DirtyDatabase
    | NoSuchVersion
    | ScriptFailed(version: nat)
    | ClientFailed
    | SuperuserMissing
    | BadFileName

  datatype Outcome = Done | NoChange | Failed(reason: Reason) | Panicked

  // ---- the migration files ----

  /** A file of the migration directory: whether it is an up script, whether its first line asks for the
      superuser, and the number its name starts with, if it does. */
  datatype File = File(up: bool, sudo: bool, version: Option<nat>)

  datatype SuperMigrations = SuperMigrations(versions: set<nat>, latest: nat)

  /** Adds one file to what was found so far; the latest is the one listed last. */
  function Add(found: SuperMigrations, f: File): Option<SuperMigrations> {
    if !(f.up && f.sudo) then Some(found)
    else if f.version.None? then None
    else Some(SuperMigrations(found.versions + {f.version.value}, f.version.value))
  }

  function Collect(files: seq<File>): Option<SuperMigrations> {
    if files == [] then Some(SuperMigrations({}, 0))
    else
      match Collect(files[..|files| - 1])
      case None => None
      case Some(found) => Add(found, files[|files| - 1])
  }

  lemma {:induction false} CollectFailsOnPrefix(files: seq<File>, i: nat)
    requires i <= |files| && Collect(files[..i]).None?
    ensures Collect(files).None?
    decreases |files|
  {
    if i < |files| {
      assert files[..|files| - 1][..i] == files[..i];
      CollectFailsOnPrefix(files[..|files| - 1], i);
    } else {
      assert files[..i] == files;
    }
  }

  /** Collects the up scripts that need the superuser. */
  method FindSuperMigrations(files: seq<File>) returns (r: Option<SuperMigrations>)
    ensures r == Collect(files)
  {
    var versions: set<nat>, latest := {}, 0;
    for i := 0 to |files|
      invariant Collect(files[..i]) == Some(SuperMigrations(versions, latest))
    {
      assert files[..i + 1][..i] == files[..i];
      assert Collect(files[..i + 1]) == Add(SuperMigrations(versions, latest), files[i]);
      if !files[i].up {
        continue;
      }
      if files[i].sudo {
        if files[i].version.None? {
          CollectFailsOnPrefix(files, i + 1);
          return None;
        }
        versions := versions + {files[i].version.value};
        latest := files[i].version.value;
      }
    }
    assert files[..|files|] == files;
    r := Some(SuperMigrations(versions, latest));
  }

  /** The scan fails exactly when a script that asks for the superuser has no version. */
  lemma {:induction false} BadNameIsRefused(files: seq<File>)
    ensures Collect(files).None? <==> exists f :: f in files && f.up && f.sudo && f.version.None?
  {
    if files == [] {
    } else {
      assert files == files[..|files| - 1] + [files[|files| - 1]];
      BadNameIsRefused(files[..|files| - 1]);
    }
  }

  /** The latest script for the superuser is the one listed last, whatever its number. */
  lemma {:induction false} LatestIsListedLast(files: seq<File>, i: nat)
    requires i < |files| && files[i].up && files[i].sudo && Collect(files).Some?
    requires forall j :: i < j < |files| ==> !(files[j].up && files[j].sudo)
    ensures files[i].version == Some(Collect(files).value.latest)
    decreases |files|
  {
    if i == |files| - 1 {
    } else {
      LatestIsListedLast(files[..|files| - 1], i);
    }
  }

  /** The number of up scripts, which is the newest version when they are numbered without gaps. */
  function Newest(files: seq<File>): nat {
    if files == [] then 0
    else Newest(files[..|files| - 1]) + if files[|files| - 1].up then 1 else 0
  }

  /** The up scripts are numbered 1, 2, 3, ... in listing order. */
  predicate Contiguous(files: seq<File>) {
    files != [] ==>
      && Contiguous(files[..|files| - 1])
      && (files[|files| - 1].up ==> files[|files| - 1].version == Some(Newest(files)))
  }

  /** The script of this version asks for the superuser. */
  predicate NeedsSuper(files: seq<File>, v: nat) {
    exists i :: 0 <= i < |files| && files[i].up && files[i].sudo && files[i].version == Some(v)
  }

  /** With contiguous numbers, the scripts found are those that ask for the superuser, and the latest of
      them is the highest. */
  lemma {:induction false} SuperOfContiguous(files: seq<File>)
    requires Contiguous(files)
    ensures Collect(files).Some?
    ensures var found := Collect(files).value;
            && (forall v :: v in found.versions <==> NeedsSuper(files, v))
            && (forall v :: v in found.versions ==> 1 <= v <= found.latest <= Newest(files))
            && (found.latest > 0 ==> found.latest in found.versions)
    decreases |files|
  {
    if files == [] {
    } else {
      var head, f := files[..|files| - 1], files[|files| - 1];
      SuperOfContiguous(head);
      forall v: nat
        ensures NeedsSuper(files, v) <==> NeedsSuper(head, v) || (f.up && f.sudo && f.version == Some(v))
      {
        if NeedsSuper(head, v) {
          var i :| 0 <= i < |head| && head[i].up && head[i].sudo && head[i].version == Some(v);
          assert files[i] == head[i];
        }
      }
    }
  }
}

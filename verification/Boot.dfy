/** The boot sequence, rollback and circuit breaker of src/db/connection.ts over the directories and
    markers of src/db/backup.ts. */
module Boot {
  import opened Wrappers
  import opened Backups

  const MAX_INTERVAL_BACKUPS: nat := 5
  const MAX_PRE_BOOT_SNAPSHOTS: nat := 3
  const LOCKFILES: set<string> := {"postmaster.pid", "postmaster.opts"}

  datatype AsideKind = Failed | Corrupted
  /** A data directory renamed out of the way. */
  datatype Aside = Aside(kind: AsideKind, stamp: int, contents: Contents)

  datatype Readiness = Booting | Ready | Degraded

  /** Disk and process state. `migrations` counts runs of migrate(). */
  datatype World = World(
    db: Option<Contents>, preBoot: seq<Snapshot>, intervals: seq<Snapshot>, setAside: seq<Aside>,
    marker: Option<string>, recoveryMarker: bool, readiness: Readiness, running: bool, migrations: nat)

  /** `sha` is EZCORP_IMAGE_SHA, `autoDestroy` EZCORP_AUTO_DESTROY_ON_OPEN_FAILURE. */
  datatype Vars = Vars(sha: Option<string>, autoDestroy: bool)

  // ---- what may go wrong ----

  /** A recursive copy succeeds, or stops with nothing or part of the target on disk. */
  datatype Copy = Copied | CopyFails(partial: Option<Contents>)
  datatype Open = Opens(after: Contents) | OpenFails
  datatype Migration = Migrates(after: Contents) | MigrationFails(halfway: Contents)
  datatype Restore = RenameFails | Renamed(copy: Copy)

  datatype Faults = Faults(
    snapshot: Copy, unlinked: set<string>, open: Open, reopen: Open, recoveryWritable: bool,
    migration: Migration, restore: Restore, markerRemovable: bool)

  // ---- the steps ----

  /** The image SHA as the code tests it: an empty string counts as unset. */
  function ImageSha(v: Vars): Option<string> { if v.sha == Some("") then None else v.sha }

  function SnapshotTag(v: Vars): string {
    var sha := if v.sha.Some? then v.sha.value else "dev";
    if 12 < |sha| then sha[..12] else sha
  }

  /** `snapshotPreBoot`. */
  function TakeSnapshot(w: World, v: Vars, now: int, copy: Copy): World {
    if w.db.None? || w.db.value == map[] then w
    else
      var name := SnapName(SnapshotTag(v), now);
      match copy
      case Copied => w.(preBoot := Pruned(Put(w.preBoot, Snapshot(name, now, w.db.value)), MAX_PRE_BOOT_SNAPSHOTS))
      case CopyFails(None) => w
      case CopyFails(Some(part)) => w.(preBoot := Put(w.preBoot, Snapshot(name, now, part)))
  }

  /** `rollbackMigration`, after which the process exits. */
  function RollBack(w: World, v: Vars, now: int, restore: Restore): World {
    var newest := Newest(w.preBoot);
    var w1 :=
      if newest.Some? && w.db.Some? && restore.Renamed? then
        w.(setAside := w.setAside + [Aside(Failed, now, w.db.value)],
           db := match restore.copy
                 case Copied => Some(newest.value.contents)
                 case CopyFails(part) => part)
      else w;
    w1.(marker := if ImageSha(v).Some? then ImageSha(v) else w1.marker, readiness := Degraded, running := false)
  }

  /** Opening failed: set the directory aside on request, otherwise leave it alone and stop. */
  function OpenFailed(w: World, now: int, v: Vars, f: Faults): World {
    if v.autoDestroy && w.db.Some? then
      var w1 := w.(setAside := w.setAside + [Aside(Corrupted, now, w.db.value)], db := Some(map[]));
      match f.reopen
      case Opens(after) => w1.(db := Some(after))
      case OpenFails => w1
    else
      w.(recoveryMarker := w.recoveryMarker || f.recoveryWritable, readiness := Degraded)
  }

  function Migrated(w: World, v: Vars, now: int, f: Faults): World {
    var w1 := w.(recoveryMarker := w.recoveryMarker && !f.markerRemovable, migrations := w.migrations + 1);
    match f.migration
    case Migrates(after) =>
      w1.(db := Some(after), marker := if f.markerRemovable then None else w1.marker,
          readiness := Ready, running := true)
    case MigrationFails(halfway) => RollBack(w1.(db := Some(halfway)), v, now, f.restore)
  }

  predicate BreakerTrips(w: World, v: Vars) {
    ImageSha(v).Some? && w.marker == ImageSha(v)
  }

  function WithDataDir(w: World): World {
    w.(db := if w.db.None? then Some(map[]) else w.db, readiness := Booting, running := false)
  }

  function Unlocked(w: World, unlinked: set<string>): World {
    if w.db.None? then w else w.(db := Some(w.db.value - (unlinked * LOCKFILES)))
  }

  /** `initPglite` in a fresh process. */
  function BootOnce(w: World, v: Vars, now: int, f: Faults): World {
    var w0 := WithDataDir(w);
    if BreakerTrips(w0, v) then
      match f.open
      case Opens(after) => w0.(db := Some(after), readiness := Degraded, running := true)
      case OpenFails => w0
    else
      var w1 := Unlocked(TakeSnapshot(w0, v, now, f.snapshot), f.unlinked);
      match f.open
      case Opens(after) => Migrated(w1.(db := Some(after)), v, now, f)
      case OpenFails =>
        var w2 := OpenFailed(w1, now, v, f);
        if v.autoDestroy && w1.db.Some? && f.reopen.Opens? then Migrated(w2, v, now, f) else w2
  }

  /** `performBackup`, on the timer and at shutdown. */
  function Backup(w: World, now: int, copy: Copy): World {
    if !w.running || w.readiness == Degraded || w.db.None? then w
    else
      var name := SnapName("ezcorp-db", now);
      match copy
      case Copied => w.(intervals := Pruned(Put(w.intervals, Snapshot(name, now, w.db.value)), MAX_INTERVAL_BACKUPS))
      case CopyFails(None) => w
      case CopyFails(Some(part)) => w.(intervals := Put(w.intervals, Snapshot(name, now, part)))
  }

  // ---- the same as a process that changes its fields ----

  class Host {
    var db: Option<Contents>
    var preBoot: seq<Snapshot>
    var intervals: seq<Snapshot>
    var setAside: seq<Aside>
    var marker: Option<string>
    var recoveryMarker: bool
    var readiness: Readiness
    var running: bool
    var migrations: nat

    function State(): World
      reads this
    {
      World(db, preBoot, intervals, setAside, marker, recoveryMarker, readiness, running, migrations)
    }

    method PrunePreBoot()
      modifies this`preBoot
      ensures preBoot == Pruned(old(preBoot), MAX_PRE_BOOT_SNAPSHOTS)
    {
      preBoot := Prune(preBoot, MAX_PRE_BOOT_SNAPSHOTS);
    }

    method SnapshotPreBoot(v: Vars, now: int, copy: Copy)
      modifies this`preBoot
      ensures State() == TakeSnapshot(old(State()), v, now, copy)
    {
      hide Pruned, Put;
      if db.None? || db.value == map[] { return; }
      var name := SnapName(SnapshotTag(v), now);
      match copy
      case Copied =>
        preBoot := Put(preBoot, Snapshot(name, now, db.value));
        PrunePreBoot();
      case CopyFails(None) =>
      case CopyFails(Some(part)) =>
        preBoot := Put(preBoot, Snapshot(name, now, part));
    }

    method RollbackMigration(v: Vars, now: int, restore: Restore)
      modifies this
      ensures State() == RollBack(old(State()), v, now, restore)
    {
      hide Newest;
      var snapshot := Newest(preBoot);
      if snapshot.Some? && db.Some? && restore.Renamed? {
        setAside := setAside + [Aside(Failed, now, db.value)];
        match restore.copy
        case Copied => db := Some(snapshot.value.contents);
        case CopyFails(part) => db := part;
      }
      if ImageSha(v).Some? { marker := ImageSha(v); }
      readiness := Degraded;
      running := false;
    }

    method Migrate(v: Vars, now: int, f: Faults)
      modifies this
      ensures State() == Migrated(old(State()), v, now, f)
    {
      if f.markerRemovable { recoveryMarker := false; }
      migrations := migrations + 1;
      match f.migration
      case Migrates(after) =>
        db := Some(after);
        if f.markerRemovable { marker := None; }
        readiness := Ready;
        running := true;
      case MigrationFails(halfway) =>
        db := Some(halfway);
        RollbackMigration(v, now, f.restore);
    }

    method InitPglite(v: Vars, now: int, f: Faults)
      modifies this
      ensures State() == BootOnce(old(State()), v, now, f)
    {
      hide Pruned, Put, Migrated;
      readiness := Booting;
      running := false;
      if db.None? { db := Some(map[]); }
      ghost var w0 := State();
      assert w0 == WithDataDir(old(State()));
      if ImageSha(v).Some? && marker == ImageSha(v) {
        if f.open.Opens? {
          db := Some(f.open.after);
          readiness := Degraded;
          running := true;
        }
        return;
      }
      SnapshotPreBoot(v, now, f.snapshot);
      if db.Some? { db := Some(db.value - (f.unlinked * LOCKFILES)); }
      ghost var w1 := State();
      assert w1 == Unlocked(TakeSnapshot(w0, v, now, f.snapshot), f.unlinked);
      match f.open {
        case Opens(after) => db := Some(after);
        case OpenFails =>
          if v.autoDestroy && db.Some? {
            setAside := setAside + [Aside(Corrupted, now, db.value)];
            db := Some(map[]);
            if f.reopen.OpenFails? { return; }
            db := Some(f.reopen.after);
          } else {
            if f.recoveryWritable { recoveryMarker := true; }
            readiness := Degraded;
            return;
          }
      }
      ghost var w2 := State();
      assert w2 == if f.open.Opens? then w1.(db := Some(f.open.after)) else OpenFailed(w1, now, v, f);
      Migrate(v, now, f);
    }

    method PerformBackup(now: int, copy: Copy)
      modifies this`intervals
      ensures State() == Backup(old(State()), now, copy)
    {
      hide Pruned, Put;
      if !running || readiness == Degraded || db.None? { return; }
      var name := SnapName("ezcorp-db", now);
      match copy
      case Copied =>
        intervals := Put(intervals, Snapshot(name, now, db.value));
        intervals := Prune(intervals, MAX_INTERVAL_BACKUPS);
      case CopyFails(None) =>
      case CopyFails(Some(part)) =>
        intervals := Put(intervals, Snapshot(name, now, part));
    }
  }

  /** `pruneBackups`. */
  method Prune(dir: seq<Snapshot>, keep: nat) returns (r: seq<Snapshot>)
    ensures r == Pruned(dir, keep)
  {
    var backups := ListByMtimeDesc(dir);
    r := dir;
    if |backups| <= keep { return; }
    var stale := backups[keep..];
    for i := 0 to |stale|
      invariant r == RemoveAll(dir, stale[..i])
    {
      assert stale[..i + 1][..i] == stale[..i];
      r := Remove(r, stale[i].name);
    }
    assert stale[..|stale|] == stale;
  }
}

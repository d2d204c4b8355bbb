/** Whole runs of boots, backups and application writes: what rollback restores, and that a tripped circuit
    breaker freezes the disk. */
module BootRuns {
  import opened Wrappers
  import opened Backups
  import opened Boot

  datatype Event =
    | BootEvent(v: Vars, f: Faults)
    | BackupEvent(copy: Copy)
    | StopEvent(copy: Copy)
    | WriteEvent(contents: Contents)

  /** Ticks and writes need a running process; stopping takes a last backup. */
  function Step(w: World, e: Event, now: int): World {
    match e
    case BootEvent(v, f) => BootOnce(w, v, now, f)
    case BackupEvent(copy) => Backup(w, now, copy)
    case StopEvent(copy) => Backup(w, now, copy).(running := false)
    case WriteEvent(contents) => if w.running then w.(db := Some(contents)) else w
  }

  /** The state after the first events; event `i` happens at `times[i]`. */
  function RunTo(w: World, events: seq<Event>, times: seq<int>): World
    requires |times| == |events|
  {
    if events == [] then w
    else
      var last := |events| - 1;
      Step(RunTo(w, events[..last], times[..last]), events[last], times[last])
  }

  predicate Increasing(times: seq<int>, from: int) {
    forall i :: 0 <= i < |times| ==> from < times[i] && forall j :: 0 <= j < i ==> times[j] < times[i]
  }

  // ---- snapshots stay distinct and older than the clock ----

  ghost predicate OlderThan(w: World, now: int) {
    && DistinctNames(w.preBoot)
    && forall s :: s in w.preBoot ==> s.mtime <= now && s.name.stamp <= now
  }

  lemma OlderLater(w: World, now: int, later: int)
    requires OlderThan(w, now) && now <= later
    ensures OlderThan(w, later)
  {
  }

  lemma PutKeepsOlder(dir: seq<Snapshot>, s: Snapshot, now: int)
    requires DistinctNames(dir) && forall x :: x in dir ==> x.mtime < now && x.name.stamp < now
    requires s.mtime == now && s.name.stamp == now
    ensures Put(dir, s) == dir + [s] && DistinctNames(dir + [s])
    ensures Newest(dir + [s]) == Some(s)
    ensures forall x :: x in dir + [s] ==> x.mtime <= now && x.name.stamp <= now
  {
    hide Newest;
    PutFresh(dir, s);
    var list := dir + [s];
    forall i, j | 0 <= i < j < |list| ensures list[i].name != list[j].name {
      if j == |dir| { assert dir[i] in dir; }
    }
    assert s in list;
    StrictlyNewest(list, s);
  }

  lemma PrunedKeepsNewest(dir: seq<Snapshot>, keep: nat, s: Snapshot)
    requires DistinctNames(dir) && 0 < keep && s in dir
    requires forall x :: x in dir && x != s ==> x.mtime < s.mtime
    ensures Newest(Pruned(dir, keep)) == Some(s)
  {
    hide Newest, Pruned;
    StrictlyNewest(dir, s);
    PrunedIs(dir, keep);
    StrictlyNewest(Pruned(dir, keep), s);
  }

  /** A successful snapshot of a non-empty data directory is the newest one, after rotation too. */
  lemma SnapshotIsNewest(w: World, v: Vars, now: int)
    requires w.db.Some? && w.db.value != map[]
    requires DistinctNames(w.preBoot) && forall x :: x in w.preBoot ==> x.mtime < now && x.name.stamp < now
    ensures var w' := TakeSnapshot(w, v, now, Copied);
            && Newest(w'.preBoot).Some? && Newest(w'.preBoot).value.contents == w.db.value
            && |w'.preBoot| <= MAX_PRE_BOOT_SNAPSHOTS
            && w' == w.(preBoot := w'.preBoot)
  {
    hide Newest, Pruned, Put, SnapshotTag;
    var s := Snapshot(SnapName(SnapshotTag(v), now), now, w.db.value);
    PutKeepsOlder(w.preBoot, s, now);
    PrunedKeepsNewest(w.preBoot + [s], MAX_PRE_BOOT_SNAPSHOTS, s);
    PrunedIs(w.preBoot + [s], MAX_PRE_BOOT_SNAPSHOTS);
  }

  lemma TakeSnapshotKeepsOlder(w: World, v: Vars, now: int, copy: Copy)
    requires DistinctNames(w.preBoot) && forall x :: x in w.preBoot ==> x.mtime < now && x.name.stamp < now
    ensures OlderThan(TakeSnapshot(w, v, now, copy), now)
  {
    hide Newest, Pruned, Put, SnapshotTag;
    if w.db.Some? {
      var name := SnapName(SnapshotTag(v), now);
      match copy
      case Copied =>
        var s := Snapshot(name, now, w.db.value);
        PutKeepsOlder(w.preBoot, s, now);
        PrunedIs(w.preBoot + [s], MAX_PRE_BOOT_SNAPSHOTS);
      case CopyFails(Some(part)) =>
        PutKeepsOlder(w.preBoot, Snapshot(name, now, part), now);
      case CopyFails(None) =>
    }
  }

  /** Only the snapshot step of a boot changes the pre-boot directory. */
  lemma BootPreBoot(w: World, v: Vars, now: int, f: Faults)
    ensures BootOnce(w, v, now, f).preBoot ==
            if BreakerTrips(w, v) then w.preBoot else TakeSnapshot(WithDataDir(w), v, now, f.snapshot).preBoot
  {
    hide TakeSnapshot, Migrated;
    forall w1: World { MigratedPreBoot(w1, v, now, f); }
  }

  lemma MigratedPreBoot(w: World, v: Vars, now: int, f: Faults)
    ensures Migrated(w, v, now, f).preBoot == w.preBoot
  {
    hide Newest;
  }

  lemma StepKeepsOlder(w: World, e: Event, before: int, now: int)
    requires OlderThan(w, before) && before < now
    ensures OlderThan(Step(w, e, now), now)
  {
    hide TakeSnapshot, BootOnce, Pruned, Put;
    OlderLater(w, before, now);
    if e.BootEvent? {
      BootPreBoot(w, e.v, now, e.f);
      TakeSnapshotKeepsOlder(WithDataDir(w), e.v, now, e.f.snapshot);
    }
  }

  lemma {:induction false} RunKeepsOlder(w: World, events: seq<Event>, times: seq<int>, before: int)
    requires |times| == |events| && Increasing(times, before) && OlderThan(w, before)
    ensures OlderThan(RunTo(w, events, times), if events == [] then before else times[|times| - 1])
  {
    hide Step, OlderThan;
    if events != [] {
      var last := |events| - 1;
      RunKeepsOlder(w, events[..last], times[..last], before);
      StepKeepsOlder(RunTo(w, events[..last], times[..last]), events[last],
                     if last == 0 then before else times[last - 1], times[last]);
    }
  }

  // ---- a failed migration ----

  /** A boot that gets as far as migrate(), sees it fail, and copies without fault. */
  predicate CleanFailure(w: World, v: Vars, f: Faults) {
    && !BreakerTrips(w, v)
    && f.snapshot.Copied? && f.open.Opens? && f.migration.MigrationFails? && f.restore == Renamed(Copied)
  }

  /** The data directory is restored and the half-migrated one kept aside. */
  predicate RestoredBy(w: World, w': World, now: int, f: Faults)
    requires f.migration.MigrationFails?
  {
    && w'.db == w.db
    && w'.setAside == w.setAside + [Aside(Failed, now, f.migration.halfway)]
    && |w'.preBoot| <= MAX_PRE_BOOT_SNAPSHOTS
    && w'.intervals == w.intervals
  }

  lemma FailedBootRestores(w: World, v: Vars, before: int, now: int, f: Faults)
    requires OlderThan(w, before) && before < now
    requires w.db.Some? && w.db.value != map[] && CleanFailure(w, v, f)
    ensures RestoredBy(w, BootOnce(w, v, now, f), now, f)
    ensures BootOnce(w, v, now, f).marker == if ImageSha(v).Some? then ImageSha(v) else w.marker
    ensures !BootOnce(w, v, now, f).running
  {
    hide Newest, Pruned, Put, SnapshotTag, TakeSnapshot;
    SnapshotIsNewest(WithDataDir(w), v, now);
  }

  /** Failing boots without an image SHA, one after another. */
  predicate AllFailClean(events: seq<Event>) {
    forall i :: 0 <= i < |events| ==>
      && events[i].BootEvent? && ImageSha(events[i].v).None?
      && events[i].f.snapshot.Copied? && events[i].f.open.Opens?
      && events[i].f.migration.MigrationFails? && events[i].f.restore == Renamed(Copied)
  }

  function AsidesOf(events: seq<Event>, times: seq<int>): seq<Aside>
    requires |times| == |events| && AllFailClean(events)
  {
    seq(|events|, i requires 0 <= i < |events| => Aside(Failed, times[i], events[i].f.migration.halfway))
  }

  /** However often the migration keeps failing, the data directory is what it was, every half-migrated
      copy is kept aside, and at most three snapshots stay. */
  lemma {:induction false} FailingRunLosesNothing(w: World, events: seq<Event>, times: seq<int>, before: int)
    requires |times| == |events| && Increasing(times, before) && OlderThan(w, before)
    requires w.db.Some? && w.db.value != map[] && AllFailClean(events)
    ensures RunTo(w, events, times).db == w.db
    ensures RunTo(w, events, times).setAside == w.setAside + AsidesOf(events, times)
    ensures events != [] ==> |RunTo(w, events, times).preBoot| <= MAX_PRE_BOOT_SNAPSHOTS
  {
    hide BootOnce, OlderThan;
    if events != [] {
      var last := |events| - 1;
      var e, init := events[last], events[..last];
      FailingRunLosesNothing(w, init, times[..last], before);
      RunKeepsOlder(w, init, times[..last], before);
      var w1 := RunTo(w, init, times[..last]);
      FailedBootRestores(w1, e.v, if last == 0 then before else times[last - 1], times[last], e.f);
      assert AsidesOf(events, times) ==
          AsidesOf(init, times[..last]) + [Aside(Failed, times[last], e.f.migration.halfway)];
    } else {
      assert w.setAside + AsidesOf(events, times) == w.setAside;
    }
  }

  /** In any run whatsoever, each boot whose migration fails with clean copies gives back the data directory
      it found. */
  lemma EveryFailedBootRestores(
    w: World, events: seq<Event>, times: seq<int>, before: int, v: Vars, now: int, f: Faults)
    requires |times| == |events| && Increasing(times + [now], before) && OlderThan(w, before)
    requires var at := RunTo(w, events, times); at.db.Some? && at.db.value != map[] && CleanFailure(at, v, f)
    ensures RestoredBy(RunTo(w, events, times), BootOnce(RunTo(w, events, times), v, now, f), now, f)
  {
    hide BootOnce, OlderThan, Step;
    assert forall i :: 0 <= i < |times| ==> (times + [now])[i] == times[i];
    assert (times + [now])[|times|] == now;
    RunKeepsOlder(w, events, times, before);
    var latest := if events == [] then before else times[|times| - 1];
    FailedBootRestores(RunTo(w, events, times), v, latest, now, f);
  }

  // ---- when copies fail ----

  /** What a failing boot will put back, readable before it starts: its own snapshot if there is one, complete
      or not, else the newest left by earlier boots. */
  function RestoreSource(w: World, f: Faults): Option<Contents> {
    var start := WithDataDir(w).db.value;
    if start != map[] && f.snapshot.Copied? then Some(start)
    else if start != map[] && f.snapshot.CopyFails? && f.snapshot.partial.Some? then f.snapshot.partial
    else if Newest(w.preBoot).Some? then Some(Newest(w.preBoot).value.contents)
    else None
  }

  /** The boot opens a database, after setting the old one aside if it may, and migrate() fails on it. */
  predicate MigrateFails(w: World, v: Vars, f: Faults) {
    && !BreakerTrips(w, v)
    && (f.open.Opens? || (v.autoDestroy && f.reopen.Opens?))
    && f.migration.MigrationFails?
  }

  /** What a failed migration leaves in the data directory, readable from the disk before the boot and the faults. */
  function LeftByFailure(w: World, f: Faults): Option<Contents>
    requires f.migration.MigrationFails?
  {
    match (RestoreSource(w, f), f.restore)
    case (Some(c), Renamed(Copied)) => Some(c)
    case (Some(_), Renamed(CopyFails(part))) => part
    case _ => Some(f.migration.halfway)
  }

  lemma SnapshotStepSource(w: World, v: Vars, now: int, f: Faults, before: int)
    requires OlderThan(w, before) && before < now
    ensures var after := TakeSnapshot(WithDataDir(w), v, now, f.snapshot).preBoot;
            (Newest(after).None? <==> RestoreSource(w, f).None?)
            && (Newest(after).Some? ==> RestoreSource(w, f) == Some(Newest(after).value.contents))
  {
    hide Newest, Pruned, Put, SnapshotTag;
    var w0 := WithDataDir(w);
    if w0.db.value != map[] {
      match f.snapshot
      case Copied => SnapshotIsNewest(w0, v, now);
      case CopyFails(Some(part)) =>
        PutKeepsOlder(w.preBoot, Snapshot(SnapName(SnapshotTag(v), now), now, part), now);
      case CopyFails(None) =>
    }
  }

  /** A failing boot gives back the data directory it found (an empty one if there was none) if and only if what the
      rollback leaves is that directory: with nothing to restore, or the rename failing, the half-migrated one; with
      the restoring copy failing, the part it wrote; otherwise the restored copy. */
  lemma FailedBootRestoresIff(w: World, v: Vars, before: int, now: int, f: Faults)
    requires OlderThan(w, before) && before < now && MigrateFails(w, v, f)
    ensures BootOnce(w, v, now, f).db == WithDataDir(w).db <==>
            match f.restore
            case RenameFails => f.migration.halfway == WithDataDir(w).db.value
            case Renamed(copy) =>
              match RestoreSource(w, f)
              case None => f.migration.halfway == WithDataDir(w).db.value
              case Some(c) =>
                match copy
                case Copied => c == WithDataDir(w).db.value
                case CopyFails(part) => part == WithDataDir(w).db
  {
    hide BootOnce, RestoreSource;
    FailedBootLeaves(w, v, before, now, f);
  }

  lemma FailedBootLeaves(w: World, v: Vars, before: int, now: int, f: Faults)
    requires OlderThan(w, before) && before < now && MigrateFails(w, v, f)
    ensures BootOnce(w, v, now, f).db == LeftByFailure(w, f)
  {
    hide RestoreSource, TakeSnapshot, Newest, OlderThan, Migrated;
    SnapshotStepSource(w, v, now, f, before);
    var w1 := Unlocked(TakeSnapshot(WithDataDir(w), v, now, f.snapshot), f.unlinked);
    var w2 := if f.open.Opens? then w1.(db := Some(f.open.after)) else OpenFailed(w1, now, v, f);
    SnapshotKeepsDb(WithDataDir(w), v, now, f.snapshot);
    assert BootOnce(w, v, now, f) == Migrated(w2, v, now, f);
    MigratedLeaves(w2, v, now, f);
  }

  lemma SnapshotKeepsDb(w: World, v: Vars, now: int, copy: Copy)
    ensures TakeSnapshot(w, v, now, copy).db == w.db
  {
    hide Pruned, Put;
  }

  lemma MigratedLeaves(w: World, v: Vars, now: int, f: Faults)
    requires f.migration.MigrationFails?
    ensures Migrated(w, v, now, f).db ==
            if Newest(w.preBoot).None? || f.restore.RenameFails? then Some(f.migration.halfway)
            else if f.restore.copy.CopyFails? then f.restore.copy.partial
            else Some(Newest(w.preBoot).value.contents)
  {
    hide Newest;
  }

  /** Besides the data directory: the process stops degraded, the marker names the image if there is one, and the
      half-migrated directory is set aside exactly if there was something to restore and it could be renamed. */
  lemma FailedBootMarks(w: World, v: Vars, before: int, now: int, f: Faults)
    requires OlderThan(w, before) && before < now && MigrateFails(w, v, f) && f.open.Opens?
    ensures var w' := BootOnce(w, v, now, f);
            && !w'.running && w'.readiness == Degraded && w'.migrations == w.migrations + 1
            && w'.marker == (if v.sha.Some? && v.sha.value != "" then v.sha else w.marker)
            && w'.intervals == w.intervals
            && w'.setAside ==
               w.setAside + if RestoreSource(w, f).Some? && f.restore.Renamed?
                            then [Aside(Failed, now, f.migration.halfway)] else []
  {
    hide RestoreSource, Newest, OlderThan, Pruned, Put, SnapshotTag;
    SnapshotStepSource(w, v, now, f, before);
  }

  const ONE_FILE: Contents := map["base/1" := "rows", "PG_VERSION" := "16"]
  const HALF_COPY: Contents := map["PG_VERSION" := "16"]

  /** A snapshot copy that stops halfway is still the newest `pre-boot-` directory, so it is what a failed
      migration restores: the data is gone from the data directory. */
  lemma HalfCopyIsRestored(w: World, v: Vars, before: int, now: int, f: Faults)
    requires OlderThan(w, before) && before < now && w.db == Some(ONE_FILE)
    requires MigrateFails(w, v, f) && f.restore == Renamed(Copied) && f.snapshot == CopyFails(Some(HALF_COPY))
    ensures BootOnce(w, v, now, f).db == Some(HALF_COPY) && HALF_COPY != ONE_FILE
  {
    assert "base/1" in ONE_FILE && "base/1" !in HALF_COPY;
    assert ONE_FILE != map[];
    SnapshotStepSource(w, v, now, f, before);
    hide Newest, Pruned, Put, SnapshotTag, TakeSnapshot;
  }

  // ---- a boot that succeeds ----

  /** The boot opens a database, after setting the old one aside if it may, and migrate() succeeds on it. */
  predicate MigrateSucceeds(w: World, v: Vars, f: Faults) {
    && !BreakerTrips(w, v)
    && (f.open.Opens? || (v.autoDestroy && f.reopen.Opens?))
    && f.migration.Migrates?
  }

  /** What an untripped boot that migrates leaves: the migrated database, served; no markers if they can be removed;
      nothing set aside but a directory that did not open. */
  lemma SuccessfulBoot(w: World, v: Vars, now: int, f: Faults)
    requires MigrateSucceeds(w, v, f)
    ensures var w' := BootOnce(w, v, now, f);
            && w'.db == Some(f.migration.after) && w'.readiness == Ready && w'.running
            && w'.migrations == w.migrations + 1
            && w'.marker == (if f.markerRemovable then None else w.marker)
            && w'.recoveryMarker == (w.recoveryMarker && !f.markerRemovable)
            && w'.intervals == w.intervals
    ensures f.open.Opens? ==> BootOnce(w, v, now, f).setAside == w.setAside
    ensures f.open.OpenFails? ==>
              var found := if w.db.Some? then w.db.value else map[];
              BootOnce(w, v, now, f).setAside ==
              w.setAside + [Aside(Corrupted, now, found - (f.unlinked * {"postmaster.pid", "postmaster.opts"}))]
  {
    hide Newest, Pruned, Put, SnapshotTag;
  }

  /** Whatever a boot that is not tripped goes on to do, once its snapshot is copied the newest pre-boot snapshot is
      the directory it found, named for the image and the time, and at most three stay. */
  lemma BootSnapshots(w: World, v: Vars, before: int, now: int, f: Faults)
    requires OlderThan(w, before) && before < now && !BreakerTrips(w, v)
    requires w.db.Some? && w.db.value != map[] && f.snapshot.Copied?
    ensures var w' := BootOnce(w, v, now, f);
            && Newest(w'.preBoot).Some?
            && Newest(w'.preBoot).value.contents == w.db.value && Newest(w'.preBoot).value.mtime == now
            && Newest(w'.preBoot).value.name.stamp == now
            && (var tag := Newest(w'.preBoot).value.name.tag;
                if v.sha.None? then tag == "dev"
                else tag <= v.sha.value && |tag| == if 12 < |v.sha.value| then 12 else |v.sha.value|)
            && |w'.preBoot| == (if |w.preBoot| < 3 then |w.preBoot| + 1 else 3)
  {
    BootPreBoot(w, v, now, f);
    hide Newest, Pruned, Put, BootOnce;
    var s := Snapshot(SnapName(SnapshotTag(v), now), now, w.db.value);
    PutKeepsOlder(w.preBoot, s, now);
    PrunedKeepsNewest(w.preBoot + [s], MAX_PRE_BOOT_SNAPSHOTS, s);
    PrunedIs(w.preBoot + [s], MAX_PRE_BOOT_SNAPSHOTS);
  }

  /** A boot that is refused by the breaker serves what opens, degraded. */
  lemma TrippedBoot(w: World, v: Vars, now: int, f: Faults)
    requires BreakerTrips(w, v) && f.open.Opens?
    ensures var w' := BootOnce(w, v, now, f);
            w'.db == Some(f.open.after) && w'.readiness == Degraded && w'.running && w'.marker == w.marker
  {
  }

  /** The breaker trips exactly for a marker naming the image that boots. */
  lemma TripsIff(w: World, v: Vars)
    ensures BreakerTrips(w, v) <==> w.marker.Some? && w.marker == v.sha && v.sha != Some("")
  {
  }

  /** A timer backup of a healthy process is the newest one and holds the database; five stay. */
  lemma BackupHolds(w: World, now: int)
    requires w.running && w.readiness != Degraded && w.db.Some?
    requires DistinctNames(w.intervals) && forall x :: x in w.intervals ==> x.mtime < now && x.name.stamp < now
    ensures var w' := Backup(w, now, Copied);
            && Newest(w'.intervals).Some? && Newest(w'.intervals).value.contents == w.db.value
            && |w'.intervals| == (if |w.intervals| < 5 then |w.intervals| + 1 else 5)
            && w' == w.(intervals := w'.intervals)
  {
    hide Newest, Pruned, Put;
    var s := Snapshot(SnapName("ezcorp-db", now), now, w.db.value);
    PutKeepsOlder(w.intervals, s, now);
    PrunedKeepsNewest(w.intervals + [s], MAX_INTERVAL_BACKUPS, s);
    PrunedIs(w.intervals + [s], MAX_INTERVAL_BACKUPS);
  }

  // ---- a database that does not open ----

  /** Without the opt-in the process stops degraded and says so, if it can; with it the directory is set aside, and if
      that does not help the process stops with an empty one. */
  lemma UnopenedBoot(w: World, v: Vars, now: int, f: Faults)
    requires !BreakerTrips(w, v) && f.open.OpenFails? && (v.autoDestroy ==> f.reopen.OpenFails?)
    ensures var w' := BootOnce(w, v, now, f);
            && !w'.running && w'.migrations == w.migrations && w'.marker == w.marker && w'.intervals == w.intervals
            && if v.autoDestroy then
                 && w'.db == Some(map[]) && w'.recoveryMarker == w.recoveryMarker
                 && var found := if w.db.Some? then w.db.value else map[];
                    w'.setAside ==
                    w.setAside + [Aside(Corrupted, now, found - (f.unlinked * {"postmaster.pid", "postmaster.opts"}))]
               else
                 && w'.setAside == w.setAside && w'.readiness == Degraded
                 && w'.recoveryMarker == (w.recoveryMarker || f.recoveryWritable)
  {
    hide Newest, Pruned, Put, SnapshotTag;
  }

  /** By default a data directory that cannot be opened is left alone, stale locks aside. */
  lemma UnopenableIsKept(w: World, v: Vars, now: int, f: Faults)
    requires w.db.Some? && !v.autoDestroy && f.open.OpenFails?
    ensures BootOnce(w, v, now, f).db == Some(w.db.value) ||
            BootOnce(w, v, now, f).db == Some(w.db.value - (f.unlinked * LOCKFILES))
    ensures BootOnce(w, v, now, f).setAside == w.setAside && !BootOnce(w, v, now, f).running
    ensures BootOnce(w, v, now, f).migrations == w.migrations
  {
    hide Newest, Pruned, Put, SnapshotTag;
  }

  // ---- the circuit breaker ----

  /** Boots of the image `sha` only. */
  predicate OnlyImage(events: seq<Event>, sha: string) {
    forall i :: 0 <= i < |events| && events[i].BootEvent? ==> events[i].v.sha == Some(sha)
  }

  /** The marker names `sha`, and a running process is degraded. */
  predicate Tripped(w: World, sha: string) {
    sha != "" && w.marker == Some(sha) && (w.running ==> w.readiness == Degraded)
  }

  /** Everything rollback and backups wrote is untouched, and no migration ran. */
  predicate Frozen(w: World, w': World) {
    && w'.marker == w.marker && w'.preBoot == w.preBoot && w'.intervals == w.intervals
    && w'.setAside == w.setAside && w'.recoveryMarker == w.recoveryMarker && w'.migrations == w.migrations
  }

  /** A completed rollback under `sha` trips the breaker. */
  lemma RollBackTrips(w: World, v: Vars, now: int, restore: Restore)
    requires ImageSha(v).Some?
    ensures Tripped(RollBack(w, v, now, restore), ImageSha(v).value)
  {
    hide Newest;
  }

  /** From then on, whatever happens under that image leaves snapshots, backups and marker alone. */
  lemma {:induction false} BreakerFreezes(w: World, sha: string, events: seq<Event>, times: seq<int>)
    requires |times| == |events| && Tripped(w, sha) && OnlyImage(events, sha)
    ensures Frozen(w, RunTo(w, events, times)) && Tripped(RunTo(w, events, times), sha)
  {
    hide TakeSnapshot, Migrated, Pruned, Put;
    if events != [] {
      var last := |events| - 1;
      BreakerFreezes(w, sha, events[..last], times[..last]);
    }
  }
}

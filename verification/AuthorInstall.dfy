/** The file-moving part of `installAuthoredDraft` in src/extensions/author-install.ts, with a fault possible at
    every await: what each exit leaves on disk, and what every intermediate disk still holds. */
module AuthorInstall {
  import opened Wrappers

  type Files = map<string, string>

  /** The draft directory, the install path, and the move-aside directories, named by the instant they were made. */
  datatype Place = Draft | Installed | Aside(at: int)

  /** A missing key is a directory that does not exist. */
  type Disk = map<Place, Files>

  /** How one `moveDir` goes. `left` is whatever a faulting copy or delete leaves behind. */
  datatype MoveFault =
    | Renames
    | RenameThrows
    | Copies
    | CopyThrows(left: Files)
    | RemoveThrows(left: Files)

  datatype InstallFault = Installs | LeaksEnvKey | FailsToInstall

  /** One outcome for each await of the pipeline that can end it or touch a directory, in order; true throws. */
  datatype Faults = Faults(
    aside: bool, mkdirInstalled: bool, moveIn: MoveFault, install: InstallFault, mkdirDraft: bool,
    moveOut: MoveFault, restore: MoveFault, consume: bool, cleanup: Option<Files>)

  datatype Await = MoveAside | MakeInstalledParent | MoveIn | ConsumeDraft

  datatype Exit =
    | Done
    | DraftDirMissing
    | NameCollision
    | EnvKeyLeak
    | InstallFailed
    | RollbackFailed
    | Thrown(at: Await)

  datatype ExtensionRow = ExtensionRow(id: string, creatorUserId: Option<string>, modifiable: bool, isBundled: bool)

  datatype Request = Request(userId: string, modifyOf: Option<string>, existing: Option<ExtensionRow>)

  /** A draft reopened from an installed extension may replace it: decided on the row as it is at install time. */
  predicate SanctionedModify(r: Request) {
    && r.modifyOf.Some? && r.existing.Some?
    && r.existing.value.id == r.modifyOf.value
    && r.existing.value.creatorUserId == Some(r.userId)
    && r.existing.value.modifiable
    && !r.existing.value.isBundled
  }

  // ---- directory operations ----

  /** `rename` of a directory: refuses a missing source or a non-empty target. */
  predicate CanRename(d: Disk, src: Place, dest: Place) {
    src in d && (dest in d ==> d[dest] == map[])
  }

  function Renamed(d: Disk, src: Place, dest: Place): Disk
    requires src in d
  {
    (d - {src})[dest := d[src]]
  }

  /** `cp` merges into an existing target. */
  function Copied(d: Disk, src: Place, dest: Place): Disk
    requires src in d
  {
    d[dest := (if dest in d then d[dest] else map[]) + d[src]]
  }

  /** The disks one move goes through, and whether it threw. */
  datatype Moved = Moved(disks: seq<Disk>, threw: bool)

  function MoveDir(d: Disk, src: Place, dest: Place, f: MoveFault): (r: Moved)
    ensures r.disks != []
  {
    if src !in d || (f == Renames && !CanRename(d, src, dest)) then Moved([d], true)
    else match f
      case Renames => Moved([Renamed(d, src, dest)], false)
      case RenameThrows => Moved([d], true)
      case CopyThrows(left) => Moved([d, d[dest := left]], true)
      case Copies => Moved([d, Copied(d, src, dest), Copied(d, src, dest) - {src}], false)
      case RemoveThrows(left) => Moved([d, Copied(d, src, dest), Copied(d, src, dest)[src := left]], true)
  }

  function Last(disks: seq<Disk>): Disk
    requires disks != []
  {
    disks[|disks| - 1]
  }

  // ---- the pipeline ----

  /** `disks` are all the disks before the success tail deletes the move-aside directory; `final` is the disk on
      return. */
  datatype Run = Run(disks: seq<Disk>, final: Disk, exit: Exit)

  function Stop(disks: seq<Disk>, exit: Exit): Run
    requires disks != []
  {
    Run(disks, Last(disks), exit)
  }

  function Install(d: Disk, r: Request, now: int, f: Faults): Run {
    if Draft !in d then Stop([d], DraftDirMissing)
    else if r.existing.Some? && !SanctionedModify(r) then Stop([d], NameCollision)
    else if Installed !in d then PutInPlace([d], None, f)
    else if !SanctionedModify(r) then Stop([d], NameCollision)
    else if f.aside || !CanRename(d, Installed, Aside(now)) then Stop([d], Thrown(MoveAside))
    else PutInPlace([d, Renamed(d, Installed, Aside(now))], Some(now), f)
  }

  /** `aside` is the instant that names the directory holding the displaced install, if there is one. */
  function PutInPlace(disks: seq<Disk>, aside: Option<int>, f: Faults): Run
    requires disks != []
  {
    if f.mkdirInstalled then Stop(disks, Thrown(MakeInstalledParent))
    else
      var moved := MoveDir(Last(disks), Draft, Installed, f.moveIn);
      var all := disks + moved.disks;
      if moved.threw then Stop(all, Thrown(MoveIn))
      else if f.install.Installs? then Finish(all, aside, f)
      else RollBack(all, aside, f)
  }

  function RollBack(disks: seq<Disk>, aside: Option<int>, f: Faults): Run
    requires disks != []
  {
    var exit := if f.install.LeaksEnvKey? then EnvKeyLeak else InstallFailed;
    if f.mkdirDraft then Stop(disks, RollbackFailed)
    else
      var out := MoveDir(Last(disks), Installed, Draft, f.moveOut);
      if out.threw then Stop(disks + out.disks, RollbackFailed)
      else if aside.None? then Stop(disks + out.disks, exit)
      else
        var back := MoveDir(Last(out.disks), Aside(aside.value), Installed, f.restore);
        Stop(disks + out.disks + back.disks, if back.threw then RollbackFailed else exit)
  }

  /** Failing to delete the move-aside directory is not an error. */
  function Finish(disks: seq<Disk>, aside: Option<int>, f: Faults): Run
    requires disks != []
  {
    if f.consume then Stop(disks, Thrown(ConsumeDraft))
    else if aside.None? then Run(disks, Last(disks), Done)
    else
      match f.cleanup
      case None => Run(disks, Last(disks) - {Aside(aside.value)}, Done)
      case Some(left) => Run(disks, Last(disks)[Aside(aside.value) := left], Done)
  }

  // ---- what no fault can lose ----

  predicate Complete(d: Disk, place: Place, files: Files) { place in d && d[place] == files }

  predicate SameAt(d: Disk, d': Disk, place: Place) {
    if place in d then Complete(d', place, d[place]) else place !in d'
  }

  /** Every move-aside directory but the one named `now` is as before. */
  ghost predicate SameAsides(before: Disk, d: Disk, now: int) {
    forall at :: at != now ==> SameAt(before, d, Aside(at))
  }

  /** The draft's files, and the files that were installed, are each whole in one of their two directories, and
      what earlier installs moved aside is untouched. */
  ghost predicate Kept(before: Disk, d: Disk, now: int)
    requires Draft in before
  {
    && (Complete(d, Draft, before[Draft]) || Complete(d, Installed, before[Draft]))
    && (Installed in before ==>
          Complete(d, Installed, before[Installed]) || Complete(d, Aside(now), before[Installed]))
    && SameAsides(before, d, now)
  }

  ghost predicate AllKept(before: Disk, disks: seq<Disk>, now: int)
    requires Draft in before
  {
    forall i :: 0 <= i < |disks| ==> Kept(before, disks[i], now)
  }

  /** The displaced install is whole under its new name; without one the move-aside directory is as before. */
  ghost predicate AsideHolds(before: Disk, d: Disk, now: int, aside: Option<int>) {
    && SameAsides(before, d, now)
    && if Installed in before then aside == Some(now) && Complete(d, Aside(now), before[Installed])
       else aside == None && SameAt(before, d, Aside(now))
  }

  /** Before the draft moves in: it is whole, and the install path is free. */
  ghost predicate ReadyToMove(before: Disk, d: Disk, now: int, aside: Option<int>) {
    && Draft in before
    && Complete(d, Draft, before[Draft]) && Installed !in d
    && AsideHolds(before, d, now, aside)
  }

  /** Between the two moves of a failed install: the draft is whole at the install path and nowhere else. */
  ghost predicate MovedIn(before: Disk, d: Disk, now: int, aside: Option<int>) {
    && Draft in before
    && Complete(d, Installed, before[Draft]) && Draft !in d
    && AsideHolds(before, d, now, aside)
  }

  lemma KeptJoin(before: Disk, a: seq<Disk>, b: seq<Disk>, now: int)
    requires Draft in before && AllKept(before, a, now) && AllKept(before, b, now)
    ensures AllKept(before, a + b, now)
  {
    hide Kept;
  }

  lemma MoveInKeeps(before: Disk, d: Disk, now: int, aside: Option<int>, f: MoveFault)
    requires ReadyToMove(before, d, now, aside)
    ensures var m := MoveDir(d, Draft, Installed, f);
            && AllKept(before, m.disks, now)
            && (m.threw <==> !f.Renames? && !f.Copies?)
            && (!m.threw ==> MovedIn(before, Last(m.disks), now, aside))
  {
    assert map[] + d[Draft] == d[Draft];
  }

  lemma MoveOutKeeps(before: Disk, d: Disk, now: int, aside: Option<int>, f: MoveFault)
    requires MovedIn(before, d, now, aside)
    ensures var m := MoveDir(d, Installed, Draft, f);
            && AllKept(before, m.disks, now)
            && (m.threw <==> !f.Renames? && !f.Copies?)
            && (!m.threw ==> ReadyToMove(before, Last(m.disks), now, aside))
  {
    assert map[] + d[Installed] == d[Installed];
  }

  lemma RestoreKeeps(before: Disk, d: Disk, now: int, f: MoveFault)
    requires Installed in before && ReadyToMove(before, d, now, Some(now))
    ensures var m := MoveDir(d, Aside(now), Installed, f);
            && AllKept(before, m.disks, now)
            && (m.threw <==> !f.Renames? && !f.Copies?)
            && (!m.threw ==> Undone(before, Last(m.disks)) && Aside(now) !in Last(m.disks))
  {
    assert map[] + d[Aside(now)] == d[Aside(now)];
  }

  lemma RollBackKeeps(before: Disk, disks: seq<Disk>, now: int, aside: Option<int>, f: Faults)
    requires disks != [] && MovedIn(before, Last(disks), now, aside) && AllKept(before, disks, now)
    requires !f.install.Installs?
    ensures AllKept(before, RollBack(disks, aside, f).disks, now)
  {
    hide MoveDir, AllKept, SameAsides;
    MoveOutKeeps(before, Last(disks), now, aside, f.moveOut);
    var out := MoveDir(Last(disks), Installed, Draft, f.moveOut);
    KeptJoin(before, disks, out.disks, now);
    if !f.mkdirDraft && !out.threw && aside.Some? {
      RestoreKeeps(before, Last(out.disks), now, f.restore);
      KeptJoin(before, disks + out.disks, MoveDir(Last(out.disks), Aside(now), Installed, f.restore).disks, now);
    }
  }

  lemma PutInPlaceKeeps(before: Disk, disks: seq<Disk>, now: int, aside: Option<int>, f: Faults)
    requires disks != [] && ReadyToMove(before, Last(disks), now, aside) && AllKept(before, disks, now)
    ensures AllKept(before, PutInPlace(disks, aside, f).disks, now)
  {
    hide MoveDir, AllKept, RollBack, AsideHolds;
    MoveInKeeps(before, Last(disks), now, aside, f.moveIn);
    var moved := MoveDir(Last(disks), Draft, Installed, f.moveIn);
    KeptJoin(before, disks, moved.disks, now);
    if !f.mkdirInstalled && !moved.threw && !f.install.Installs? {
      assert Last(disks + moved.disks) == Last(moved.disks);
      RollBackKeeps(before, disks + moved.disks, now, aside, f);
    }
  }

  lemma ReadyAtStart(d: Disk, now: int)
    requires Draft in d && Installed !in d
    ensures ReadyToMove(d, d, now, None) && AllKept(d, [d], now)
  {
  }

  /** The move-aside rename leaves the disk ready for the draft. */
  lemma MovedAside(d: Disk, now: int)
    requires Draft in d && Installed in d && CanRename(d, Installed, Aside(now))
    ensures ReadyToMove(d, Renamed(d, Installed, Aside(now)), now, Some(now))
    ensures AllKept(d, [d, Renamed(d, Installed, Aside(now))], now)
  {
  }

  /** Whatever faults, and wherever the process stops, until an install has succeeded the draft and the files it
      replaces are both still whole somewhere. */
  lemma NothingIsLost(d: Disk, r: Request, now: int, f: Faults)
    requires Draft in d
    ensures AllKept(d, Install(d, r, now, f).disks, now)
  {
    hide PutInPlace, Renamed;
    if (r.existing.None? || SanctionedModify(r)) && Installed !in d {
      ReadyAtStart(d, now);
      PutInPlaceKeeps(d, [d], now, None, f);
    } else if SanctionedModify(r) && !f.aside && CanRename(d, Installed, Aside(now)) {
      MovedAside(d, now);
      PutInPlaceKeeps(d, [d, Renamed(d, Installed, Aside(now))], now, Some(now), f);
    }
  }

  // ---- what each exit leaves ----

  predicate Undone(before: Disk, after: Disk) { SameAt(before, after, Draft) && SameAt(before, after, Installed) }

  /** The exits that promise an unchanged workspace. */
  predicate Clean(exit: Exit) {
    exit in {DraftDirMissing, NameCollision, EnvKeyLeak, InstallFailed, Thrown(MoveAside)}
  }

  lemma RollBackExit(before: Disk, disks: seq<Disk>, now: int, aside: Option<int>, f: Faults)
    requires disks != [] && MovedIn(before, Last(disks), now, aside) && !f.install.Installs?
    ensures var run := RollBack(disks, aside, f);
            if run.exit == RollbackFailed then true
            else run.exit == (if f.install.LeaksEnvKey? then EnvKeyLeak else InstallFailed) && Undone(before, run.final)
  {
    hide MoveDir, SameAsides;
    MoveOutKeeps(before, Last(disks), now, aside, f.moveOut);
    var out := MoveDir(Last(disks), Installed, Draft, f.moveOut);
    if !f.mkdirDraft && !out.threw && aside.Some? {
      RestoreKeeps(before, Last(out.disks), now, f.restore);
    }
  }

  lemma PutInPlaceExit(before: Disk, disks: seq<Disk>, now: int, aside: Option<int>, f: Faults)
    requires disks != [] && ReadyToMove(before, Last(disks), now, aside)
    ensures var run := PutInPlace(disks, aside, f);
            && run.exit != Thrown(MoveAside) && run.exit != NameCollision && run.exit != DraftDirMissing
            && (Clean(run.exit) ==> Undone(before, run.final))
            && (run.exit == Done ==> Complete(run.final, Installed, before[Draft]) && Draft !in run.final)
  {
    hide MoveDir, RollBack, SameAsides;
    MoveInKeeps(before, Last(disks), now, aside, f.moveIn);
    var moved := MoveDir(Last(disks), Draft, Installed, f.moveIn);
    if !f.mkdirInstalled && !moved.threw && !f.install.Installs? {
      assert Last(disks + moved.disks) == Last(moved.disks);
      RollBackExit(before, disks + moved.disks, now, aside, f);
    }
  }

  /** ENV_KEY_LEAK, INSTALL_FAILED and a collision leave the draft and the installed files exactly as they were. */
  lemma CleanExitUndoes(d: Disk, r: Request, now: int, f: Faults)
    ensures var run := Install(d, r, now, f);
            && (Clean(run.exit) ==> Undone(d, run.final))
            && (run.exit == Done ==> Draft in d && Complete(run.final, Installed, d[Draft]) && Draft !in run.final)
  {
    hide PutInPlace, Renamed, ReadyToMove;
    if Draft in d && (r.existing.None? || SanctionedModify(r)) && Installed !in d {
      ReadyAtStart(d, now);
      PutInPlaceExit(d, [d], now, None, f);
    } else if Draft in d && SanctionedModify(r) && !f.aside && Installed in d && CanRename(d, Installed, Aside(now)) {
      MovedAside(d, now);
      PutInPlaceExit(d, [d, Renamed(d, Installed, Aside(now))], now, Some(now), f);
    }
  }

  /** Nothing is replaced without sanction. */
  lemma UnsanctionedNeverReplaces(d: Disk, r: Request, now: int, f: Faults, i: nat)
    requires !SanctionedModify(r) && (Installed in d || r.existing.Some?) && i < |Install(d, r, now, f).disks|
    ensures Install(d, r, now, f).disks[i] == d == Install(d, r, now, f).final
    ensures Install(d, r, now, f).exit in {NameCollision, DraftDirMissing}
  {
  }

  /** If any disk of a run differs at an install path that was there, the request reopened the very extension
      installed, its user made it, and it is modifiable and not bundled. */
  lemma ReplacedOnlyByItsMaker(d: Disk, r: Request, now: int, f: Faults, i: nat)
    requires Installed in d && i < |Install(d, r, now, f).disks|
    requires !SameAt(d, Install(d, r, now, f).disks[i], Installed) || !SameAt(d, Install(d, r, now, f).final, Installed)
    ensures r.existing.Some? && r.modifyOf == Some(r.existing.value.id)
    ensures r.existing.value.creatorUserId == Some(r.userId)
    ensures r.existing.value.modifiable && !r.existing.value.isBundled
  {
    if !SanctionedModify(r) { UnsanctionedNeverReplaces(d, r, now, f, i); }
  }

  /** A permitted request ends in success exactly if nothing it awaits throws and the installer succeeds. */
  lemma DoneIff(d: Disk, r: Request, now: int, f: Faults)
    ensures Install(d, r, now, f).exit == Done <==>
            && ReachesMove(d, r, now, f)
            && !ThrowsBeforeInstaller(f) && f.install == Installs && !f.consume
  {
    hide SameAsides, MoveDir;
    if ReachesMove(d, r, now, f) {
      if Installed in d {
        MovedAside(d, now);
        MoveInKeeps(d, Renamed(d, Installed, Aside(now)), now, Some(now), f.moveIn);
      } else {
        ReadyAtStart(d, now);
        MoveInKeeps(d, d, now, None, f.moveIn);
      }
    }
  }

  /** On success the draft is at the install path and gone from its own; what it replaced is deleted, unless deleting it
      failed, and every other directory is as before. */
  lemma SuccessDisk(d: Disk, r: Request, now: int, f: Faults, at: int)
    requires Install(d, r, now, f).exit == Done
    ensures var final := Install(d, r, now, f).final;
            && Draft in d && Draft !in final && Complete(final, Installed, d[Draft])
            && (at != now ==> SameAt(d, final, Aside(at)))
            && if Installed !in d then SameAt(d, final, Aside(now))
               else if f.cleanup.None? then Aside(now) !in final else Complete(final, Aside(now), f.cleanup.value)
  {
    hide SameAsides, MoveDir;
    CleanExitUndoes(d, r, now, f);
    if at != now { FinalKeepsAsides(d, r, now, f, at); }
    if Installed in d {
      MovedAside(d, now);
      MoveInKeeps(d, Renamed(d, Installed, Aside(now)), now, Some(now), f.moveIn);
    } else {
      ReadyAtStart(d, now);
      MoveInKeeps(d, d, now, None, f.moveIn);
    }
  }

  /** When the installer fails, the exit says how, unless undoing the move fails too. */
  lemma RollbackExits(d: Disk, r: Request, now: int, f: Faults)
    requires ReachesMove(d, r, now, f) && !ThrowsBeforeInstaller(f) && f.install != Installs
    ensures var exit := Install(d, r, now, f).exit;
            var undone :=
              && !f.mkdirDraft && f.moveOut in {Renames, Copies}
              && (Installed in d ==> f.restore in {Renames, Copies});
            exit == if !undone then RollbackFailed else if f.install == LeaksEnvKey then EnvKeyLeak else InstallFailed
  {
    hide SameAsides, MoveDir;
    var aside := if Installed in d then Some(now) else None;
    var ready := if Installed in d then Renamed(d, Installed, Aside(now)) else d;
    if Installed in d { MovedAside(d, now); } else { ReadyAtStart(d, now); }
    MoveInKeeps(d, ready, now, aside, f.moveIn);
    var m := Last(MoveDir(ready, Draft, Installed, f.moveIn).disks);
    MoveOutKeeps(d, m, now, aside, f.moveOut);
    if Installed in d && f.moveOut in {Renames, Copies} {
      RestoreKeeps(d, Last(MoveDir(m, Installed, Draft, f.moveOut).disks), now, f.restore);
    }
    hide AsideHolds, Renamed;
    var before := if Installed in d then [d, ready] else [d];
    assert Last(before + MoveDir(ready, Draft, Installed, f.moveIn).disks) == m;
  }

  /** How a run that does not get to the installer ends. */
  lemma EarlyExits(d: Disk, r: Request, now: int, f: Faults)
    ensures var exit := Install(d, r, now, f).exit;
            && (exit == DraftDirMissing <==> Draft !in d)
            && (exit == NameCollision <==>
                  Draft in d && !SanctionedModify(r) && (r.existing.Some? || Installed in d))
            && (exit == Thrown(MoveAside) <==>
                  Draft in d && SanctionedModify(r) && Installed in d
                  && (f.aside || !CanRename(d, Installed, Aside(now))))
  {
    hide MoveDir;
    if ReachesMove(d, r, now, f) {
      if Installed in d {
        MovedAside(d, now);
        PutInPlaceExit(d, [d, Renamed(d, Installed, Aside(now))], now, Some(now), f);
      } else {
        ReadyAtStart(d, now);
        PutInPlaceExit(d, [d], now, None, f);
      }
    }
  }

  // ---- what is not rolled back: a throw before the installer ----

  /** The pipeline comes to making the install directory's parent. */
  predicate ReachesMove(d: Disk, r: Request, now: int, f: Faults) {
    && Draft in d
    && (r.existing.None? || SanctionedModify(r))
    && (Installed in d ==> SanctionedModify(r) && !f.aside && CanRename(d, Installed, Aside(now)))
  }

  predicate ThrowsBeforeInstaller(f: Faults) { f.mkdirInstalled || f.moveIn !in {Renames, Copies} }

  /** The throw comes before a copy has begun. */
  predicate NothingCopied(f: Faults) { f.mkdirInstalled || f.moveIn == RenameThrows }

  /** Exactly when a throw in `mkdir` or in the move undoes itself. For a new extension: when no copy had begun. A
      replaced extension stays moved aside, so it must happen to be what the copy left at the install path. */
  lemma ThrowUndoneIff(d: Disk, r: Request, now: int, f: Faults)
    requires ReachesMove(d, r, now, f) && ThrowsBeforeInstaller(f)
    ensures Install(d, r, now, f).exit == Thrown(if f.mkdirInstalled then MakeInstalledParent else MoveIn)
    ensures Undone(d, Install(d, r, now, f).final) <==>
              if NothingCopied(f) then Installed !in d
              else Installed in d && match f.moveIn
                case CopyThrows(left) => left == d[Installed]
                case RemoveThrows(left) => left == d[Draft] == d[Installed]
                case _ => false
  {
    var ready := if Installed in d then Renamed(d, Installed, Aside(now)) else d;
    assert map[] + ready[Draft] == ready[Draft];
  }

  /** After such a throw every later attempt is a collision exactly when the extension is new and a copy had begun:
      the rollback covers only the installer, not the move before it. */
  lemma ThrowBlocksRetryIff(d: Disk, r: Request, now: int, f: Faults, now': int, f': Faults)
    requires ReachesMove(d, r, now, f) && ThrowsBeforeInstaller(f)
    ensures var after := Install(d, r, now, f).final;
            var retry := Install(after, r, now', f');
            && (retry.exit == NameCollision <==> r.existing.None? && !NothingCopied(f))
            && (retry.exit == NameCollision ==> retry.final == after)
  {
    hide MoveDir;
    var after := AfterThrow(d, r, now, f);
    if r.existing.Some? && Installed in after && !f'.aside && CanRename(after, Installed, Aside(now')) {
      MovedAside(after, now');
      PutInPlaceExit(after, [after, Renamed(after, Installed, Aside(now'))], now', Some(now'), f');
    } else if Installed !in after {
      ReadyAtStart(after, now');
      PutInPlaceExit(after, [after], now', None, f');
    }
  }

  /** The disk such a throw leaves. */
  lemma AfterThrow(d: Disk, r: Request, now: int, f: Faults) returns (after: Disk)
    requires ReachesMove(d, r, now, f) && ThrowsBeforeInstaller(f)
    ensures after == Install(d, r, now, f).final
    ensures Complete(after, Draft, if !f.mkdirInstalled && f.moveIn.RemoveThrows? then f.moveIn.left else d[Draft])
    ensures Installed in after <==> !NothingCopied(f)
    ensures Installed in d ==> Complete(after, Aside(now), d[Installed])
  {
    hide RollBack, Finish;
    after := Install(d, r, now, f).final;
  }

  /** What a retry makes of a modify that threw. No retry puts the replaced files back: they stay under the first
      attempt's move-aside name. A clean exit leaves the install path as the throw left it, and a success installs
      the draft, or what a half-done delete left of it. */
  lemma RetriedModify(d: Disk, r: Request, now: int, f: Faults, now': int, f': Faults)
    requires ReachesMove(d, r, now, f) && ThrowsBeforeInstaller(f) && Installed in d && now != now'
    ensures var after := Install(d, r, now, f).final;
            var retry := Install(after, r, now', f');
            && (forall i :: 0 <= i < |retry.disks| ==> Complete(retry.disks[i], Aside(now), d[Installed]))
            && Complete(retry.final, Aside(now), d[Installed])
            && (Clean(retry.exit) ==> SameAt(after, retry.final, Installed))
            && (retry.exit == Done ==>
                  Complete(retry.final, Installed,
                           if !f.mkdirInstalled && f.moveIn.RemoveThrows? then f.moveIn.left else d[Draft]))
  {
    hide Install, MoveDir;
    var after := AfterThrow(d, r, now, f);
    CleanExitUndoes(after, r, now', f');
    NothingIsLost(after, r, now', f');
    var retry := Install(after, r, now', f');
    forall i | 0 <= i < |retry.disks| ensures Complete(retry.disks[i], Aside(now), d[Installed]) {
      assert Kept(after, retry.disks[i], now');
      assert SameAt(after, retry.disks[i], Aside(now));
    }
    FinalKeepsAsides(after, r, now', f', now);
  }

  /** The success tail deletes no directory but the attempt's own. */
  lemma FinalKeepsAsides(d: Disk, r: Request, now: int, f: Faults, at: int)
    requires Draft in d && at != now
    ensures SameAt(d, Install(d, r, now, f).final, Aside(at))
  {
    hide Install;
    NothingIsLost(d, r, now, f);
    FinalFollowsLast(d, r, now, f);
    var run := Install(d, r, now, f);
    assert Kept(d, Last(run.disks), now);
    assert SameAt(d, Last(run.disks), Aside(at)) && SameAt(Last(run.disks), run.final, Aside(at));
  }

  lemma FinalFollowsLast(d: Disk, r: Request, now: int, f: Faults)
    ensures var run := Install(d, r, now, f);
            && run.disks != []
            && forall p :: p != Aside(now) ==> SameAt(Last(run.disks), run.final, p)
  {
    hide PutInPlace, SanctionedModify, Renamed;
    if Installed !in d {
      PutInPlaceFinal([d], None, f);
    } else if CanRename(d, Installed, Aside(now)) {
      PutInPlaceFinal([d, Renamed(d, Installed, Aside(now))], Some(now), f);
    }
  }

  lemma PutInPlaceFinal(disks: seq<Disk>, aside: Option<int>, f: Faults)
    requires disks != []
    ensures var run := PutInPlace(disks, aside, f);
            && run.disks != []
            && forall p :: aside.None? || p != Aside(aside.value) ==> SameAt(Last(run.disks), run.final, p)
  {
    hide MoveDir;
  }

  /** Without faults, and with a move-aside name not in use, a permitted request installs its draft. */
  lemma FaultlessInstalls(d: Disk, r: Request, now: int, f: Faults)
    requires Draft in d && (r.existing.None? || SanctionedModify(r)) && (r.existing.None? ==> Installed !in d)
    requires Aside(now) !in d
    requires !f.aside && !f.mkdirInstalled && f.moveIn in {Renames, Copies} && f.install == Installs && !f.consume
    ensures var run := Install(d, r, now, f); run.exit == Done && Complete(run.final, Installed, d[Draft])
  {
    hide SameAsides, MoveDir;
    CleanExitUndoes(d, r, now, f);
    if Installed in d {
      MovedAside(d, now);
      MoveInKeeps(d, Renamed(d, Installed, Aside(now)), now, Some(now), f.moveIn);
    } else {
      ReadyAtStart(d, now);
      MoveInKeeps(d, d, now, None, f.moveIn);
    }
  }

  /** After a clean exit the same request can be tried again, and with no further fault it installs. Its clock has
      moved on since the directories on the disk were named. */
  lemma RetryInstalls(d: Disk, r: Request, now: int, f: Faults, now': int, f': Faults)
    requires Draft in d && (r.existing.None? || SanctionedModify(r)) && (r.existing.None? ==> Installed !in d)
    requires Clean(Install(d, r, now, f).exit) && now < now' && forall at :: Aside(at) in d ==> at < now'
    requires !f'.aside && !f'.mkdirInstalled && f'.moveIn in {Renames, Copies} && f'.install == Installs && !f'.consume
    ensures var after := Install(Install(d, r, now, f).final, r, now', f');
            after.exit == Done && Complete(after.final, Installed, d[Draft])
  {
    hide Install;
    CleanExitUndoes(d, r, now, f);
    FinalKeepsAsides(d, r, now, f, now');
    assert Aside(now') !in d;
    FaultlessInstalls(Install(d, r, now, f).final, r, now', f');
  }

  // ---- the program ----

  class Workspace {
    var disk: Disk
    ghost var trail: seq<Disk>

    constructor (initial: Disk)
      ensures disk == initial && trail == []
    {
      disk, trail := initial, [];
    }

    /** The disk as a crash right here would leave it. */
    ghost method Note()
      modifies this`trail
      ensures trail == old(trail) + [disk]
    {
      trail := trail + [disk];
    }

    /** A rename; across a mount point, a copy and a delete. */
    method Move(src: Place, dest: Place, f: MoveFault) returns (threw: bool)
      modifies this
      ensures var m := MoveDir(old(disk), src, dest, f);
              threw == m.threw && disk == Last(m.disks) && trail == old(trail) + m.disks
    {
      if src !in disk || f.RenameThrows? || (f.Renames? && !CanRename(disk, src, dest)) {
        Note();
        return true;
      }
      if f.Renames? {
        disk := Renamed(disk, src, dest);
        Note();
        return false;
      }
      Note();
      if f.CopyThrows? {
        disk := disk[dest := f.left];
        Note();
        return true;
      }
      disk := Copied(disk, src, dest);
      Note();
      disk := if f.RemoveThrows? then disk[src := f.left] else disk - {src};
      Note();
      return f.RemoveThrows?;
    }

    method InstallAuthoredDraft(r: Request, now: int, f: Faults) returns (exit: Exit)
      modifies this
      ensures var run := Install(old(disk), r, now, f);
              exit == run.exit && disk == run.final && trail == old(trail) + run.disks
    {
      hide MoveDir, SanctionedModify, CanRename, Renamed, RollBack, Finish;
      Note();
      if Draft !in disk {
        return DraftDirMissing;
      }
      if r.existing.Some? && !SanctionedModify(r) {
        return NameCollision;
      }
      var aside: Option<int> := None;
      ghost var done := [disk];
      if Installed in disk {
        if !SanctionedModify(r) {
          return NameCollision;
        }
        if f.aside || !CanRename(disk, Installed, Aside(now)) {
          return Thrown(MoveAside);
        }
        disk := Renamed(disk, Installed, Aside(now));
        Note();
        aside, done := Some(now), [old(disk), disk];
      }
      assert Install(old(disk), r, now, f) == PutInPlace(done, aside, f);
      if f.mkdirInstalled {
        return Thrown(MakeInstalledParent);
      }
      ghost var moved := MoveDir(disk, Draft, Installed, f.moveIn);
      assert Last(done) == disk;
      var moveThrew := Move(Draft, Installed, f.moveIn);
      assert Last(done + moved.disks) == Last(moved.disks);
      assert trail == old(trail) + (done + moved.disks);
      if moveThrew {
        return Thrown(MoveIn);
      }
      done := done + moved.disks;
      if f.install.Installs? {
        exit := FinishInstall(old(trail), done, aside, f);
      } else {
        exit := RollBackInstall(old(trail), done, aside, f);
      }
    }

    method RollBackInstall(
      ghost earlier: seq<Disk>, ghost done: seq<Disk>, aside: Option<int>, f: Faults)
      returns (exit: Exit)
      requires done != [] && Last(done) == disk && trail == earlier + done
      modifies this
      ensures var run := RollBack(done, aside, f);
              exit == run.exit && disk == run.final && trail == earlier + run.disks
    {
      hide MoveDir;
      if f.mkdirDraft {
        return RollbackFailed;
      }
      var outThrew := Move(Installed, Draft, f.moveOut);
      if outThrew {
        return RollbackFailed;
      }
      if aside.Some? {
        var backThrew := Move(Aside(aside.value), Installed, f.restore);
        if backThrew {
          return RollbackFailed;
        }
      }
      return if f.install.LeaksEnvKey? then EnvKeyLeak else InstallFailed;
    }

    method FinishInstall(
      ghost earlier: seq<Disk>, ghost done: seq<Disk>, aside: Option<int>, f: Faults)
      returns (exit: Exit)
      requires done != [] && Last(done) == disk && trail == earlier + done
      modifies this`disk
      ensures var run := Finish(done, aside, f);
              exit == run.exit && disk == run.final && trail == earlier + run.disks
    {
      if f.consume {
        return Thrown(ConsumeDraft);
      }
      if aside.Some? {
        disk := if f.cleanup.None? then disk - {Aside(aside.value)} else disk[Aside(aside.value) := f.cleanup.value];
      }
      return Done;
    }
  }
}

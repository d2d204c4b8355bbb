# Verified model of the host's schedulers, stores and gates

A Dafny 4.11 model of the parts of the system whose promises are hardest to see from one function: the cron engine
and the rate gate in front of it, the dependency resolver, the boot / snapshot / rollback sequence, the permission
lattice and its boot-time reconciliation, the stateful stores and workers (call provenance, embedding outbox,
backfill, authored install), and the two canonical forms (manifest lock, audit redaction).

`dafny verify dfyconfig.toml` checks everything.

How it is laid out, one module per source file or concern:

| modules | about |
|---|---|
| `Calendar`, `JsText`, `CronParser`, `CronSearch`, `CronNext` | the five-field parser and the calendar search, first for any time zone, then for fixed offsets |
| `CronGate`, `CronFloor`, `LateExpression`, `CronText`, `ClampSchedule` | the sampled rate gate, the exact condition for its five-minute promise, an expression that breaks it, schedules as texts, the schedule grant |
| `CycleDetection`, `Resolver`, `Resolution`, `DependencyTree` | the dependency resolver |
| `Backups`, `Boot`, `BootRuns` | boots as steps over directories and markers, and whole runs of them |
| `Capability`, `CapabilityIntersect`, `Permissions`, `PermissionMeet`, `GrantMeet`, `Reconcile`, `GrantForm`, `CeilingDecision` | the permission decision, the intersections, reconciliation, what it takes for the same, and its ceiling |
| `CallProvenance`, `EmbedOutbox`, `EmbedWorker`, `EmbedTick`, `Backfill`, `AuthorInstall` | stores and workers under faults and crashes |
| `ManifestLock`, `ToolList`, `Canonicalize` | canonical tool lists |
| `AuditRedaction`, `RedactionShape`, `RedactionPaths`, `RedactionStack`, `Redactor` | audit redaction over object graphs |
| `Wrappers` | Option, Result, List |

Code that changes state is modelled by classes and loops, proved equal to specification functions; the laws are
lemmas about those functions. A fault, a crash, a clock reading, a UUID, a callback or a regular expression is a
parameter.

## What the code does not promise

Each of these is proved, with the exact condition under which the expected law does hold.

* A cron accepted by the rate gate can fire twice within four minutes: `0-40/10,56 */2,23 * * *` passes, because its
  first 48 gaps end before the late hours of the reference day (`LateExpression.AcceptedExpressionBreaksFloor`). The
  five-minute floor holds exactly under `FloorCondition` (`CronFloor.FloorIff`); the hourly and daily bounds hold
  always.
* In UTC a wall clock comes back from its own instant exactly from the year 100 on (`CronNext.ComesBackIff`):
  `Date.UTC` reads two-digit years as nineteen hundred and something (`CronNext.TwoDigitYearsNeverHappen`).
* Intersected permissions are the exact meet exactly when spawn quotas are positive and the listed paths nest before
  `$CWD` expansion as far as they do after it (`PermissionMeet.MeetExactIff`). Mixed spellings of one directory lose
  access (`PermissionMeet.MixedRootsLoseAccess`).
* A reconciled grant is within its ceiling as written, but the decision expands paths: `$CWD/../keys` passes the
  ceiling `$CWD` and allows reads outside it (`CeilingDecision.DottedPathLeavesCeiling`). The decision stays inside
  exactly when the listed paths do once expanded (`CeilingDecision.ReconciledInsideIff`).
* The exact-match `intersect` of capability sets loses nested directories (`CapabilityIntersect.NestedPathsAreLost`),
  and a missing value and an empty one share a key. It is the meet exactly under a condition on the two lists
  (`CapabilityIntersect.MeetsIff`).
* Intersecting two llm grants drops their ceilings on tokens a day, time and cost (`GrantMeet.DailyCeilingsIff`), and
  a provider whose two lists of models share nothing ends up without a list, which allows every model
  (`GrantMeet.DisjointModelsAllowAll`). The models allowed stay within both sides exactly under the condition of
  `GrantMeet.ModelsInsideIff`.
* A snapshot copy that stops halfway stays the newest snapshot, and is what a failed migration then restores
  (`BootRuns.HalfCopyIsRestored`, `BootRuns.FailedBootRestoresIff`).
* A message written while the worker is between reading its text and marking it done stays consistent exactly when
  the write changes nothing (`EmbedOutbox.RacingWriteIff`). Otherwise its new job is lost and the old text's chunks
  stay, or, if the new text is not to be indexed, those not yet inserted (`EmbedOutbox.RacingWriteIsLost`).
* Keyset paging by `created_at` alone skips rows that tie across a page edge (`Backfill.VisitsAllIff`,
  `Backfill.RerunFindsNoneIff`, `Backfill.TieAtPageEdgeIsMissed`); repeated runs still fill every gap
  (`Backfill.RunsFillEveryGap`).
* The comment above `moveDir` says that a failed move is rolled back. Only the installer is: a throw before it undoes
  itself exactly under the condition of `AuthorInstall.ThrowUndoneIff`. A half-done copy of a new extension makes
  every retry a name collision (`AuthorInstall.ThrowBlocksRetryIff`), and a modify leaves the replaced extension moved
  aside, where no retry finds it (`AuthorInstall.RetriedModify`).
* Two tools whose names the collation cannot tell apart make the lockfile hash depend on their order: every reordering
  of a list hashes alike exactly when tools that tie are alike (`ToolList.OrderIrrelevantIff`).
* Redaction says it guards against circular references; Errors escape the guard. It returns exactly when no reachable
  cycle consists of Errors alone (`RedactionStack.ReturnsIff`).
* Two scoped entries of one dependency can share an install id: the ranges `^x` and `x`
  (`Resolution.ScopedIdsDistinctIff`).

## Model

| member | source | states |
|---|---|---|
| CronParser.AddSegment | src/extensions/cron.ts:55-82 | one list segment adds exactly the values it denotes to the set, each once |
| CronParser.ParseField | src/extensions/cron.ts:51-89 | the result is sorted, duplicate-free, in range and holds exactly the values some segment denotes; otherwise the first segment's error |
| CronParser.ParseExpression | src/extensions/cron.ts:116-129 | five fields read by their own limits with wildcards noted, or the first bad field's error |
| CronParser.ValidateCron | src/extensions/cron.ts:91-114 | the refusals in the order the source tests them |
| CronParser.ParseCron | src/extensions/cron.ts:317-326 | parsing succeeds exactly on expressions that are not refused, and yields the schedule the text reads as |
| CronParser.ReadingUnique | src/extensions/cron.ts:84-88 | an expression reads as at most one schedule |
| CronText.WrittenIsRead | src/extensions/cron.ts:51-129 | every schedule can be written as an expression that is accepted and read back as that schedule and no other |
| CronText.ReadIsWritable | src/extensions/cron.ts:84-129 | what is read from an expression can be written, and reads the same again |
| CronText.PatternBreaksFloor | src/extensions/cron.ts:103-107 | what is refused for its text alone fires twice within five minutes |
| JsText.JoinSplit | src/extensions/cron.ts:54-55 | splitting on a separator loses nothing: joining gives the text back |
| Calendar.CivilOfMinuteOf | src/extensions/cron.ts:176-194 | minutes and valid wall clocks are in bijection |
| Calendar.YearLength | src/extensions/cron.ts:221-224 | the day count of years is the Gregorian one |
| Calendar.DaysInMonthIsMonthLength | src/extensions/cron.ts:221-224 | day zero of the next month is this month's last day, leap years and two-digit years included |
| CronSearch.WallClockToUtc | src/extensions/cron.ts:201-219 | the correction loop computes the bounded fixpoint iteration of the offset, for any zone |
| CronSearch.SkipMonth | src/extensions/cron.ts:255-268 | jumping to the next listed month passes over no eligible wall clock |
| CronSearch.SkipOverflow | src/extensions/cron.ts:269-274 | leaving a day past the month's end passes over no eligible wall clock |
| CronSearch.SkipMinutes | src/extensions/cron.ts:292-312 | the jump to the next listed minute, or to the next hour or day, passes over no eligible wall clock |
| CronSearch.FindNextWallClock | src/extensions/cron.ts:247-315 | for any zone: the first eligible wall clock from the next minute on, or every eligible one lies past the iteration cap |
| CronNext.FixedOffsetRoundTrip | src/extensions/cron.ts:176-219 | with a whole-minute offset, a wall clock goes to its instant and back where `Date.UTC` reads it, and the first guess at its instant, as written |
| CronNext.ComesBackIff | src/extensions/cron.ts:176-219 | in UTC, any wall clock is shown at the instant computed for it exactly from the year 100 on |
| CronNext.TwoDigitYearsNeverHappen | src/extensions/cron.ts:201-219 | in UTC, no wall clock of the years 0 to 99 is shown at the instant computed for it |
| CronNext.SatisfiableIffSomeFire | src/extensions/cron.ts:226-242 | some minute fires exactly when the listed months and days allow a date |
| CronNext.FireWithinCap | src/extensions/cron.ts:247-256 | a satisfiable cron has a fire before the cap of 4·366·24·60 iterations, February-29-only crons across a non-leap century included |
| CronNext.Next | src/extensions/cron.ts:247-326 | the least whole minute strictly after `from` that matches; it throws exactly when nothing ever matches |
| CronGate.WalkFires | src/extensions/clamp-permissions.ts:228-246 | the walk refuses exactly the schedules with two fires less than five minutes apart among the first 49 from the start of 2024 on |
| CronGate.RefusedIff | src/extensions/clamp-permissions.ts:197-246 | having 48 gaps of five minutes from the reference on means having no two such fires, in minutes and numbers |
| CronGate.PassesMinIntervalGate | src/extensions/clamp-permissions.ts:214-247 | the gate lets a valid expression through exactly if its schedule has no two such fires: what it refuses does fire twice within five minutes |
| CronGate.AcceptedIsSpaced | src/extensions/clamp-permissions.ts:197-247 | an accepted schedule lists no two minutes less than five apart |
| CronGate.AcceptedHourlyRate | src/extensions/clamp-permissions.ts:197-247 | it fires at most twelve times in any UTC hour |
| CronGate.AcceptedDailyRate | src/extensions/clamp-permissions.ts:197-247 | it fires at most 288 times in any UTC day |
| CronFloor.FloorIff | src/extensions/clamp-permissions.ts:206-213 | any two fires are five minutes apart exactly when the minutes are spaced and so is the turn of an hour, if two hours in a row can be due in one cycle of the calendar |
| CronFloor.FloorIsAccepted | src/extensions/clamp-permissions.ts:206-247 | no schedule that keeps the five-minute floor is refused |
| CronFloor.AcceptedBreaksFloor | src/extensions/clamp-permissions.ts:198-204 | a schedule the gate accepts although 22:56 and 23:00 both fire |
| LateExpression.LateReads | src/extensions/cron.ts:51-129 | the expression `0-40/10,56 */2,23 * * *` is not refused and reads as that schedule |
| LateExpression.AcceptedExpressionBreaksFloor | src/extensions/clamp-permissions.ts:214-247 | so the gate lets this expression through, and what it reads as fires twice within five minutes |
| ClampSchedule.ClampSchedulePermission | src/extensions/clamp-permissions.ts:249-294 | crons and policy come from the manifest alone; each quota is one side's clamped number and below both |
| ClampSchedule.GrantedIff | src/extensions/clamp-permissions.ts:268-272 | an expression is granted exactly if the manifest lists it with five fields and fewer than eight such before it, it is valid, and no two of its first 49 fires are less than five minutes apart |
| ClampSchedule.ClampIsNearest | src/extensions/clamp-permissions.ts:32-35 | a number becomes the allowed integer nearest to its floor, a missing one the fallback |
| ClampSchedule.GrantedCronsAreSlow | src/extensions/clamp-permissions.ts:268-272 | every granted cron is the manifest's and fires at most 12 times an hour and 288 times a day |
| CycleDetection.ReconstructPath | src/extensions/dependency-resolver.ts:76-84 | a back edge yields a closed walk of real edges |
| CycleDetection.DetectCycles | src/extensions/dependency-resolver.ts:48-95 | null exactly when the graph has no directed cycle, with a topological order as witness; otherwise a cycle |
| CycleDetection.OrderedIsAcyclic | src/extensions/dependency-resolver.ts:48-95 | a children-first order of all nodes excludes cycles |
| Resolver.Collector.CollectDeps | src/extensions/dependency-resolver.ts:129-162 | collection adds exactly what is reachable and records exactly the requested ranges; each new node has the source and range of the first edge into it in depth-first visiting order, which is a given node's or the root's, and the version and dependencies fetched from that source; it fails only on a source some chain of dependencies leads to |
| Resolver.TraversalUnique | src/extensions/dependency-resolver.ts:129-159 | the depth-first visiting order is determined by the registry and the dependencies |
| Resolution.Installer.AddResolved | src/extensions/dependency-resolver.ts:179-242 | one call lists everything below a node before it, keeps the list of finished nodes exact, and returns with nothing half-done |
| Resolution.AllEntriesRead | src/extensions/dependency-resolver.ts:193-241 | the entries of an order hold one primary per name, and per name one scoped entry per unsatisfied range |
| Resolution.PrimaryRangeIs | src/extensions/dependency-resolver.ts:190-220 | a primary entry's range text: the satisfied ranges, each once and in the order first requested, joined; failing that the first requested |
| Resolution.ScopedIdsDistinctIff | src/extensions/dependency-resolver.ts:224-234 | two scoped entries share an install id exactly for the ranges `^x` and `x` |
| DependencyTree.CollectedIsExact | src/extensions/dependency-resolver.ts:129-164 | the collected catalog is exactly the part of the registry reachable from the root, each node as its first edge requests it |
| DependencyTree.NodesAreFirstEdges | src/extensions/dependency-resolver.ts:133-151 | a node's source and required range are those of the first edge into it, the root's or a collected node's |
| DependencyTree.CatalogUnique | src/extensions/dependency-resolver.ts:129-162 | there is one exact catalog for a registry and a root |
| DependencyTree.EntriesAreRequested | src/extensions/dependency-resolver.ts:133-241 | every install entry has the source of some requested edge, and a primary one the version found there |
| DependencyTree.RangesAreEdges | src/extensions/dependency-resolver.ts:129-195 | the ranges considered for a name are exactly those on all reachable edges into it |
| DependencyTree.InstallListExact | src/extensions/dependency-resolver.ts:179-242 | every reachable dependency once as primary, after the primaries of its own dependencies, plus one scoped entry per distinct range its version fails |
| DependencyTree.FindsPrimary | src/extensions/dependency-resolver.ts:245-252 | the tree's lookup by name finds the primary entry |
| DependencyTree.TreeIsUnfolding | src/extensions/dependency-resolver.ts:245-271 | the unguarded recursion ends on acyclic graphs, and its tree is exactly the unfolding: one branch per walk |
| DependencyTree.SameTree | src/extensions/dependency-resolver.ts:245-271 | the tree does not depend on which order witnesses acyclicity |
| DependencyTree.ResolveDependencies | src/extensions/dependency-resolver.ts:112-274 | the whole resolution: a result whose tree and list read as the two rows below say, of the one exact catalog, or a real cycle of it, or a source that cannot be fetched and that some chain of dependencies leads to |
| DependencyTree.TreeIsRead | src/extensions/dependency-resolver.ts:244-273 | the tree's paths are the root's name followed by the paths of dependencies; each node shows its name, the version found, installed exactly if its primary entry is, and one child a dependency, in order |
| DependencyTree.ListIsRead | src/extensions/dependency-resolver.ts:179-242 | the list by its own fields: one primary a reachable name after those of its dependencies, with the version and status found; scoped entries with their range less a caret as version |
| DependencyTree.ExactNodesRead | src/extensions/dependency-resolver.ts:138-151 | a node has the fields of its first edge, of the manifest fetched from there, and is installed exactly if an installed version satisfies that edge's range |
| Backups.StrictlyNewest | src/db/backup.ts:87-97 | the entry newer than all others is listed first |
| Backups.PrunedIs | src/db/backup.ts:99-105 | pruning leaves exactly `keep` entries, or all if there are fewer; none it removes is newer than one it keeps, and the newest stays |
| Boot.Host.InitPglite | src/db/connection.ts:67-248 | one boot changes the fields as the step function of the whole sequence says |
| Boot.Host.SnapshotPreBoot | src/db/backup.ts:113-142 | snapshot and rotation, a partial copy left in place |
| Boot.Host.RollbackMigration | src/db/connection.ts:259-310 | set aside, restore the newest snapshot, write the marker |
| Boot.Host.PerformBackup | src/db/backup.ts:63-85 | interval backups are skipped while degraded, rotated otherwise |
| BootRuns.FailedBootRestores | src/db/connection.ts:237-310 | a failed migration with clean copies gives the data directory back and keeps the half-migrated one |
| BootRuns.FailingRunLosesNothing | src/db/connection.ts:237-310 | any number of failing boots: the data directory is what it was, every half-migrated copy is aside, at most three snapshots stay |
| BootRuns.EveryFailedBootRestores | src/db/connection.ts:127-310 | the same for each failing boot of an arbitrary run of boots, backups, stops and writes |
| BootRuns.FailedBootRestoresIff | src/db/connection.ts:158-290 | whatever faults in snapshot, rename and restoring copy: the data directory comes back exactly when the half-migrated directory (nothing to restore, or the rename fails), the part copied (the copy fails) or the copy to be restored equals it |
| BootRuns.FailedBootMarks | src/db/connection.ts:237-310 | and otherwise: degraded, stopped, the marker naming the image if there is one, the half-migrated directory aside exactly if there was something to restore and the rename worked |
| BootRuns.SuccessfulBoot | src/db/connection.ts:137-248 | a boot that opens and migrates serves the migrated database, ready, one migration more, markers gone if removable, nothing set aside but what did not open |
| BootRuns.BootSnapshots | src/db/backup.ts:113-142 | once copied, the newest pre-boot snapshot is the directory the boot found, named for image and time, and at most three stay |
| BootRuns.TrippedBoot | src/db/connection.ts:97-123 | a boot of the image its marker names serves what opens, degraded |
| BootRuns.TripsIff | src/db/connection.ts:97-100 | the breaker trips exactly for a marker naming the booting image |
| BootRuns.UnopenedBoot | src/db/connection.ts:158-228 | a directory that cannot be opened: left alone and reported, or with the opt-in set aside |
| BootRuns.BackupHolds | src/db/backup.ts:63-85 | a timer backup of a healthy process is the newest and holds the database; five stay |
| BootRuns.HalfCopyIsRestored | src/db/backup.ts:125-151 | a half-written snapshot is restored over the data |
| BootRuns.UnopenableIsKept | src/db/connection.ts:158-228 | by default a directory that does not open is left alone, stale lock files aside |
| BootRuns.RollBackTrips | src/db/connection.ts:289-302 | a completed rollback under an image trips the breaker |
| BootRuns.BreakerFreezes | src/db/connection.ts:97-123 | then any run under that image runs no migration and leaves marker, snapshots, backups and set-aside copies alone |
| Capability.IsSubset | src/extensions/capability-types.ts:116-121 | allowed exactly when every needed capability is covered |
| Capability.PathCoversLinear | src/extensions/capability-types.ts:136-138 | two path grants above one path are comparable |
| CapabilityIntersect.Intersect | src/extensions/capability-types.ts:94-106 | the first capability of `a` under each key `b` also has, and nothing else |
| CapabilityIntersect.MeetsIff | src/extensions/capability-types.ts:94-142 | the result decides as both sets together exactly when what the two lists share by key is shared outright and, of any two nested grants of theirs, the narrower lies below a shared one |
| CapabilityIntersect.MeetsWithoutEmptyIff | src/extensions/capability-types.ts:94-142 | without empty values: exactly when, whenever a grant of one side covers one of the other, one listed on both sides covers the narrower |
| CapabilityIntersect.NeverWider | src/extensions/capability-types.ts:94-106 | without empty values, the result covers nothing either side does not |
| CapabilityIntersect.FlatPathsMeet | src/extensions/capability-types.ts:94-142 | without nested paths or empty values, it is the exact meet |
| CapabilityIntersect.NestedPathsAreLost | src/extensions/capability-types.ts:94-142 | a wide and a nested directory intersect to nothing |
| Permissions.IntersectPermissions | src/extensions/capability-types.ts:266-517 | the record built field by field is the intersection that the rows of GrantMeet are about |
| GrantMeet.IntersectIsMeet | src/extensions/capability-types.ts:266-485 | field by field the intersection is below both grants, and every grant below both is below it: lists, paths, flags, spawn quotas, llm, memory, lessons, schedule, drafts |
| GrantMeet.CallerCapsDropped | src/extensions/capability-types.ts:266-485 | the two flags about calling for others survive no intersection |
| GrantMeet.StampsAreOldest | src/extensions/capability-types.ts:487-517 | exactly the surviving permissions are stamped, with the older of the timestamps there are |
| GrantMeet.ModelsInsideIff | src/extensions/capability-types.ts:627-643 | the intersected llm grant allows only models both sides allow exactly if, where the two lists for a provider share nothing, both let every model through |
| GrantMeet.DisjointModelsAllowAll | src/extensions/llm-handler.ts:223-227 | one model on each side: the intersection allows every model of the provider |
| GrantMeet.DailyCeilingsIff | src/extensions/capability-types.ts:391-419 | the result keeps the ceilings on tokens a day, time and cost exactly where neither side set one |
| Permissions.SameLowerIff | src/extensions/capability-types.ts:272-284 | host names compare equal exactly if they differ in the case of ASCII letters only |
| PermissionMeet.GrantsToCapabilitySet | src/extensions/capability-types.ts:537-623 | the pushes build exactly the capability list that `CapsDecide` is about |
| PermissionMeet.CapsDecide | src/extensions/capability-types.ts:537-623 | the capability set covers exactly what the grant allows, kind by kind |
| PermissionMeet.MeetExactIff | src/extensions/capability-types.ts:266-517 | the intersection is the exact meet of the decisions exactly when spawn quotas are positive and the listed paths, pair by pair, nest before expansion as far as after it |
| PermissionMeet.NeededSetMeet | src/extensions/capability-types.ts:116-142 | a needed set is covered by the intersection exactly when both grants cover it |
| PermissionMeet.NestedClipping | src/extensions/capability-types.ts:266-517 | a chain of clips allows what every grant allows, whatever order and nesting, for grants whose quotas are positive and whose paths nest alike before and after expansion |
| PermissionMeet.AlikePathsMeet | src/extensions/capability-types.ts:548-566 | paths that nest alike before and after expansion satisfy the path condition |
| PermissionMeet.SpelledAlikeConsistent | src/extensions/bundled-ceiling.ts:88-262 | paths all absolute, or all `$CWD` or straight below it, as in the bundled grants and ceilings, nest alike |
| PermissionMeet.MixedRootsLoseAccess | src/extensions/permissions.ts:21-25 | `$CWD` against the same directory spelled out loses access both sides have |
| Reconcile.ReconcileSettles | src/extensions/bundled.ts:1835-1909 | reconciling twice, with later declared timestamps, is canonically the same as once |
| Reconcile.StampsDoNotMatter | src/extensions/bundled.ts:1835-1909 | once a boot has nothing to write, fresh declared timestamps change nothing |
| Reconcile.ReconciledWithinCeiling | src/extensions/bundled-ceiling.ts:366-384 | whatever the row carried, no field of the result is wider than the ceiling's, paths compared as written |
| CeilingDecision.InsideIff | src/extensions/capability-types.ts:266-566 | an intersection allows nothing beyond its second side exactly when the first side's paths that lie inside it as written do so once expanded |
| CeilingDecision.ReconciledInsideIff | src/extensions/bundled-ceiling.ts:366-384 | a reconciled grant allows only what its ceiling does exactly when the merged grant's paths stay inside so |
| CeilingDecision.SpelledAlikeStaysInside | src/extensions/bundled-ceiling.ts:86-262 | it does when ceiling and grant are spelled alike: all absolute, or all straight below `$CWD` |
| CeilingDecision.DottedPathLeavesCeiling | src/extensions/permissions.ts:21-25 | `$CWD/../keys` is within the ceiling `$CWD` as written and allows a read the ceiling does not |
| Reconcile.ReconciledFieldwise | src/extensions/bundled.ts:1835-1909 | each field is the clamped declared one, or the clamped stored one where nothing is declared |
| Reconcile.UnclampedFieldwise | src/extensions/bundled.ts:1835-1877 | without a ceiling declared fields stand, stored ones where nothing is declared, and of two timestamps the stored one |
| GrantForm.SameFormIff | src/extensions/bundled.ts:1766-1792 | two grants have one canonical form exactly if they agree field by field: lists up to order, absent as empty, false as absent |
| Reconcile.StampsOnlyAge | src/extensions/bundled.ts:1835-1909 | a surviving permission's first timestamp is never moved later |
| Reconcile.BundledRow.ReconcileBundledGrant | src/extensions/bundled.ts:1766-1909 | the row is written exactly when the canonical forms differ |
| Reconcile.BundledRow.Boots | src/extensions/bundled.ts:1835-1909 | over any number of boots under one declaration at most the first writes |
| CallProvenance.Registry.Sweep | src/extensions/call-provenance.ts:91-111 | deleting while iterating removes exactly the expired entries |
| CallProvenance.Registry.Register | src/extensions/call-provenance.ts:117-154 | sweep, evict the oldest at the cap, add at the end |
| CallProvenance.Registry.Resolve | src/extensions/call-provenance.ts:162-183 | the snapshot of the one entry held under the token; nothing for a missing, empty or unknown token |
| CallProvenance.Registry.Release | src/extensions/call-provenance.ts:186-190 | cuts out the token's entry, every other one keeping its place; an unknown or empty token changes nothing |
| CallProvenance.NeverAboveCap | src/extensions/call-provenance.ts:117-154 | over every trace the registry holds at most the cap |
| CallProvenance.ResolvesToRegistered | src/extensions/call-provenance.ts:162-183 | over every trace with fresh tokens, a token resolves to the snapshot registered under it or to nothing |
| CallProvenance.ReleasedNeverResolves | src/extensions/call-provenance.ts:162-190 | and once released it never resolves again |
| CallProvenance.StaysUntilRemoved | src/extensions/call-provenance.ts:91-190 | an entry leaves only by its release, by a sweep past its TTL, or as the oldest live entry at the cap |
| CallProvenance.ResolvesWithinLifetime | src/extensions/call-provenance.ts:70-183 | unless released or evicted, a tool token resolves while no sweep comes more than six hours after it was registered, a fire token ten minutes |
| CallProvenance.GoneAfterLifetime | src/extensions/call-provenance.ts:91-111 | after such a sweep it never resolves again |
| EmbedOutbox.ActKeepsIndex | src/extensions/embed-worker.ts:304-442 | for each message: every statement, failure, crash, recovery, enqueueing and non-racing write keeps that, without a job, its chunk rows are those of its content and no other |
| EmbedOutbox.EnqueuedGapJoins | src/db/queries/message-embed-outbox.ts:115-124 | an indexable message without a job, whatever chunks it has, comes under that once a job is enqueued for it |
| EmbedOutbox.IndexAlongRun | src/extensions/embed-worker.ts:181-442 | so it holds along every run for each message it holds for at the start, whatever the others are like |
| EmbedOutbox.ActKeepsAttempts | src/extensions/embed-worker.ts:386-402 | every action keeps the failures since a reset within the stored attempts |
| EmbedOutbox.AttemptsAlongRun | src/extensions/embed-worker.ts:304-442 | no message fails more than `maxAttempts` times between resets |
| EmbedOutbox.RecoveredMessageIsDrained | src/extensions/embed-worker.ts:181-195 | from any crash, recovery makes a message claimable and one undisturbed drain of any batch that holds it leaves it done and exactly indexed |
| EmbedOutbox.RacingWriteIff | src/extensions/embed-worker.ts:347-384 | in every phase after the text is read, a write leaves the message consistent exactly when it is to be indexed and its text is the one read |
| EmbedOutbox.RacingWriteIsLost | src/extensions/embed-worker.ts:347-384 | from any such phase an undisturbed finish drops the write's job and leaves the old text's chunks, all or those not yet inserted; right exactly when these are the new text's |
| EmbedWorker.EmbedWorker.DrainRow | src/extensions/embed-worker.ts:345-402 | one row's statements are steps of the machine and leave the tables that the rows of EmbedTick are about; an embedded row has exactly its chunks and no job |
| EmbedWorker.EmbedWorker.TickOnce | src/extensions/embed-worker.ts:304-442 | a tick is a run of the machine, keeps both invariants, leaves the tables and tallies that the rows of EmbedTick are about, does nothing when already ticking and only skips when not ready |
| EmbedTick.TickSettles | src/extensions/embed-worker.ts:345-402 | a claimed job after the tick: the first statement that throws leaves it with one attempt more, claimable exactly from the backoff's end on, or never once the attempts are used up, and with the chunks inserted so far; without one it is gone and the message indexed |
| EmbedTick.TickLeavesOthers | src/extensions/embed-worker.ts:336-402 | no other job, chunk or message is touched |
| EmbedTick.ResumedTick | src/extensions/embed-worker.ts:328-333 | after degraded mode every pending job not claimed is claimable at once with no attempts; others stay |
| EmbedTick.TickTallies | src/extensions/embed-worker.ts:341-440 | the tallies count the claimed rows that throw, and those indexed |
| EmbedTick.BackoffBounds | src/extensions/embed-worker.ts:130-137 | a retry after k attempts waits at least five seconds doubled k times and less than 1.3 times that, k counted up to thirty |
| EmbedTick.RecoveryJobs | src/extensions/embed-worker.ts:181-195 | boot recovery frees exactly the jobs in progress, attempts and retry times kept |
| EmbedTick.WriteJobs | src/db/queries/message-embed-outbox.ts:54-66 | writing an indexable message leaves it claimable at once; any other write leaves neither job nor chunks |
| EmbedWorker.ReachesKeeps | src/extensions/embed-worker.ts:304-442 | runs of the tick keep each message's index exact |
| EmbedWorker.ReachesBounded | src/extensions/embed-worker.ts:386-402 | and the attempts bounded |
| Backfill.Connection.RunBackfill | scripts/backfill-embeddings.ts:223-261 | both modes report the same counts, a dry run writes nothing, a real run leaves exactly the specified tables; it ends |
| Backfill.VisitsAllIff | scripts/backfill-embeddings.ts:166-189 | every gap is visited exactly when no page edge splits a group of equal timestamps |
| Backfill.VisitedDistinct | scripts/backfill-embeddings.ts:223-246 | no message is visited twice |
| Backfill.DistinctTimesClean | scripts/backfill-embeddings.ts:166-189 | pairwise distinct timestamps split nowhere |
| Backfill.GapsOnlyRun | src/db/queries/message-embed-outbox.ts:115-124 | a gaps-only run adds one fresh job per visited gap and touches no job that was there |
| Backfill.RefreshRun | scripts/backfill-embeddings.ts:247-258 | a refreshing run leaves each stale message with a fresh job, whatever job it had |
| Backfill.OtherJobsStay | scripts/backfill-embeddings.ts:223-261 | jobs of messages that are neither gaps nor stale stay as they were |
| Backfill.GapsLeft | scripts/backfill-embeddings.ts:223-261 | the gaps left are exactly the gaps not visited |
| Backfill.RerunFindsNoneIff | scripts/backfill-embeddings.ts:223-261 | a second run finds nothing exactly when no page edge split a tie |
| Backfill.RunsFillEveryGap | scripts/backfill-embeddings.ts:223-261 | each run with gaps leaves fewer, so enough runs leave none |
| Backfill.TieAtPageEdgeIsMissed | scripts/backfill-embeddings.ts:166-189 | two gaps with one timestamp and pages of one: the second is missed |
| AuthorInstall.Workspace.Move | src/extensions/author-install.ts:60-68 | rename, or copy and delete, through every partial state |
| AuthorInstall.Workspace.InstallAuthoredDraft | src/extensions/author-install.ts:250-425 | the pipeline goes through exactly the specified disks and ends with the specified exit |
| AuthorInstall.NothingIsLost | src/extensions/author-install.ts:264-385 | on every disk before success, whatever faults, the draft and the previously installed files are each whole in one of their two places, and older move-aside directories are untouched |
| AuthorInstall.CleanExitUndoes | src/extensions/author-install.ts:337-385 | ENV_KEY_LEAK, INSTALL_FAILED and a collision leave both directories as before; success has the draft at the install path |
| AuthorInstall.UnsanctionedNeverReplaces | src/extensions/author-install.ts:250-276 | without a sanctioned modify an existing install is never touched |
| AuthorInstall.ReplacedOnlyByItsMaker | src/extensions/author-install.ts:250-276 | an existing install changes on some disk of a run only if the request reopened it, its user made it, and it is modifiable and not bundled |
| AuthorInstall.DoneIff | src/extensions/author-install.ts:245-425 | a run succeeds exactly if it is permitted, nothing it awaits throws, and the installer succeeds |
| AuthorInstall.SuccessDisk | src/extensions/author-install.ts:386-425 | on success the draft is installed and gone from its place, what it replaced deleted unless that failed, all else untouched |
| AuthorInstall.EarlyExits | src/extensions/author-install.ts:264-286 | exactly when a run ends with a missing draft, a collision, or a throw in moving aside |
| AuthorInstall.RollbackExits | src/extensions/author-install.ts:340-385 | a failing installer ends in its own error exactly if both moves back succeed, else in ROLLBACK_FAILED |
| AuthorInstall.ThrowUndoneIff | src/extensions/author-install.ts:283-288 | for every request that reaches the move, exactly when a throw in `mkdir` or the move undoes itself: for a new extension when no copy had begun, for a modify only if the copy left what was there |
| AuthorInstall.ThrowBlocksRetryIff | src/extensions/author-install.ts:60-68 | a retry after such a throw is a collision exactly when the extension is new and a copy had begun |
| AuthorInstall.RetriedModify | src/extensions/author-install.ts:264-288 | after a modify that threw, no retry puts the replaced files back: they stay moved aside; a clean exit leaves the path as the throw did, a success installs what the draft directory then held |
| AuthorInstall.RetryInstalls | src/extensions/author-install.ts:283-385 | after a clean exit a later faultless retry installs the draft |
| ManifestLock.SameIff | src/extensions/bundled-lock.ts:278-294 | two values have one canonical serialisation exactly when they are equal up to member order at every depth, arrays by position |
| ManifestLock.CanonIdempotent | src/extensions/bundled-lock.ts:278-294 | canonicalising twice changes nothing |
| ManifestLock.SortedByLookup | src/extensions/bundled-lock.ts:284-292 | sorted members are determined by what lookup sees |
| ToolList.HashInputIff | src/extensions/bundled-lock.ts:253-259 | two lists hash alike exactly when their tools pair off as the same, in any order, unless differing tools tie by name |
| ToolList.CanonicalListIdempotent | src/extensions/bundled-lock.ts:253-275 | a canonical list is its own canonical form |
| ToolList.OrderIrrelevantIff | src/extensions/bundled-lock.ts:253-259 | every reordering of a named list hashes alike exactly when tools that tie by name are alike |
| ToolList.VerifiedIff | src/extensions/bundled-lock.ts:183-236 | a manifest passes the lockfile exactly when version, entrypoint and tools are those recorded |
| ToolList.VerdictIs | src/extensions/bundled-lock.ts:183-236 | a refused manifest is told the first check that fails, with the recorded and the actual value |
| Canonicalize.CanonicalizeFields | src/extensions/bundled-lock.ts:265-294 | the loop over sorted keys fills exactly the canonical members |
| Canonicalize.CanonicalizeValue | src/extensions/bundled-lock.ts:278-294 | the recursion computes the canonical value |
| Canonicalize.HashTools | src/extensions/bundled-lock.ts:253-259 | sort, canonicalise, serialise, hash |
| AuditRedaction.WalkIsClean | src/extensions/audit-redaction.ts:146-228 | whatever the object graph, no text of the result matches a pattern and a sensitive key holds the marker or nothing |
| RedactionShape.WalkShows | src/extensions/audit-redaction.ts:146-228 | the result shows the payload: scalars as they are, members in order, the marker exactly at matching texts and sensitive keys that hold something; only objects and arrays can be called circular |
| RedactionShape.ErrorShows | src/extensions/audit-redaction.ts:174-189 | an Error shows its name, message, cause and its other own properties |
| RedactionShape.SensitiveIff | src/extensions/audit-redaction.ts:116-125 | the keys that hide their values, whatever their case |
| RedactionShape.TruncatedIff | src/extensions/audit-redaction.ts:265-315 | cut short exactly when not switched off and longer than the limit; what is left is the first 4096 characters, the length and the hash of all of it |
| AuditRedaction.CleanIsFixed | src/extensions/audit-redaction.ts:146-228 | a clean tree is redacted to itself |
| AuditRedaction.RedactionIdempotent | src/extensions/audit-redaction.ts:265-315 | an untruncated result, handed back as a payload, is returned unchanged |
| AuditRedaction.DeeperIsSame | src/extensions/audit-redaction.ts:146-228 | the stack only decides whether there is a result, not which |
| AuditRedaction.LayOutStores | src/extensions/audit-redaction.ts:192-224 | every result exists as a payload of fresh nodes |
| RedactionPaths.RedactedFieldsExact | src/extensions/audit-redaction.ts:146-228 | the recorded paths are exactly the places of the result that hold the marker |
| RedactionPaths.ErrorEntriesFresh | src/extensions/audit-redaction.ts:174-189 | re-wrapping an Error never lists a key twice |
| RedactionStack.LoopOverflows | src/extensions/audit-redaction.ts:174-196 | a cycle of Errors alone overflows every stack |
| RedactionStack.ReturnsIff | src/extensions/audit-redaction.ts:146-228 | on a finite payload the walk returns, on some stack, exactly when no reachable cycle consists of Errors alone |
| RedactionStack.FailsOnEveryStackIff | src/extensions/audit-redaction.ts:265-275 | the redaction fails on every stack exactly when there is such a cycle |
| Redactor.Walker.WalkValue | src/extensions/audit-redaction.ts:146-228 | the shared list and set end as the specification says |
| Redactor.Walker.WalkMembers | src/extensions/audit-redaction.ts:207-224 | the member loop, sensitive keys included |

## Left out

Cron
- CronNext.Next: outside it are instants whose next minute, or whose first guess under the offset, lies before the year 100, where `Date.UTC` maps years elsewhere, and offsets of a fraction of a minute; the general search theorem has no such limit.
- `Intl` zone data and daylight-saving rules: the general theorems take any offset function, the exact ones a fixed offset.
- The range of `Date` (plus or minus 8.64e15 ms) and `parseInt` beyond exactly represented integers.

Dependencies
- Resolver.Collector.CollectDeps: assumes that only finitely many names can be reached, without which the original would not end either.
- The `parent` map of `detectCycles`, which is written and never read, and `formatDepTree`, which only prints.
- Error messages; semver itself is a callback.

Boot
- `:memory:` and Postgres modes, lockfile PIDs, and a marker file that cannot be written or parsed.
- A snapshot name that repeats within one clock tick: modification times increase along a run.

Permissions
- GrantMeet.IntersectIsMeet: leaves out the three llm ceilings that the intersection drops (DailyCeilingsIff), what an absent list of models means (ModelsInsideIff), the two caller-capability flags, which it drops, and spawn quotas of zero.
- CapabilityIntersect.Intersect: keys are pairs, not the joined string, because no kind contains the separator.
- Reconcile.ReconcileSettles: needs non-empty model lists in the ceiling's `allowedModels`; whole-boot idempotence with the eventSubscriptions heal is not stated, because the heal does not update the grant that reconciliation reads.
- The other steps of `ensureBundledExtensions` (version-bump gate, tamper gate, manifest refresh) and the llm, memory and lessons clamps would add only easy members.
- Case folding of host names is the ASCII one.

Stores and workers
- SQL: tables are maps, each statement or transaction is one step, and the order in which jobs are claimed is left open.
- The tokenizer and the embedding are a function of the text; deletion of messages and overlapping chunk windows are not modelled.
- EmbedOutbox.ActKeepsIndex: excludes the racing write, of which RacingWriteIff says exactly when it keeps the index.
- Backfill.Connection.RunBackfill: writes by others between pages, pauses and progress callbacks are not modelled; timestamps are exact.
- AuthorInstall.Workspace.InstallAuthoredDraft: the manifest and verification gates come before any file moves and are not modelled; the database row, enabling it and reloading the registry touch no file.

Canonical forms
- SHA-256 and `JSON.stringify` are one injective function, and `localeCompare` is a total preorder.
- Objects with integer-like or `__proto__` keys: the first are enumerated in another fixed order, the second are not own members after assignment.
- NaN, infinities and negative zero.
- The regular expressions of the value patterns are a predicate that rejects the redactor's own texts; sensitive keys are modelled in full.
- AuditRedaction.RedactionIdempotent: truncated results are not covered, because a prefix of the serialised text is kept.
- RedactionPaths.RedactedFieldsExact: paths are lists of steps, not the joined strings, which can be ambiguous; a payload that already contains the marker text is excluded.
- Getters that throw, and typed arrays other than byte arrays.

# StayConnect: verified models of the licence store, module entitlements, incident tracking and merge authorization

This project models four stateful parts of the StayConnect repository in Dafny and proves what they guarantee over
whole runs. `dafny verify dfyconfig.toml` checks all of it.

**Licence store** (`license/store.go`, `license/verify.go`, `license/doc.go`). `TwoSlotFile` is one file with its
`.prev` copy. `Timeline` has instants and 64-bit durations, `Licence` the document and its evaluation at one instant.
`StoreSpec` gives each call as a function on the directory: what it reads, whether it refuses, and the ordered atomic
replacements it makes. Each replacement has a fate (done, error after its rename, error before it), and a call whose
fates run out is a crash. `Store` is the imperative object with the source's statement order, proved equal to that
function. `StoreRuns` builds runs of calls, faults and damage; `RollbackGuard`, `CrashRecovery` and `ClockGuard` hold
the guarantees over those runs. `Interleaving` goes down to single file operations with any number of threads, the
mutex, the unlocked `Load` and crashes between any two operations; `UnlockedLoad` states what the other calls do to
that `Load` and to the `Evaluate` that goes on with it. `CallReplies` states what each call answers after any run.

**Module entitlements** (`license/modules.go`, `cloud-admin/lib/modules.ts`).
`ModuleGraph` is an arbitrary finite dependency graph, cycles and unknown dependencies included. `ModuleRegistry` is the
issuing and authorising side, `ModuleCatalog` the console side, and `Entitlement` connects them. `StringLists` has the
sorted lists both sides use.

**Incident tracking** (`deploy/monitor/onegate_monitor.py`).
`Incidents` is one application of a run's results, `IncidentHistory` what it means over a history of runs, and
`MonitorReport` the `complete` computation and the headline.

**Merge authorization** (`tools/po_merge_authorization.py`).
`MergeAuthorization` is the decision and the live pull request it reads. `MergeGroup` runs the check inside the
workflow's concurrency group: one started run, one waiting run, and a newer run displacing the waiting one.
`OverlappingRuns` runs it without the group.

## Main results

- Version rollback: `VersionNeverDecreases`, `CrashAloneNeverFailsLoad`, `LoadNeverOlderThanAccepted`,
  `LoadIsTheAcceptedPayloadOrFails`.
- Serial equivalence of every interleaving: `EveryInterleavingIsSerial`, and back: `EveryCallCanRun`; the unlocked
  load: `UnlockedLoadIsNeverStale`, `UnlockedLoadIsAtomicIff`, `InterleavedLoadIff`, `LateLoadIff`,
  `InterleavedEvaluateIff`.
- Recovery: `RetriesConverge`, `ReimportSucceedsIff`. Revocation: `RevocationIsPermanent`.
- Replies: `InstallSucceedsIff`, `EvaluateAnswers`, `CloudStaleIff`, `LoadFailsClosed`, `DamageFailsClosed`.
- Clock: `MarkIsTheMaximum`, `RollbackReportedIff`, `ResetRestoresTheClock`, `RefusedAtEveryClockIff`, `ExpiryIsSticky`.
- Files: `CrashesKeepTheRegister`, `OneHitFallsBackOneCommit`, `ReadFallsBackByLag`, `FilesAreRegisters`,
  `StateReadsByLag`.
- Entitlements: `RequiredBy`, `AuthorizedModules`, `SwitchedOnIsLeast`, `SwitchedOffIsGreatest`,
  `SelectIssueAuthorize`, `RefusedIffDropped`.
- Incidents: `ObserveIff`, `TrackIsTheFailures`, `ReportedIff`, `RecoveredBeforeRaisedAgain`, `RaisedMinusRecovered`,
  `ForgottenIsCarriedForever`, `HeadlinePassIff`.
- Merge authorization: `ApprovalIsBoundToTheHeadIff`, `SettledStatusIsTheApproval`.

## Where a natural property is false, and exactly when it holds

- A crash alone can make `Load` report damage. Install skips the issued_at guard when a first versioned licence
  replaces an unversioned one (license/store.go:222-223), Load does not (license/store.go:353). `TornUpgradeFailsLoad`
  gives the run. `TornUpgradeIff` states the condition: the Install was interrupted between its two files, and it
  replaces an unversioned licence issued later. `CrashAloneNeverFailsLoad` shows that nothing else does it.
- `Load` takes no lock. If a licence that overtakes its document is installed between its read of current.json and its
  read of state.json, it reports damage although the disk is fine before and after (`RacingLoadFails`). A versioned
  licence overtakes by a newer version, or as another licence at the same version; an unversioned one by a later
  issued_at, so issuing a licence again is enough (`ReissueFailsLoad`). The last licence accepted in between decides
  (`SplitLoadIff`, `OvertakenBySome`); if there is none, only an upgrade back in time fails. `InterleavedLoadIff` states
  this for every Load of every interleaving, where a call may already be inside the lock at its first read.
- `Evaluate` takes the lock after that Load and does not look again, so it can answer for a superseded licence
  (`RacingEvaluateIsSuperseded`), under exactly the same condition (`InterleavedEvaluateIff`).
- A successful unlocked `Load` need not be what `Load` would have returned at one moment (`EmptyStartReadsPrev`,
  `TwoInstallsReachIt`). It is exactly when current.json existed at its read and no upgrade was half done
  (`UnlockedLoadIsAtomicIff`), which covers every load begun after a versioned licence was accepted.
- The comment at license/store.go:25-26 says a damaged file is never read as empty. That holds for every unreadable or
  unparsable file (`GarbleIsNeverEmpty`). A deleted file with no `.prev` copy does read as empty
  (`OneHitFallsBackOneCommit`).
- Repeated damage can make a read fall back more than one write (`TwoHitsFallBackFurther`). How far is exactly the lag
  of the `.prev` copy, which grows by one with each write over an unusable main file (`ReadFallsBackByLag`,
  `HitFallsBackByLag`).
- Expiry is sticky only beyond the 48 hour tolerance, and exactly there (`RefusedAtEveryClockIff`).
- A negative skew never passes a reset, except the least 64-bit value, whose negation wraps and which then passes only
  for a local clock 292 years behind (`ResetAllowedIff`); `ResetRestoresTheClock` asks for a skew between 0 and 48
  hours.
- The monitor closes the incident of an entity that is gone (onegate_monitor.py:1069-1070), but not of the last one:
  with no PMS connection left, check_pms reports `pms:none` and the posting queue, which name no entity of the list
  (onegate_monitor.py:540-563). `AbsentKeyClosedIff` states when one run's absence closes an incident. Over every run
  in which it does not, a raised incident is kept unchanged and reported again (`ForgottenIsCarriedForever`); a
  removed PMS connection is the instance (`RemovedPmsIsForgotten`, `RemovedPmsIsCarriedForever`).
- A push after approval removes the label (tools/po_merge_authorization.py:14-15), unless its run never executes. In
  the concurrency group a change that arrives while that run waits displaces it, and the pull request settles on PASS
  for a head nobody approved (`DisplacedRevocationPasses`). `ApprovalIsBoundToTheHeadIff` and
  `SettledStatusIsTheApproval` give the exact condition, and `UndisplacedApprovalIsBound` the simple one: no change
  arrives while a synchronize run for the head waits.
- Without the group every run executes and the label stays bound (`UndroppedRunsBindTheLabel`), but the reported
  status can be stale (`OverlappingRunsReportStale`).

## Conventions

Times are integers, in nanoseconds after Go's zero time; durations wrap or saturate at 64 bits where Go's do.
Signature verification, JSON and the SHA-256 fingerprint are function-valued fields of `Verifier`. The store relies on
two facts about them, stated in `Sound`: fingerprints tell payloads apart and are not empty. A write that reports an
error may or may not have taken effect. The merge check runs in a concurrency group with `cancel-in-progress: false`
(.github/workflows/po-merge-authorization.yml, lines 17-21): a started run is never cancelled, and a newer run takes
the place of a waiting one, which leaves its head non-passing. The check's own deletion of the label triggers no run.
Maps are visited in arbitrary order wherever the source ranges over a map or a dictionary.

## Model

| member | source | states |
|---|---|---|
| TwoSlotFile.ReadOrPrev | license/store.go:53-72 | returns the main copy if it parses, else `.prev` if that parses; "does not exist" exactly when neither copy exists |
| TwoSlotFile.CrashesKeepTheRegister | license/store.go:117-131 | over any writes interrupted anywhere, main is the last committed value, `.prev` is absent or one of the last two, and a read returns the last commit |
| TwoSlotFile.OneHitFallsBackOneCommit | license/store.go:53-72 | after one damage event a read gives the last commit or the one before, or reports damage; it is empty exactly when main was deleted and no `.prev` exists, which needs fewer than two commits |
| TwoSlotFile.GarbleIsNeverEmpty | license/store.go:25-27 | unreadable contents, any number of times, are never read as an empty file once something was committed |
| TwoSlotFile.NothingIsInvented | license/store.go:53-72 | under any damage a read returns only committed values |
| TwoSlotFile.ReadFallsBackByLag | license/store.go:53-72 | after any writes, crashes and damage a read returns the last commit, or the one that `.prev` lags behind by, and otherwise nothing |
| TwoSlotFile.HitFallsBackByLag | license/store.go:124-130 | a hit on the main file makes a read fall back by exactly the lag of `.prev`, at most one commit if nothing was damaged before |
| TwoSlotFile.TwoHitsFallBackFurther | license/store.go:124-130 | an instance: two hits make a read return a value two commits old |
| Timeline.Sub | license/store.go:253 | the difference of two instants, saturated at the 64-bit limits |
| Licence.GraceArithmeticIsExact | license/verify.go:84-91 | for a valid document every grace product fits 64 bits and valid_until <= grace_until <= restricted_until |
| Licence.RenewalGraceBySchema | license/doc.go:77-89 | from schema 3 on only a positive grace_period_days grants grace; before, the offline allowance stands in when none is set |
| Licence.UnboundedGraceWraps | license/doc.go:162-165 | without the 365-day bound of Validate, grace could end before the licence |
| Licence.TimelineMovesForward | license/verify.go:99-114 | from valid_from on, an active unrevoked licence moves only forward through Active, GracePeriod, Restricted, Expired |
| Licence.SessionsAllowedIff | license/doc.go:124-131 | new sessions are allowed exactly from valid_from to restricted_until of an active unrevoked licence |
| Licence.RestrictedIff | license/verify.go:86-91 | Restricted is reachable exactly for schemas below 3 with some grace |
| Licence.CloudSilenceOnlyWarns | license/verify.go:93-97 | staleness is measured against the offline allowance and never changes the state |
| Licence.EvaluatedStateIff | license/verify.go:82-116 | the state of a valid document at every instant, with both ends of each period: revoked, suspended, Active up to valid_until, GracePeriod from there to the end of grace, Restricted, Expired; and the dates the evaluation carries |
| Licence.ValidByField | license/doc.go:149-182 | from any valid document, exactly which value of each single field keeps it valid |
| Licence.SomeAreValid | license/doc.go:149-182 | there are valid documents, before schema 4 with any features and in schema 4 with the features of their modules |
| Timeline.HourMinuteReads | deploy/monitor/onegate_monitor.py:191-192 | an instant is shown as the hour of its day and the minute of that hour |
| Store.LicenseStore.WriteSynced | license/store.go:133-164 | one atomic replacement: takes effect unless its error came before the rename |
| Store.LicenseStore.WriteDurable | license/store.go:117-131 | keeps a well-formed main file as `.prev` first, then replaces main, and stops at the first error |
| Store.LicenseStore.Install | license/store.go:183-241 | the statement-by-statement Install has the disk and reply of its specification under every sequence of write fates |
| Store.LicenseStore.ResetHighWater | license/store.go:249-269 | the same for ResetHighWater, with the old mark as reply |
| Store.LicenseStore.MarkCloudValidated | license/store.go:271-281 | the same for MarkCloudValidated |
| Store.LicenseStore.AddRevocation | license/store.go:284-304 | the same for AddRevocation |
| Store.LicenseStore.Load | license/store.go:308-339 | the same for Load, which changes nothing |
| Store.LicenseStore.Evaluate | license/store.go:361-390 | the same for Evaluate, whose failed mark write does not change the answer |
| StoreRuns.PutsLand | license/store.go:117-131 | the disk after any faulty call is determined by how far each of its files got, and success means all were replaced |
| StoreRuns.CallEffect | license/store.go:183-304 | a call touches at most two files, and its second only after its first was replaced |
| StoreRuns.FilesAreRegisters | license/store.go:53-131 | every run of the store from an empty directory, with crashes and damage, leaves three two-slot files, each as its own history leaves it: the writes of that file by the calls of the run, as far as each got, and the hits on it |
| StoreRuns.StateReadsByLag | license/store.go:74-88 | after any run with any damage, state.json reads as the last state the run wrote, or as the one its `.prev` copy lags behind by, and otherwise as damaged, or as a fresh store exactly when no copy exists |
| StoreRuns.DamagedStateFallsBackOneWrite | license/store.go:74-88 | after any run that spared state.json, one damage event makes it read as the last state the run wrote or the one before, or as damaged; as a fresh store only if at most one was written |
| StoreRuns.VersionStep | license/store.go:209-235 | no call lowers the accepted version at any crash point, and state.json stays whole |
| StoreRuns.VersionNeverDecreases | license/store.go:40-41 | HighestVersion never decreases in any run that spares state.json |
| RollbackGuard.StateTracksTheAcceptedLicence | license/store.go:230-239 | once positive, version, id, fingerprint and issued_at in state.json are those of the last payload whose Install reached state.json |
| RollbackGuard.LoadNeverOlderThanAccepted | license/store.go:328-338 | after a successful Install of version n > 0, every later successful Load returns at least n, whatever happens to current.json |
| RollbackGuard.CopiesStayAccepted | license/store.go:208-235 | without a torn Install, both copies of current.json hold accepted licences, and at the accepted version only the accepted payload |
| RollbackGuard.LoadIsTheAcceptedPayloadOrFails | license/store.go:308-358 | without a torn Install, once a versioned licence was accepted, Load returns exactly the last accepted payload or fails |
| RollbackGuard.CurrentHoldsAfterCrashes | license/store.go:227-239 | under crashes alone current.json is at least the accepted version and, at that version, the accepted payload |
| RollbackGuard.CrashAloneNeverFailsLoad | license/store.go:308-358 | under crashes alone Load succeeds once a versioned licence was accepted; before that it fails exactly when nothing is installed or an upgrade was torn |
| RollbackGuard.TornUpgradeIff | license/store.go:222-239 | a step makes Load fail exactly by tearing an Install of a first versioned licence issued before the unversioned one |
| RollbackGuard.TornUpgradeFailsLoad | license/store.go:353-356 | the run in which a crash alone makes Load report damage |
| CrashRecovery.InstallIsIdempotent | license/store.go:208-236 | an accepted Install is accepted over its own result and leaves it unchanged |
| CrashRecovery.AttemptKeepsTarget | license/store.go:202-240 | an attempt interrupted anywhere keeps the Install acceptable, with the same final state |
| CrashRecovery.RetriesConverge | license/store.go:202-240 | after any number of interrupted attempts, a clean one succeeds and leaves the same current.json and state.json as a single Install |
| CrashRecovery.ReimportSucceedsIff | license/store.go:202-240 | after any run from an empty directory that spared state.json and revoked.json, re-importing the accepted versioned licence succeeds exactly when its id was not revoked |
| CrashRecovery.RevokedOnlyGrows | license/store.go:284-304 | the revoked set only grows across crashes and damage to other files |
| CrashRecovery.RevocationIsPermanent | license/store.go:204-207 | after AddRevocation(id) succeeded, no later Install of id succeeds and every later answer for that id is Revoked |
| ClockGuard.PersistedMark | license/store.go:166-172 | what each call does to the high-water mark, at every crash point |
| ClockGuard.MarkIsTheMaximum | license/store.go:166-172 | the mark is the maximum of the last reset's Central time and every clock value persisted since |
| ClockGuard.RollbackReportedIff | license/store.go:376-389 | a rollback is reported exactly when some value of that history is more than 48 hours ahead; then the state is that at the greatest value of the history, otherwise that at the given clock |
| ClockGuard.ResetAllowedIff | license/store.go:250-256 | when a reset passes its checks, for every 64-bit skew |
| ClockGuard.ResetRestoresTheClock | license/store.go:243-269 | after a reset with skew up to 48 hours, an evaluation not before the local clock uses its own clock and reports no rollback |
| ClockGuard.MarkNeverDecreases | license/store.go:166-172 | without a reset the mark never goes back |
| ClockGuard.RefusedAtEveryClockIff | license/store.go:376-387 | a licence is refused at every clock exactly when the mark is more than 48 hours past its restricted period |
| ClockGuard.EvaluationPersistsItsClock | license/store.go:382-386 | an evaluation whose writes succeed leaves a mark of at least its clock |
| ClockGuard.ExpiryIsSticky | license/store.go:361-390 | once an evaluation persisted a clock more than 48 hours past a licence's restricted period, every later evaluation of the licence refuses new sessions until a reset |
| Interleaving.ReadKeepsAhead | license/store.go:55-72 | a file read by the lock holder does not change the outcome ahead of it |
| Interleaving.WriteConsumesOneFate | license/store.go:119-131 | a replacement by the lock holder is the next step of that outcome |
| Interleaving.UndisturbedLoad | license/store.go:308-339 | the stepwise Load on an unchanging disk is the atomic one |
| Interleaving.EveryCallCanRun | license/store.go:19-20 | from any moment with the lock free, a call that passes its checks has an interleaving with the effect and reply it has alone |
| Interleaving.EveryEvaluateCanRun | license/store.go:361-390 | the same for an Evaluate whose Load returned a document |
| Interleaving.EveryLoadCanRun | license/store.go:308-339 | a Load left alone returns what Load returns on that disk, with the version and the place in lock order at which it began |
| Interleaving.EveryInterleavingIsSerial | license/store.go:19-20 | in every interleaving with crashes, files and replies are those of the calls run one after the other in lock order |
| Interleaving.ReadIsStillThereAtWrite | license/store.go:192-240 | whenever a lock holder is about to write, state.json and revoked.json read as when it took the lock, and the file it replaces is the one it found |
| Interleaving.LoadableAtEveryMoment | license/store.go:308-358 | at every moment of every interleaving from an empty directory, Load would succeed once a versioned licence was accepted |
| Interleaving.InstalledIsALowerBound | license/store.go:183-241 | an Install that returned success bounds the accepted version from below from then on |
| Interleaving.RevocationIsNeverLost | license/store.go:284-304 | a revocation that returned success is on disk from then on, in every interleaving |
| Interleaving.UnlockedLoadIsNeverStale | license/store.go:308-339 | a successful unlocked Load returns at least the version accepted when it began |
| Interleaving.UnlockedLoadIsAtomicIff | license/store.go:308-339 | a successful unlocked Load returns what a locked one would have at its read of current.json, exactly when that file existed and no upgrade was half done |
| Interleaving.EmptyStartReadsPrev | license/store.go:61-70 | a Load that began on an empty store can return the `.prev` copy though main is in force |
| Interleaving.TwoInstallsReachIt | license/store.go:227-239 | two installs of unversioned licences lead to that disk |
| UnlockedLoad.StateDescribesLast | license/store.go:230-239 | after any run that spares state.json, it describes the last licence whose Install reached it, versioned or not, and the same licence as before if there was none |
| UnlockedLoad.SupersededIffOvertaken | license/store.go:341-358 | over such a run a document becomes superseded exactly when the last licence accepted overtakes it: by version or id if versioned, by issued_at if not |
| UnlockedLoad.OvertakenBySome | license/store.go:209-239 | the last licence accepted overtakes exactly when some versioned one did, or, if none was versioned, some one issued later did (for times from year 1 on) |
| UnlockedLoad.SplitLoadIff | license/store.go:308-358 | on any store with a licence, a Load split by any crash-only run of whole calls fails exactly when the last licence that run accepted overtakes its document, or none was and it is a first versioned licence issued before the recorded one |
| UnlockedLoad.RacingLoadFails | license/store.go:331-337 | an overtaking Install completed between its two reads makes Load report damage, though it succeeds before and after |
| UnlockedLoad.ReissueFailsLoad | license/store.go:353-356 | the instance without versions: installing the same licence again with a later issued_at |
| UnlockedLoad.InterleavedLoadIff | license/store.go:308-358 | every Load of every interleaving from an empty directory fails at its read of state.json exactly when the licences accepted since its read of current.json overtake its document in that sense, the call then inside the lock included; with no state.json yet none has |
| UnlockedLoad.LateLoadIff | license/store.go:61-88 | a Load that found no state.json succeeds if there is no copy; otherwise it fails exactly when the last accepted licence that the copy knows overtakes its document |
| UnlockedLoad.InterleavedEvaluateIff | license/store.go:361-390 | an Evaluate takes the lock with the document of its Load, of at least the version accepted when that began; the document is superseded by then exactly when the licences accepted since overtake it |
| UnlockedLoad.RacingEvaluateIsSuperseded | license/store.go:361-390 | the run in which Evaluate answers for the old licence while Load would return the new one |
| CallReplies.LoadFailsClosed | license/store.go:308-339 | on any disk Load returns only a document that the main copy, or else `.prev`, holds under an authentic signature and that the state does not supersede; no licence exactly when no copy exists; damage otherwise |
| CallReplies.InstallSucceedsIff | license/store.go:183-241 | after any run that spared state.json and revoked.json, a clean Install of a signed licence succeeds exactly when its id was not revoked and it is newer than the last accepted version or its very payload, or, before any version, versioned or not issued earlier; then it is stored and accepted, otherwise refused with nothing changed |
| CallReplies.UnsignedIsRefused | license/store.go:183-191 | an unsigned or invalid licence is refused on any disk with nothing changed |
| CallReplies.RevokedAreTheAdded | license/store.go:284-304 | revoked.json holds exactly the ids whose revocation took effect |
| CallReplies.AddRevocationSucceeds | license/store.go:284-304 | a clean AddRevocation succeeds and adds exactly its id; a known id writes nothing |
| CallReplies.LastValidationIsKept | license/store.go:271-281 | in every run that spares state.json, last_cloud_validation is the clock of the last MarkCloudValidated whose state was written |
| CallReplies.MarkCloudValidatedSucceeds | license/store.go:271-281 | a clean MarkCloudValidated succeeds, sets that time, advances the mark if its clock is past it, and changes nothing else |
| CallReplies.ResetSucceedsIff | license/store.go:249-269 | the reply of a clean ResetHighWater for every skew: the old mark and a new one at Central's time, or the check that failed with nothing changed |
| CallReplies.EvaluateAnswers | license/store.go:361-390 | after any run that spared state.json and revoked.json, an evaluation that ends answers at its own clock or at the greatest persisted one, with the last contact with the cloud and the revocations of the run; a failed mark write changes nothing in it, and a clock not past the mark writes nothing |
| CallReplies.CloudStaleIff | license/verify.go:93-97 | that evaluation reports the last contact, and staleness exactly when the clock used is past it by more than a positive offline allowance |
| CallReplies.RepliesByFates | license/store.go:117-164 | a call ends as decided exactly if all its writes succeed, with its failure reply if one reports an error, and dead if the process dies before |
| CallReplies.WriteErrorIsReported | license/store.go:227-238 | every call but Evaluate reports the first write error |
| CallReplies.RefusalChangesNothing | license/store.go:183-304 | a refusal leaves every file as it was |
| CallReplies.DamageFailsClosed | license/store.go:25-27 | an unusable state.json or revoked.json stops exactly the calls that read it, with nothing written |
| ModuleGraph.SupportedIsGreatestClosed | license/modules.go:135-162 | the members that find all they need inside a set are its greatest dependency-closed subset |
| ModuleGraph.RequiresOfFirst | license/modules.go:49-56 | a known module has all the needs of its first entry, an unknown one has none |
| StringLists.LeqByFirstDifference | license/modules.go:172-179 | the order is by the first character that differs, a proper prefix first |
| StringLists.SortedKeys | license/modules.go:172-179 | the elements of a set, strictly sorted |
| ModuleRegistry.CheckDependencies | license/modules.go:66-83 | no error exactly when the ids are dependency-closed; otherwise the first lacking module in sorted order and its first missing dependency |
| ModuleRegistry.ModulesFromIDs | license/modules.go:85-97 | grants exactly the known, closed selections; an unknown id is reported first, and it is the first one |
| ModuleRegistry.LegacyModules | license/modules.go:112-133 | grants only the six legacy modules, and projecting them back gives the features without paid_wifi |
| ModuleRegistry.AuthorizedModules | license/modules.go:136-162 | terminates for every registry and every visiting order with the known grants that find all they need among the known grants |
| ModuleCatalog.Visit | cloud-admin/lib/modules.ts:10-19 | what a recursive call adds to the shared set is closed and reachable; it terminates on cycles |
| ModuleCatalog.RequiredBy | cloud-admin/lib/modules.ts:10-19 | exactly the modules reachable over one or more dependency edges |
| ModuleCatalog.DependantsOf | cloud-admin/lib/modules.ts:21-23 | exactly the other selected modules that need this one |
| ModuleCatalog.OrderedIsCanonical | cloud-admin/lib/modules.ts:25-31 | the shown list depends only on the selected set |
| ModuleCatalog.OrderedShape | cloud-admin/lib/modules.ts:26-31 | catalogue modules come first, in catalogue order, then the unknown ids, sorted and without repetition |
| ModuleCatalog.ToggleModule | cloud-admin/lib/modules.ts:34-38 | the list after a click shows the toggled selection, in canonical order |
| ModuleCatalog.PresetFor | cloud-admin/lib/modules.ts:40-43 | the least closed selection containing the preset, in canonical order |
| ModuleCatalog.PresetOfFirst | cloud-admin/lib/modules.ts:41 | the first site type with the id gives its own preset; an unset or unknown one gives none |
| ModuleCatalog.SwitchedOnIsLeast | cloud-admin/lib/modules.ts:33-35 | switching on gives the least closed superset with the module |
| ModuleCatalog.SwitchedOffIsGreatest | cloud-admin/lib/modules.ts:36-37 | switching off gives the greatest closed subset without the module |
| ModuleCatalog.ClicksStayClosed | cloud-admin/lib/modules.ts:33-38 | any sequence of toggles from a closed selection stays closed |
| ModuleCatalog.ToggleIsExact | cloud-admin/lib/modules.ts:34-38 | ticking selects the module with the least closed superset, unticking leaves the greatest closed subset without it |
| ModuleCatalog.LastClickDecides | cloud-admin/lib/modules.ts:34-38 | after any clicks the module clicked last is selected exactly if it was ticked |
| Entitlement.RefusedIffDropped | license/modules.go:85-97 | known ids are refused at issue exactly when the appliance would drop some of them |
| Entitlement.SelectionIsWhatIsAuthorized | license/modules.go:136-162 | a selection built by clicks on known modules is issued, and a v4 document granting it authorises exactly it |
| Entitlement.LeastClosedIsKnown | cloud-admin/lib/modules.ts:40-43 | a preset of known modules brings only known modules |
| Entitlement.SelectIssueAuthorize | cloud-admin/lib/modules.ts:34-43 | preset, clicks, issue and authorise in turn: the clicks start from the least closed selection with the preset, nothing is refused and exactly the selection is authorised |
| Entitlement.UnknownGrantsAreIgnored | license/modules.go:65 | grants of a newer build do not disturb the known ones |
| Entitlement.RegistryIsComplete | license/modules.go:30-41 | every dependency in the shipped registry is registered |
| Entitlement.LegacyAuthorizesItsFeatures | license/modules.go:111-133 | a document before v4 authorises exactly the modules its features stand for, each feature its own module by name, and no financial module |
| Entitlement.StandAloneAuthorized | license/modules.go:136-162 | in a v4 document each of the eight shipped modules without dependencies is authorised exactly if granted |
| Entitlement.DependentAuthorized | license/modules.go:30-41 | card_payment is authorised exactly if granted with paid_access, room_charge exactly if granted with hospitality and paid_access |
| Entitlement.OnlyGrantsAreAuthorized | license/modules.go:136-148 | a v4 document authorises only granted and known modules, nothing without a module list |
| Entitlement.FeaturesAreTheAuthorized | license/modules.go:99-109 | the seven features of a valid v4 document are exactly the authorised modules of those names |
| Incidents.Failing | deploy/monitor/onegate_monitor.py:1072 | the failing result of each key, the last one winning |
| Incidents.Evaluated | deploy/monitor/onegate_monitor.py:1073 | a tracked key is evaluated exactly by a verified result or a list read in full |
| Incidents.IncidentStore.Apply | deploy/monitor/onegate_monitor.py:1068-1095 | each key moves by its own observation; issues, recoveries and history entries, with their text, status and times, are exactly those it implies |
| Incidents.IncidentStore.ApplyFailures | deploy/monitor/onegate_monitor.py:1074-1082 | streak and count of each failing key grow by one, and it is raised when the streak reaches persist |
| Incidents.IncidentStore.Carry | deploy/monitor/onegate_monitor.py:1083-1086 | exactly the raised, unevaluated incidents are carried, with the clock time they last failed |
| Incidents.IncidentStore.Close | deploy/monitor/onegate_monitor.py:1087-1093 | exactly the incidents evaluated without failing are removed, and the raised ones reported |
| IncidentHistory.Replay | deploy/monitor/onegate_monitor.py:1059-1095 | the stored state after a history of runs is the tracked state of every key |
| IncidentHistory.ObserveIff | deploy/monitor/onegate_monitor.py:1072-1073 | from the results themselves: a key failed if some result of it is a warning or critical, the last one counting; otherwise it is cleared by a passing result or a complete list; otherwise nothing is known |
| IncidentHistory.PassClears | deploy/monitor/onegate_monitor.py:1087-1093 | a passing, nowhere failing key loses its incident, and a raised one is reported recovered |
| IncidentHistory.TrackIsTheFailures | deploy/monitor/onegate_monitor.py:1074-1082 | the stored incident, field by field: first and last failure since the key was cleared, their number, the last status, text and area, and raised exactly if some failure persisted long enough |
| IncidentHistory.ReportedIsTheFailures | deploy/monitor/onegate_monitor.py:1074-1086 | what a run reports about a key for any persistences: its own failure if it persisted, or the last failure of a raised incident with its time |
| IncidentHistory.CountersAreTheHistory | deploy/monitor/onegate_monitor.py:1074-1082 | streak and count equal the failures since the key was last evaluated without failing |
| IncidentHistory.ReportedIff | deploy/monitor/onegate_monitor.py:1060-1061 | a key is reported exactly when it failed at least persist times since it was last evaluated without failing |
| IncidentHistory.RecoveredIffEnded | deploy/monitor/onegate_monitor.py:1087-1093 | a recovery is reported exactly when a raised incident ends, only on a run that evaluated the key |
| IncidentHistory.RecoveredBeforeRaisedAgain | deploy/monitor/onegate_monitor.py:1060-1061 | between two raises of a key there is a reported recovery |
| IncidentHistory.RaisedBeforeRecoveredAgain | deploy/monitor/onegate_monitor.py:1060-1061 | between two reported recoveries of a key there is a raise |
| IncidentHistory.RaisedMinusRecovered | deploy/monitor/onegate_monitor.py:1074-1095 | raised minus recovered is the number of open raised incidents |
| MonitorReport.RunChecks | deploy/monitor/onegate_monitor.py:1033-1044 | a list is complete exactly when some fully verified check names an entity of it |
| MonitorReport.ReportsInOrder | deploy/monitor/onegate_monitor.py:1033-1044 | the results of a run are those of its checks in order, each followed by an unverified marker if it stopped |
| MonitorReport.PartialReadClosesNothing | deploy/monitor/onegate_monitor.py:1038-1044 | a check that stopped or could not verify everything closes no list it owns |
| MonitorReport.StoppedCheckClosesNothing | deploy/monitor/onegate_monitor.py:1038-1044 | the same from what the check did: it raised an exception or left a result unverified |
| MonitorReport.UnverifiedNeverClears | deploy/monitor/onegate_monitor.py:1069-1073 | a run that only failed to verify a key neither counts nor clears it |
| MonitorReport.AbsentKeyClosedIff | deploy/monitor/onegate_monitor.py:1069-1073 | a key no check mentions is closed exactly when a fully verified check names some entity of its list |
| MonitorReport.GoneEntityIsClosed | deploy/monitor/onegate_monitor.py:1038-1040 | an entity no check mentions loses its incident once its check ends, verifies all it reports and names another entity of the list |
| MonitorReport.ForgottenIsCarriedForever | deploy/monitor/onegate_monitor.py:1069-1086 | while every run neither mentions a key nor has a fully verified check naming an entity of its lists, its raised incident is kept unchanged and the last run reports it, carried from its last failure |
| MonitorReport.RemovedPmsIsForgotten | deploy/monitor/onegate_monitor.py:540-563 | a run whose check_pms reports only `pms:none` and the posting queue is such a run for every PMS link and sync, whatever the other checks report about anything but PMS entities |
| MonitorReport.RemovedPmsIsCarriedForever | deploy/monitor/onegate_monitor.py:540-563 | a PMS connection removed while its incident is raised is reported by every later such run |
| MonitorReport.Worst | deploy/monitor/onegate_monitor.py:1098-1101 | the maximum of the active statuses by rank |
| MonitorReport.HeadlinePassIff | deploy/monitor/onegate_monitor.py:1098-1101 | over a history: PASS exactly when every result of the last run was verified and no key failed as often as its persistence asks; NOT_VERIFIED exactly when some result was not and no key did |
| MonitorReport.HeadlineIff | deploy/monitor/onegate_monitor.py:1098-1101 | each of the four headlines exactly, by the active issues and the unverified results |
| MonitorReport.StoppedCheckIsNeverPass | deploy/monitor/onegate_monitor.py:1041-1044 | a run in which a check raised an exception is never PASS |
| MergeAuthorization.Decide | tools/po_merge_authorization.py:35-51 | passes only a labelled, non-draft, unmoved head; revokes exactly on a push to a labelled unmoved head; an approved one passes or is revoked |
| MergeAuthorization.NewApproval | tools/po_merge_authorization.py:9-12 | only applying the approval label makes it present, and then for the head of that moment |
| MergeAuthorization.ApprovalIff | tools/po_merge_authorization.py:37 | a label approves exactly if it is the approval label up to the case of its letters |
| MergeAuthorization.ApprovalByName | tools/po_merge_authorization.py:31-37 | instances of the approval label and of another one |
| MergeAuthorization.ChangesTakeEffect | tools/po_merge_authorization.py:79-87 | the events the check is run for: any other head can be pushed, any absent label set, any present one removed, the draft flag changed, each with its own action |
| MergeAuthorization.RevocationRemovesTheApproval | tools/po_merge_authorization.py:88-90 | a revoking run takes the approval label away and nothing else |
| MergeGroup.ApprovalIsBoundToTheHeadIff | tools/po_merge_authorization.py:14-15 | in every run of the group with no revocation pending, a present label was given for the current head exactly when no change displaced that head's synchronize run while the label stood for another |
| MergeGroup.UndisplacedApprovalIsBound | tools/po_merge_authorization.py:14-15 | if no change arrives while a synchronize run for the head waits, a present label was given for the head or is about to be revoked |
| MergeGroup.PassCoversTheApprovedHeadIff | tools/po_merge_authorization.py:79-101 | a run that passes while no revocation is pending judges the live, labelled head, and the approved one under the same exact condition |
| MergeGroup.SettledStatusIsTheApproval | tools/po_merge_authorization.py:4-7 | once the group is empty the status is PASS exactly for a labelled non-draft, and the label was given for this head exactly when no displaced revocation is exposed |
| MergeGroup.DisplacedRevocationPasses | tools/po_merge_authorization.py:43-45 | from any settled approved pull request, the run in which a displaced synchronize run lets an unapproved head pass |
| MergeGroup.DisplacedHeadFails | tools/po_merge_authorization.py:17-18 | a displaced run leaves its head non-passing, and the newer run takes its place |
| MergeGroup.GroupDrains | tools/po_merge_authorization.py:79-102 | left alone, the group empties, so the status settles |
| OverlappingRuns.UndroppedRunsBindTheLabel | tools/po_merge_authorization.py:79-102 | if every run executes, overlapping or not, a present label was given for the head or a pending run will remove it |
| OverlappingRuns.OverlappingRunsReportStale | tools/po_merge_authorization.py:84-102 | with overlapping runs PASS can be reported after the label is gone |

## Left out

- Ed25519, SHA-256, base64 and JSON encoding: functions of the abstract `Verifier`; key rotation and unmarshalling
  errors are not modelled.
- Temporary files, permissions and fsync: a replacement takes effect whole or not at all, and may report an error in
  both cases.
- Damage that leaves well-formed JSON of the wrong content, and damage while a call holds the lock: damage makes a
  file unusable or removes it, between calls.
- Several processes on one directory: the mutex is per process, and the model has one process at a time.
- The order of ids in revoked.json: the file holds a set.
- license/binding.go, AllowsProvisioning, FeatureEnabled and the guest limits: comparisons within one record, without
  state.
- Incidents.IncidentStore.Apply: the order of the issues and recoveries within one run is not modelled.
- The checks of the monitor, its report rendering and its state file: input, output and thresholds.
- The merge check: closed and reopened pull requests, failing API calls, runs cancelled by hand, and the printed
  approval record.
- React hooks, the catalog cache and label rendering in cloud-admin/lib/modules.ts.
- tools/project-state.py, the validators and the rest of the repository.

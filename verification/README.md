# WiiCompiled: a Dafny model of its protocols

WiiCompiled turns Mario Kart Wii into native programs on the player's machine. This project models the parts of
it whose correctness is not a matter of one function: the installer's crash-safe publication and repair, the
frame worker and presenter of the renderer, the fast paths into guest memory, the console's settings file, the
configuration editor, and a few caches and tables. What the code does step by step is a class or a method with
loops; what it must mean is a function or a predicate; and lemmas connect the two. `dafny verify dfyconfig.toml`
checks everything.

## What is modelled

- **Install transaction** (`Paths`, `FileTree`, `TransactionJournal`, `InstallTransactions`). A volume maps
  component paths to nodes. Each rename, journal write, delete and configuration write is one step that may be
  done, refused, or cut off by a crash before or after its effect; a delete may stop anywhere in the tree.
  After a cut no code of the process runs, and only a cut is reported as one. Recovery is cut off in the same way,
  any number of times.
- **Product repair** (`Installations`, `ProductRepair`, `RepairPlan`). The nine-status inspector over a snapshot of
  the installation, the planner, the builds as an assumed contract (`Honest`), and the publication as one atomic step.
  `RepairPlan` says what is planned in terms of the records alone.
- **Frame worker** (`FrameWorker`, `FrameProgress`, `FramePresentation`). Producer and worker as one labelled transition system over
  the shared flags, with the mutexes, condition variables and the two publication points of a cycle. A record of what
  was drained, encoded and presented accompanies the state.
- **Presenter** (`PresenterQueue`, `PresentationPacing`). The bounded queue that drops old groups, the image
  pools, and the absolute-deadline arithmetic.
- **Guest memory** (`ByteOrder`, `GuestLayout`, `GuestMemory`, `MainMemory`, `WriteGuard`, `FastMemory`,
  `ExecutableViews`, `FlatRange`, `StoreSingle`). Page tables, sparse tables, the three-level write guard, the
  registered executable ranges and deferred reads as arrays and lists over a map from host addresses to bytes; the
  reference is the guest byte memory those tables stand for. `ExecutableViews` sets the guard against the three
  views of main memory in the console's own layout.
- **Settings file** (`SettingsKey`, `SettingsText`, `SettingsPrinter`, `NandSettings`, `NandInitialization`, `NandProgress`). The
  rotating-key codec and the create-if-absent race of any number of launchers.
- **Configuration editor** (`TomlText`, `TextLines`, `PortablePaths`, `RuntimeConfiguration`). Lines are edited as
  text; a stored path is relative inside a portable root and absolute otherwise, and is resolved again to compare it.
- **Caches and tables** (`GxGuestWrite`, `IndirectDispatch` with the emitter of its table), **controller ports** (`PortAssignment`) and the
  **time base** (`Timebase`).
- `Wrappers`, `Texts`, `Numerals`, `Arithmetic` and `MachineTypes` are shared helpers.

## Where the code falls short of its promise

Each of these is stated for all inputs, most with a concrete instance beside it.

- A transaction of more than 64 entries is accepted and journaled but can never be recovered
  (`OwnJournalIsValidExactly`, `SixtyFiveEntriesCannotBeRecovered`, `UpdateThenRecover`); one of up to 64 always can
  (`SixtyFourEntriesCanBeRecovered`).
- A crash between making the work directory and writing the journal leaves that directory behind, since recovery finds
  no journal; once there was a journal or a commit, a completed recovery leaves none (`UpdateThenRecover`).
- A full page whose host address is its own guest address less one would have an encoded bias of zero and so no fast
  path (`FullBiasExactly`); host memory mapped in whole pages never has one (`WiiFastExactly`).
- A repair that rebuilds something without `fst.bin`, or with runtime assets in the workspace that are not the
  recorded ones, commits and leaves products blocked or broken; in every other case it converges (`Converges`,
  `MissingFileTableNeverConverges`, `ChangedWorkspaceAssetsShipAsBroken`).
- A base repair can report the online payload cache as verified although nothing looked at it
  (`VerifiedCacheHolds`). It can be relied upon exactly when the product's own fingerprint says "downloaded"
  (`ReportSoundExactly`); otherwise any cache, or none, gives the same report (`CacheUnseen`,
  `BlankModeReportsAnUncheckedCache`). That takes a Retro Rewind fingerprint with a blank mode beside an install state
  that says "downloaded". No repair writes a blank one (`FreshProductNamesMode`), and the build script writes
  "skipped" or the payload's origin (`Launcher/LocalBuild.ps1:440`), so both product records must come from
  elsewhere; the inspector accepts them if they agree.
- A prepared path that is the drive itself passes the overlap test although the destination lies inside it
  (`NoOverlapExactly`, `AdmissibleIsDisjointExactly`, `DriveRootIsAccepted`). Such a transaction is journaled, cannot
  be published and is taken back like any other (`Update`).
- The executable-write guard marks guest pages, but three views of main memory share their bytes, and a range that is
  registered by its cached or uncached address is never marked in the physical view. A byte can be written by an
  accepted scalar write if and only if some view of it lies on an unmarked page (`ExposedExactly`,
  `WiiExposedExactly`); a registration leaves such a view exactly when it meets main memory, is not given by its
  physical address and does not cover everything (`RegistrationOpensExactly`). The base program's sections are
  registered by their cached addresses (`translator/src/Translator.Core/Mods/ModDataPatchWriter.cs:122`), so all of
  their bytes stay writable (`CachedSectionsStayWritable`); a store at 0x4000 changes a guarded byte at 0x80004000
  (`StoreBelowReachesProgram`).
- Stack stores ask neither the guard nor the writable tables: whatever is marked, one can change every byte of the
  console's memory at its own address (`StackExposedExactly`, `StackStoresPassGuard`).
- The guard's 64-bit end of a range can wrap; then at most the first page is looked at (`ExecutableWriteGuardMayHit`).
- A fast scalar read checks pending deferred content only on its first page (`DeferredMissedExactly`,
  `DeferredMissedAcrossPages`).
- The comment on the write generations says a sum can never come back; it does after 2^32 bumps
  (`WrappedCounterSkips`). Below that number skipping is exact (`SkipExactly`).
- A write that runs into main memory from outside is counted from its own start, so the bytes it reaches in the next
  view are missed (`SkipIsSound`, `StraddlingWriteMissed`). For ranges that start in main memory and stay in one
  quarter of the address space nothing is (`SkipMeansUntouched`); the cache operations only notify ranges inside
  mapped memory.
- Joining Done between `end_frame` and `begin_frame` blocks for ever (`UnbegunJoinNeverReturns`, `HazardIsReal`);
  the documented usage rule is enough to avoid it (`RuleAvoidsCircularWait`).
- Slots of two presentation groups overlap exactly when the later group's caught-up time falls among the earlier one's
  slots (`GroupsOverlapExactly`), which on one grid never happens and off the grid does (`OffGridGroupsOverlap`).
- The reported number of slid intervals is 32 bits wide, and right exactly below 2^32 (`ShiftsAreWhole`).
- A comment in the overlapped cycle says the phase never takes the renderer's GPU mutex
  (`aurora-main/lib/aurora.cpp:1641-1642`); the code takes it for the next ImGui frame (1645-1649), and the model
  follows the code.
- A path whose stored text has a line break cannot be recorded, and one whose text is blank is not read back
  (`SetPath`). A path inside a portable root that is a drive's own root does not move with it (`PortableTreeMoves`).
- One second in a billion gives no console serial (`ClockGivesSerialExactly`).

## Model

| member | source | states |
|---|---|---|
| InstallTransactions.UpdateThenRecover | Launcher/WiiCompiled.Setup.Windows/InstallTransaction.cs:50-262 | Crash atomicity: a whole update (begin, publish, optional configuration write, commit or disposal) cut off at any step, then any number of recoveries that may themselves be cut off anywhere; the first recovery that completes leaves every destination and the configuration exactly new if the update had committed, exactly old otherwise, and the durable journal at the cut says which. On a healthy disk, with up to 64 entries, the first recovery that is not cut off completes; with more, none does once a journal stands. The work directory is gone too, unless the cut came before the journal |
| InstallTransactions.Update | Launcher/WiiCompiled.Setup.Windows/InstallTransaction.cs:81-144 | Wherever the update stops, the durable state can be taken back to old, or forward to new once the durable journal says Committed; success means committed, a reported failure means not committed; an update that names a drive's root never commits; on a healthy disk on which no file stands in the way of a directory it does not fail |
| InstallTransactions.Recover | Launcher/WiiCompiled.Setup.Windows/InstallTransaction.cs:147-169 | One recovery, complete or interrupted, keeps recoverability to old and to new; on a healthy disk and with up to 64 entries it is done unless it is cut off, and with more it is refused; done means journal and work directory are gone; the "backup missing" and "ambiguous" faults never occur |
| InstallTransactions.Begin | Launcher/WiiCompiled.Setup.Windows/InstallTransaction.cs:50-78 | Refuses exactly an empty request, an unfinished journal and inadmissible paths, without touching anything; otherwise journals every destination before the first move, and every crash point is recoverable to old; with a healthy disk and room it does not fail, and leaves room for every move |
| InstallTransactions.InstallTransaction.Publish | Launcher/WiiCompiled.Setup.Windows/InstallTransaction.cs:81-111 | All replacements are in place, or everything is taken back; recoverable to old at every cut; with a healthy disk and room for the moves it does not fail |
| InstallTransactions.InstallTransaction.PublishEntry | Launcher/WiiCompiled.Setup.Windows/InstallTransaction.cs:87-92 | The two renames of one entry keep every other entry's paths, keep the whole volume restorable at every cut, and with a healthy disk and room do not fail |
| InstallTransactions.InstallTransaction.RecordRuntimeConfigurationMutation | Launcher/WiiCompiled.Setup.Windows/InstallTransaction.cs:118-125 | The configuration preimage is durable before the configuration may be written |
| InstallTransactions.InstallTransaction.Commit | Launcher/WiiCompiled.Setup.Windows/InstallTransaction.cs:131-138 | After success the state is recoverable to new; a failed journal write leaves the transaction as it was, recoverable to old |
| InstallTransactions.InstallTransaction.Dispose | Launcher/WiiCompiled.Setup.Windows/InstallTransaction.cs:140-144 | Takes an unfinished transaction back and leaves a finished one alone |
| InstallTransactions.InstallTransaction.RollBack | Launcher/WiiCompiled.Setup.Windows/InstallTransaction.cs:171-194 | Completes with every original and the configuration restored, the journal and the work directory gone; fails only through the disk or beyond 64 entries |
| InstallTransactions.InstallTransaction.RollBackEntry | Launcher/WiiCompiled.Setup.Windows/InstallTransaction.cs:196-219 | Judging only by which of the backup, destination and prepared paths exist, brings one original back and leaves all other entries alone, from every state a crash can leave |
| InstallTransactions.CleanUp | Launcher/WiiCompiled.Setup.Windows/InstallTransaction.cs:345-366 | Deletes the work directory and then the journal, so no journal means no work directory; no destination changes, however it is cut off |
| InstallTransactions.NormalizeEntries | Launcher/WiiCompiled.Setup.Windows/InstallTransaction.cs:221-262 | The nested loops accept exactly the in-scope requests whose paths do not overlap textually, drive roots included |
| InstallTransactions.WhatExists | Launcher/WiiCompiled.Setup.Windows/InstallTransaction.cs:199-215 | In every restorable state the existence tests of rollback identify the trees: a missing backup means the original is at its destination |
| InstallTransactions.RestoreMove | Launcher/WiiCompiled.Setup.Windows/InstallTransaction.cs:208-215 | Moving a backup home restores the entry and keeps all others |
| InstallTransactions.AsideMove | Launcher/WiiCompiled.Setup.Windows/InstallTransaction.cs:89-90 | Setting the original aside keeps the volume restorable before and after the rename |
| InstallTransactions.ReplaceMove | Launcher/WiiCompiled.Setup.Windows/InstallTransaction.cs:91 | Moving the prepared tree in makes the entry replaced and keeps the volume restorable |
| InstallTransactions.WorkDirectoryIsAside | Launcher/WiiCompiled.Setup.Windows/InstallTransaction.cs:75-76 | Creating the backup directory touches no path of any entry |
| InstallTransactions.WorkDirectoryGivesRoom | Launcher/WiiCompiled.Setup.Windows/InstallTransaction.cs:75-91 | Once the backup directory is there no parent is missing for any backup or destination |
| InstallTransactions.MoveLeavesRoom | Launcher/WiiCompiled.Setup.Windows/InstallTransaction.cs:314-333 | A move within one entry leaves room for the moves of all later entries |
| InstallTransactions.Disk.Move | Launcher/WiiCompiled.Setup.Windows/InstallTransaction.cs:314-333 | One rename as a durable step: done, refused with nothing moved, or cut off before or after |
| InstallTransactions.Disk.Delete | Launcher/WiiCompiled.Setup.Common/FileSystemUtilities.cs:81-97 | A delete may stop anywhere inside the tree and touches nothing else |
| InstallTransactions.Disk.WriteJournal | Launcher/WiiCompiled.Setup.Windows/InstallTransaction.cs:301 | An atomic replacement: the old journal or the new one, never a torn one |
| TransactionJournal.AdmissibleGivesPlan | Launcher/WiiCompiled.Setup.Windows/InstallTransaction.cs:221-262 | The accepted requests give backups, destinations and prepared paths that are all pairwise apart, but for prepared paths that are drives' roots, which can never be moved |
| TransactionJournal.AdmissibleIsDisjointExactly | Launcher/WiiCompiled.Setup.Windows/InstallTransaction.cs:221-262 | An accepted request keeps its prepared and destination trees apart if and only if the prepared path is not the destination's whole drive |
| TransactionJournal.DriveRootIsAccepted | Launcher/WiiCompiled.Setup.Windows/InstallTransaction.cs:221-262 | A concrete request that replaces a directory by the drive it lies on, and is accepted |
| TransactionJournal.OwnJournalIsValidExactly | Launcher/WiiCompiled.Setup.Windows/InstallTransaction.cs:264-287 | Recovery accepts the journal that Begin wrote if and only if it has at most 64 entries |
| TransactionJournal.ValidJournalExactly | Launcher/WiiCompiled.Setup.Windows/InstallTransaction.cs:264-287 | Recovery acts on a journal, whoever wrote it, if and only if it is this installation's, has 1 to 64 entries, its destinations lie inside the installation, and its backups are the numbered ones in the transaction's own directory |
| TransactionJournal.AnyNumberOfEntriesIsAccepted | Launcher/WiiCompiled.Setup.Windows/InstallTransaction.cs:221-262 | Begin accepts requests of every size |
| TransactionJournal.SixtyFourEntriesCanBeRecovered | Launcher/WiiCompiled.Setup.Windows/InstallTransaction.cs:264-287 | A concrete admissible transaction of 64 entries whose journal every recovery reads |
| TransactionJournal.SixtyFiveEntriesCannotBeRecovered | Launcher/WiiCompiled.Setup.Windows/InstallTransaction.cs:264-287 | A concrete admissible transaction of 65 entries whose journal every recovery rejects |
| TransactionJournal.IndexNameIsInjective | Launcher/WiiCompiled.Setup.Windows/InstallTransaction.cs:251-258 | Distinct entries have distinct backup names, past 9999 as well |
| TransactionJournal.MoveWithinEntry | Launcher/WiiCompiled.Setup.Windows/InstallTransaction.cs:221-262 | A move between two paths of one entry leaves the three trees of every other entry unchanged |
| TransactionJournal.DeleteDestination | Launcher/WiiCompiled.Setup.Windows/InstallTransaction.cs:196-219 | A partial delete of one destination leaves every other entry, and the entry's own backup and prepared tree, unchanged |
| TransactionJournal.DeleteWorkRoot | Launcher/WiiCompiled.Setup.Windows/InstallTransaction.cs:345-366 | A partial delete of the work directory changes no destination |
| Paths.PathContainsExactly | Launcher/WiiCompiled.Setup.Common/FileSystemUtilities.cs:108-116 | The textual containment test is containment of paths, except that a drive root contains only itself |
| Paths.NoOverlapExactly | Launcher/WiiCompiled.Setup.Common/FileSystemUtilities.cs:118-121 | "Do not overlap" is disjointness of the two trees, or one path is the drive root of the other |
| Paths.JoinContainment | Launcher/WiiCompiled.Setup.Common/FileSystemUtilities.cs:99-116 | For component paths, being a textual prefix up to a separator is being a prefix of components; equal texts are equal paths |
| FileTree.MoveFillsTarget | Launcher/WiiCompiled.Setup.Windows/InstallTransaction.cs:314-333 | A completed move leaves at the target exactly the tree that stood at the source |
| FileTree.MoveEmptiesSource | Launcher/WiiCompiled.Setup.Windows/InstallTransaction.cs:314-333 | and nothing at the source |
| FileTree.MoveSpares | Launcher/WiiCompiled.Setup.Windows/InstallTransaction.cs:314-333 | and every disjoint path unchanged, although missing parents appear |
| FileTree.MoveKeepsClosed | Launcher/WiiCompiled.Setup.Windows/InstallTransaction.cs:314-333 | Everything that exists still lies in a directory that exists |
| FileTree.DeleteSpares | Launcher/WiiCompiled.Setup.Common/FileSystemUtilities.cs:81-97 | An interrupted delete changes nothing disjoint from its path |
| ProductRepair.ProductRepairService.Reconcile | Launcher/WiiCompiled.Setup.Windows/ProductRepairService.cs:76-310 | Succeeds exactly when it may and what it depends on is there; commits exactly when there is something to do; a failure changes nothing but the workspace copies of the game inputs; afterwards inspection is clean if and only if the plan was repairable |
| ProductRepair.ProductRepairService.RepairTwice | Launcher/WiiCompiled.Setup.Windows/ProductRepairService.cs:199-205 | If the installation was repairable, repeating a finished repair finishes without committing anything and inspection is clean; if not, the repetition never takes the already-current branch |
| ProductRepair.Converges | Launcher/WiiCompiled.Setup.Windows/ProductRepairService.cs:76-310 | A committed repair makes both products inspect as Current (or Retro Rewind Absent) if and only if nothing was rebuilt, or fst.bin exists and the workspace runtime assets are the recorded ones |
| ProductRepair.SecondRepairIsIdle | Launcher/WiiCompiled.Setup.Windows/ProductRepairService.cs:199-205 | The plan of the same repair on the repaired installation is idle if and only if the first was repairable |
| ProductRepair.IdleIsClean | Launcher/WiiCompiled.Setup.Windows/ProductRepairService.cs:199-205 | The already-current branch is taken only on an installation that inspects as clean |
| ProductRepair.VerifiedCacheHolds | Launcher/WiiCompiled.Setup.Windows/ProductRepairService.cs:371-375 | When a repair reports the payload cache as verified, the cache holds the payload the product names: always after a rebuild; otherwise exactly if the recorded length is the payload's; and after a base repair if the fingerprint itself says "downloaded" |
| ProductRepair.ReportSoundExactly | Launcher/WiiCompiled.Setup.Windows/ProductRepairService.cs:371-375 | The verified report of a base operation implies the named payload in the cache if and only if the product's own fingerprint says "downloaded" |
| ProductRepair.CacheUnseen | Launcher/WiiCompiled.Setup.Windows/Installation.cs:370-376 | With any other fingerprint the operation takes the same course and gives the same report whatever stands in the cache |
| ProductRepair.FreshProductNamesMode | Launcher/WiiCompiled.Setup.Windows/LocalBuildService.cs:144-196 | A product built by a repair always names its own payload choice |
| ProductRepair.MissingFileTableNeverConverges | Launcher/WiiCompiled.Setup.Windows/ProductRepairService.cs:619-656 | Without fst.bin, with an honest build script that does all it is asked, a full rebuild is carried out and committed, is blocked afterwards, and is planned again unchanged |
| ProductRepair.ChangedWorkspaceAssetsShipAsBroken | Launcher/WiiCompiled.Setup.Windows/ProductRepairService.cs:190-197 | Changed runtime assets in the workspace are shipped by a rebuild that an honest build script carries out, and then reported broken |
| ProductRepair.BlankModeReportsAnUncheckedCache | Launcher/WiiCompiled.Setup.Windows/ProductRepairService.cs:371-375 | A concrete installation with a blank mode in both product records: a base operation reports a verified cache that does not exist |
| ProductRepair.Plan | Launcher/WiiCompiled.Setup.Windows/ProductRepairService.cs:124-197 | The flags set and overruled step by step are these conditions, which RepairPlan reads off the records; a payload is published only when there is one; a base operation is refused exactly when Retro Rewind needs its inputs |
| RepairPlan.BaseRebuiltExactly | Launcher/WiiCompiled.Setup.Windows/ProductRepairService.cs:139-148 | The base product is built again if and only if it is not proven or the release expects another game than the installed one |
| RepairPlan.RetroRebuiltExactly | Launcher/WiiCompiled.Setup.Windows/ProductRepairService.cs:163-188 | With Retro Rewind inputs the product is built again if and only if it is not proven, its records do not name the selected inputs and payload, or the release expects another game; the cache has no part in it |
| RepairPlan.RefusedExactly | Launcher/WiiCompiled.Setup.Windows/ProductRepairService.cs:152-162 | A repair without Retro Rewind inputs is refused if and only if such a product is recorded but gone, or is there and not in order or not expected |
| RepairPlan.CurrentWithoutInputsExactly | Launcher/WiiCompiled.Setup.Windows/Installation.cs:300-376 | Without inputs a product is in order if and only if it is proven, both records agree on the inputs it was built from, and a downloaded payload is in the cache as recorded |
| RepairPlan.PublishedExactly | Launcher/WiiCompiled.Setup.Windows/ProductRepairService.cs:165-197 | The payload is published exactly with a new product or over a cache that holds something else, support files exactly where a kept product lacks the recorded ones, the root exactly where it is not recorded |
| RepairPlan.CacheCausesNoBuild | Launcher/WiiCompiled.Setup.Windows/ProductRepairService.cs:163-188 | Whatever the cache is replaced by, the plan changes at most in publishing the payload |
| RepairPlan.DeletedPayloadIsOnlyRepublished | Launcher/WiiCompiled.Setup.Windows/ProductRepairService.cs:169-177 | A concrete online installation whose payload file is deleted: the plan publishes the payload and builds nothing |
| RepairPlan.CleanBuildExactly | Launcher/WiiCompiled.Setup.Windows/ProductRepairService.cs:220-224 | The build is clean from the start if and only if a product is built again that is damaged or cannot be proven for another reason than its toolkit or the selected inputs |
| RepairPlan.ProvenExactly | Launcher/WiiCompiled.Setup.Windows/Installation.cs:444-502 | Proven means that the state file stands, the executable has 64 KiB and the hash its fingerprint names, fst.bin is there, and fingerprint, state and build record all name the installed game, whatever their letter case |
| RepairPlan.BaseStatusExactly | Launcher/WiiCompiled.Setup.Windows/Installation.cs:260-293 | When the inspector calls the base product current, broken or made by another toolkit, by what the records say; blocked is what is left |
| RepairPlan.RetroStatusExactly | Launcher/WiiCompiled.Setup.Windows/Installation.cs:300-376 | When Retro Rewind is absent, broken, without inputs or made by another toolkit; every later answer needs provenance and both records of the inputs in order |
| RepairPlan.KnownInputsStatus | Launcher/WiiCompiled.Setup.Windows/Installation.cs:348-376 | Then: changed Code.pul, changed inputs, unusable payload records, a cache that is observed or computed to differ, or current |
| RepairPlan.RecordedModeExactly | Launcher/WiiCompiled.Setup.Windows/Installation.cs:557-567 | The payload choice is the product's, or the state's where the product names none |
| ProductRepair.BuildUpdatedInstallState | Launcher/WiiCompiled.Setup.Windows/ProductRepairService.cs:555-602 | Where every field of the written install state comes from: the request, the product that is kept, or the state before |
| ProductRepair.ProductRepairService.PublishProducts | Launcher/WiiCompiled.Setup.Windows/ProductRepairService.cs:416-471 | One publication leaves exactly the repaired installation, or nothing changed; it fails exactly when assets lost their provenance, a product is running, or the transaction failed |
| ProductRepair.ProductRepairService.BuildProducts | Launcher/WiiCompiled.Setup.Windows/ProductRepairService.cs:212-283 | Gives usable products with fresh fingerprints exactly when the inputs check out and the build delivers, or the one clean retry of an incremental build that ended with an error |
| ProductRepair.ProductRepairService.RefreshTranslationAssets | Launcher/WiiCompiled.Setup.Windows/ProductRepairService.cs:619-656 | Succeeds exactly when the installed inputs are the expected ones, and then the workspace holds them |
| ProductRepair.BaseAfter | Launcher/WiiCompiled.Setup.Windows/Installation.cs:260-293 | After a publication the base product is Current if and only if fst.bin exists and, if it was rebuilt, the assets were authoritative |
| ProductRepair.RetroAfterRebuild | Launcher/WiiCompiled.Setup.Windows/Installation.cs:300-376 | A rebuilt Retro Rewind product is proven if and only if fst.bin exists |
| ProductRepair.RetroAfterKeeping | Launcher/WiiCompiled.Setup.Windows/Installation.cs:300-376 | A kept Retro Rewind product is Current after the publication, also when only its payload cache was wrong before |
| Installations.RetroCurrentExactly | Launcher/WiiCompiled.Setup.Windows/Installation.cs:312-376 | Current means proven provenance, matching compile inputs, and a payload cache that is observed or recomputed to match |
| Installations.RecoveredPayloadIsTheCache | Launcher/WiiCompiled.Setup.Windows/ProductRepairService.cs:313-363 | A payload recovered from the installation is the cached file, and needs no payload work unless the state belongs to another directory |
| RepairPlan.RecoveredExactly | Launcher/WiiCompiled.Setup.Windows/ProductRepairService.cs:313-363 | A payload can be recovered if and only if both records name, as downloaded, the very file in the cache |
| FrameWorker.Safety | aurora-main/lib/aurora.cpp:1596-1784 | In every interleaving: ready implies sealed outside the clearing section, at most one frame is in flight, end_frame clears and posts only at rest, and a drain never overlaps the seal or the preparation |
| FrameWorker.RunKeepsInv | aurora-main/lib/aurora.cpp:296-415 | Every step of producer and worker keeps the invariant |
| FrameWorker.DoneCarriesOwnResult | aurora-main/lib/aurora.cpp:1610-1656 | When a cycle is published as Done, framePrepared is the result of that cycle's own preparation |
| FrameWorker.JoinedBeginReturnsOwnResult | aurora-main/lib/aurora.cpp:1690-1753 | A begin_frame that joined Done returns the result of the cycle it joined |
| FrameWorker.BeginReturns | aurora-main/lib/aurora.cpp:1690-1753 | With DONE up begin_frame returns the recorded result, which on its own path is the one it made; without waiting for DONE it returns true and the worker has leave to prepare |
| FrameWorker.ProducerPrepares | aurora-main/lib/aurora.cpp:1747-1752 | A preparation on the producer is recorded and returned with its own result |
| FramePresentation.DoneMeansPresented | aurora-main/lib/aurora.cpp:1596-1656 | In every interleaving: when a cycle reaches DONE without stop its frame has been presented exactly once, last of all, and a frame whose successor was prepared has begun ImGui's next frame |
| FramePresentation.WhenPresented | aurora-main/lib/aurora.cpp:1604-1644 | In every interleaving: a cycle without overlap has presented its frame before it waits for leave to prepare; an overlapped one has not while SEALED is down; the frame is drained first |
| FramePresentation.PresentsCurrent | aurora-main/lib/aurora.cpp:1604-1644 | Whatever the worker presents is the current frame, before DONE, and in an overlapped cycle after SEALED |
| FramePresentation.PresentedInOrder | aurora-main/lib/aurora.cpp:1596-1656 | In every run, stopped or not, frames are presented in order and each at most once |
| FramePresentation.RunKeepsFilm | aurora-main/lib/aurora.cpp:296-415 | Every step keeps what the record of drained, encoded and presented frames says at each place of both threads |
| FrameWorker.BegunJoinReturns | aurora-main/lib/aurora.cpp:358-396 | A join after begin_frame returns within 21 steps of the worker, the GPU mutex taken for the next ImGui frame included |
| FrameWorker.EveryWorkerStepCounts | aurora-main/lib/aurora.cpp:1610-1656 | While the producer is blocked after begin_frame the worker can always step, and every step brings Done closer |
| FrameProgress.CallReturns | aurora-main/lib/aurora.cpp:296-415 | After any run that keeps the usage rule, the call under way, whichever it is, returns within 301 steps of both threads: the producer waits only for a lock, a phase or the worker's exit, and the worker gets there |
| FrameProgress.WhyItWaits | aurora-main/lib/aurora.cpp:1690-1784 | Inside a call the producer is stopped only by a lock that the worker holds, a phase that is down, or the worker's exit |
| FrameProgress.WorkerHelps | aurora-main/lib/aurora.cpp:1610-1656 | Wherever it is stopped the worker can step and every step brings the end of the call nearer |
| FrameWorker.RuleAvoidsCircularWait | runtime/include/aurora_events.h:109-115 | A producer that never joins Done between end_frame and begin_frame never meets the circular wait |
| FrameWorker.UnbegunJoinNeverReturns | runtime/include/aurora_events.h:109-115 | A join of Done before the next begin_frame never returns, whoever runs |
| FrameWorker.RuleIsNeeded | runtime/include/aurora_events.h:109-115 | The rule asks no more than it must: a join that breaks it while its phase is down never returns |
| FrameWorker.HazardIsReal | runtime/include/aurora_events.h:109-115 | The circular wait is reached by a concrete run that breaks the rule |
| FrameWorker.StopJoinReturns | aurora-main/lib/aurora.cpp:398-415 | After stop the worker exits from wherever it was, with both phases released, and the join returns |
| FrameWorker.StopAdvances | aurora-main/lib/aurora.cpp:398-415 | After stop every worker step is possible and brings the exit closer |
| PresenterQueue.Presenter.EnqueuePresentations | aurora-main/lib/aurora.cpp:1115-1149 | The newest group is kept whole at the end of the queue; older jobs go all or none, and exactly when the queue would pass both 8 and three times the group |
| PresenterQueue.Presenter.TakeJob | aurora-main/lib/aurora.cpp:1065-1081 | Takes the oldest job; what is taken over a whole run is an in-order selection of what was enqueued |
| PresenterQueue.DroppedGroupStaysDropped | aurora-main/lib/aurora.cpp:1065-1149 | Over a whole run, once a slot was passed over no later slot of its group is presented: another group begins in between |
| PresenterQueue.GroupJoins | aurora-main/lib/aurora.cpp:1121-1148 | A group joining a kept or a cleared queue keeps the queue the end of everything accepted, with every skip landing on the first slot of a group |
| PresenterQueue.JobLeaves | aurora-main/lib/aurora.cpp:1072-1080 | Taking the oldest job keeps the same, and appends it to the in-order selection |
| PresenterQueue.Presenter.AcquireImage | aurora-main/lib/aurora.cpp:846-872 | The image handed out is held by no queued, presenting or half-built job; no image in use is dropped; a new one is made only when every image of the size is in use |
| PresenterQueue.Presenter.InUseExactly | aurora-main/lib/aurora.cpp:846-872 | An image counts as in use if and only if a queued, presenting or half-built job has it |
| PresenterQueue.Presenter.SearchPool | aurora-main/lib/aurora.cpp:851-865 | The erase-while-iterating loop drops only idle images of other sizes |
| PresentationPacing.Pacer.Pace | aurora-main/lib/aurora.cpp:1398-1514 | Stamps and slides one group: every slot keeps its distance from the anchor, the whole group moves together, a frame that is not interpolated is due 6.5 ms after the start of its interval, and an unscheduled group resets the cursor |
| PresentationPacing.AnchorAfter | aurora-main/lib/aurora.cpp:1484-1497 | The anchor is not before the encode's end nor before its schedule, is after the previous anchor, and leaves a whole interval exactly when the caught-up time is not inside the previous group's interval |
| PresentationPacing.AnchorIsSoonest | aurora-main/lib/aurora.cpp:1484-1497 | The anchor is the soonest point of the group's grid that is not past, or one interval after a previous group that it would not follow; on one grid it is the soonest such point after the previous anchor |
| PresentationPacing.AnchorsAreSoonest | aurora-main/lib/aurora.cpp:1481-1514 | Over a whole run on one grid every group gets the soonest anchor allowed after the previous one |
| PresentationPacing.SlotsStayInOrderExactly | aurora-main/lib/aurora.cpp:1484-1497 | A slot of the previous group is due before this group's first one unless this group's caught-up time falls after the previous anchor and no later than that slot |
| PresentationPacing.GroupsOverlapExactly | aurora-main/lib/aurora.cpp:1484-1497 | All slots of the previous group come first if and only if the caught-up time does not fall among them |
| PresentationPacing.AnchorsGrow | aurora-main/lib/aurora.cpp:1481-1514 | Over a whole run on one grid, anchors are at least one interval per group apart |
| PresentationPacing.AnchorsAfter | aurora-main/lib/aurora.cpp:1481-1514 | Over a whole run every anchor is on the grid and not before its group's encode end |
| PresentationPacing.SlotsPrecedeLaterGroups | aurora-main/lib/aurora.cpp:1398-1514 | Every slot of a group is due before the first slot of every later group |
| PresentationPacing.ShiftsAreWhole | aurora-main/lib/aurora.cpp:1498-1508 | Every shift of a run is a whole number of intervals, and the reported 32-bit number is it if and only if it is below 2^32 |
| PresentationPacing.OffsetsWithinInterval | aurora-main/lib/aurora.cpp:1398-1413 | Slots are in order and within one interval of the anchor |
| PresentationPacing.SlotsAreEven | aurora-main/lib/aurora.cpp:1398-1413 | Slot k of n stands at k n-ths of the interval, rounded down |
| PresentationPacing.OffGridGroupsOverlap | aurora-main/lib/aurora.cpp:1484-1497 | Off one grid, slots of two groups can fall together |
| FastMemory.FastMemory.TryReadGuestScalar | runtime/include/memory_access.h:356-370 | A successful read is the big-endian value of the guest bytes, across page boundaries too; on page-aligned regions it succeeds if and only if the page meets no pending deferred content and the whole page and the seven bytes after it lie at consecutive host bytes |
| FastMemory.FastMemory.TryReadMappedScalar | runtime/include/memory_access.h:340-354 | The same through the general pointer path, with its exact success condition |
| FastMemory.FastMemory.WriteStackScalarFast | runtime/include/memory_access.h:400-413 | A stack store is accepted exactly when the pointer path finds the address, marked or not, and stores exactly the big-endian bytes |
| FastMemory.FastMemory.TryWriteGuestScalar | runtime/include/memory_access.h:372-398 | A write is accepted exactly when the range lies in one page entry and meets no marked page (outside a registration under way), which ScalarAcceptedExactly says in guest bytes; it stores exactly the big-endian bytes of the value at the guest address, and otherwise nothing |
| FastMemory.FastMemory.TryGetPointerFast | runtime/include/memory_access.h:142-159 | The exact condition under which a pointer is given; it is the host location of every byte of the range |
| FastMemory.FastMemory.TryGetWritablePointerFast | runtime/include/memory_access.h:166-223 | The exact condition under which a pointer is given, outside a registration under way: one to eight bytes, reached in terms of mapped bytes, with no byte on a marked page; the pointer backs the range |
| FastMemory.FastMemory.ExecutableWriteGuardMayHit | runtime/include/recomp_mod_loader.h:99-148 | Up to a sum of 2^64: true if and only if the guard is on and some marked 4 KiB page meets the range. Beyond: exactly what is left of that when the sum has wrapped |
| FastMemory.FastMemory.MarkExecutableGuardPages | runtime/src/recomp_mod_loader.cpp:76-99 | Marks exactly the pages the range meets, keeps the three levels consistent and takes the write bias away |
| FastMemory.FastMemory.AddExecutableRange | runtime/src/recomp_mod_loader.cpp:101-121 | A new range joins the list, and the marked pages stay exactly those the listed ranges meet, on all three levels |
| FastMemory.FastMemory.RegisterExecutableRange | runtime/src/recomp_mod_loader.cpp:359-382 | The range and its cached and uncached views are listed and marked, and the write tables are brought up to date |
| FastMemory.FastMemory.CheckExecutableWrite | runtime/src/recomp_mod_loader.cpp:403-414 | A checked write is reported if and only if it meets a listed range: asking the page filter first changes nothing |
| WriteGuard.RegisteredMembers | runtime/src/recomp_mod_loader.cpp:359-382 | What any number of registrations list: each range as given and its recorded views, and nothing else |
| WriteGuard.FilterIsSound | runtime/include/recomp_mod_loader.h:99-148 | A write that meets a listed range meets a marked page |
| WriteGuard.ScalarAcceptedExactly | runtime/include/memory_access.h:372-398 | A scalar write is acceptable if and only if its bytes lie on one 1 MiB page, are all mapped, and none is on a marked 4 KiB page |
| WriteGuard.GuardedExactly | runtime/include/recomp_mod_loader.h:99-148 | Meeting a marked page is having a byte on one |
| WriteGuard.PagesDecide | runtime/include/recomp_mod_loader.h:99-148 | The pages asked decide for the whole range, and what they decide when the sum wraps |
| ExecutableViews.ExposedExactly | runtime/include/memory_access.h:372-398 | On any layout: some accepted scalar write changes a byte if and only if some alias of it is reached on an unmarked page |
| ExecutableViews.WiiExposedExactly | runtime/src/memory.cpp:497-558 | On the console's layout: a byte can be written if and only if the page of some view of it is unmarked |
| ExecutableViews.SameHostExactly | runtime/src/memory.cpp:423-448 | Two addresses share a host byte if and only if they have one physical address |
| ExecutableViews.StackExposedExactly | runtime/include/memory_access.h:400-413 | On any layout: some accepted stack store changes a byte if and only if some alias of it is reached through the page table, marked or not |
| ExecutableViews.StackStoresPassGuard | runtime/include/memory_access.h:400-413 | On the console's layout every byte is changed by an accepted stack store to its own address, whatever is marked |
| ExecutableViews.RegistrationOpensExactly | runtime/src/recomp_mod_loader.cpp:123-171 | One registration leaves a view of an executable page unmarked if and only if it meets main memory, is not given by its physical address and does not cover all of it |
| ExecutableViews.RegistrationsKeepViewsTogether | runtime/src/recomp_mod_loader.cpp:359-382 | If no registration does, then after any number of them the views of a byte are all marked or all unmarked |
| ExecutableViews.CachedSectionsStayWritable | translator/src/Translator.Core/Mods/ModDataPatchWriter.cs:110-123 | With every section registered by its cached or uncached address, every byte of main memory is changed by an accepted store to its physical address |
| ExecutableViews.StoreBelowReachesProgram | runtime/src/recomp_mod_loader.cpp:123-144 | With [0x80004000, 0x80005000) registered, a store at 0x4000 changes the guarded byte at 0x80004000 |
| FastMemory.FastMemory.Init | runtime/src/memory.cpp:566-603 | Building the tables from the configured regions establishes all table invariants |
| FastMemory.FastMemory.BuildPageTable | runtime/src/memory.cpp:228-267 | Page entries and biases of all 4096 pages are those of the regions, as EntryReachesExactly and FullBiasExactly say in terms of mapped bytes |
| FastMemory.FastMemory.RefreshFastPathTables | runtime/src/memory.cpp:269-318 | The readable, writable and sparse tables agree with the guard and the deferred reads |
| FastMemory.FastMemory.RegisterDeferredRead | runtime/src/memory.cpp:147-171 | A registered read takes its pages out of the readable table; an invalid one changes nothing |
| FastMemory.FastMemory.ResolveDeferredReads | runtime/src/memory.cpp:190-224 | Resolving gives back exactly the pages no other deferred read covers |
| FastMemory.FastMemory.ReadResolvedPair | runtime/include/memory_access.h:295-307 | The two lanes of one packed load are the two adjacent guest scalars; it is refused without a range and faults exactly if some byte is unmapped |
| FastMemory.FastMemory.ReadResolvedScalar | runtime/include/memory_access.h:277-286 | A resolved read is refused without a range, faults exactly if some byte is unmapped, and otherwise is the big-endian value of the guest bytes at the resolved start plus the offset |
| FastMemory.FastMemory.WriteResolved | runtime/include/memory_access.h:309-338 | The same for a store: exactly the big-endian bytes, each at the host byte of its guest address, or nothing |
| GuestMemory.ThroughThenRead | runtime/include/memory_access.h:309-338 | What was stored through the flat view is what the guest reads, if no two of the bytes share storage |
| GuestMemory.ThroughSpares | runtime/include/memory_access.h:309-338 | and a host byte behind none of the addresses is spared |
| GuestMemory.HostPointer | runtime/src/guest_flat_memory.cpp:623-632 | The search through the mapped regions gives the host byte behind a guest address, and nothing exactly if it is unmapped |
| GuestMemory.LoadFlat | runtime/include/memory_access.h:277-286 | A load from the flat view reads the guest bytes, whatever regions they lie in, unless some byte is unmapped |
| GuestMemory.WriteThenRead | runtime/include/memory_access.h:356-398 | What was written is what is read back |
| GuestMemory.WriteFrame | runtime/include/memory_access.h:372-398 | A guest byte changes only if it shares its host byte with a written address |
| ExecutableViews.GuardedBytesKept | runtime/include/memory_access.h:372-398 | After any registrations that leave no view open, no accepted scalar write changes a byte of an executable page, at whatever address it is made |
| FastMemory.DeferredMissedExactly | runtime/include/memory_access.h:356-370 | A fast read can touch pending deferred content exactly when it runs over into a page where it meets it |
| FastMemory.DeferredMissedAcrossPages | runtime/include/memory_access.h:356-370 | Two mapped pages and a deferred byte where the condition for an accepted read holds and the read touches the byte |
| WriteGuard.LastPageExact | runtime/include/recomp_mod_loader.h:99-148 | The clamped last page bounds exactly the pages a range meets |
| WriteGuard.PagesNest | runtime/include/recomp_mod_loader.h:99-148 | Every page in range lies in a coarser page in range, on all three levels |
| GuestLayout.EntryBacks | runtime/src/memory.cpp:228-267 | A page entry leads to the host storage of the region it was made from |
| GuestLayout.EntryReachesExactly | runtime/src/memory.cpp:228-252 | On page-aligned regions an entry reaches a byte of its page if and only if the byte is mapped |
| GuestLayout.FullBiasExactly | runtime/src/memory.cpp:249-266 | On page-aligned regions a page has a bias if and only if it and the seven bytes after it lie at consecutive host bytes, its host address not being its own less one |
| GuestLayout.InEntryExactly | runtime/include/memory_access.h:142-159 | An access fits an entry if and only if it stays in one page and all its bytes are mapped |
| GuestLayout.PointerFoundExactly | runtime/include/memory_access.h:142-159 | A pointer is found if and only if that holds, or up to eight bytes start in a page with a bias, all in terms of mapped bytes |
| ExecutableViews.WiiFastExactly | runtime/src/memory.cpp:497-558 | On the console's layout every page of every region but its last is fast, and no other, unless the overlay happens to follow main memory in the host too |
| ExecutableViews.WiiFastPages | runtime/src/memory.cpp:497-558 | The same by page number, 0x800 to 0x816 for the cached view of the first memory: every address below the last page of its view is fast |
| GuestLayout.BiasBacks | runtime/include/memory_access.h:46-70 | Any access of up to eight bytes that starts in a biased page goes to the right host bytes, including the slack after the page |
| GuestLayout.EntryAccessBacks | runtime/include/memory_access.h:142-159 | A length-checked access inside an entry goes to the right host bytes |
| GuestLayout.BiasedPointer | runtime/include/memory_access.h:46-70 | Host base minus guest page, added to an address with wrap-around, is the host address |
| ByteOrder.SwappedLoad | runtime/include/memory_access.h:262-293 | A native load and a swap is the big-endian value |
| ByteOrder.SwappedStore | runtime/include/memory_access.h:309-338 | A swap and a native store leaves the big-endian bytes |
| ByteOrder.SwapTwice | runtime/include/memory_access.h:249-270 | Swapping twice gives the value back |
| ByteOrder.BigEndianRoundTrip | runtime/include/memory_access.h:249-270 | Bytes to value and back |
| ByteOrder.PackedPair | runtime/include/memory_access.h:295-326 | Shift and mask take a packed value apart into the values of its halves |
| FlatRange.EndpointsDecide | runtime/include/memory_access.h:229-245 | A range resolves if and only if it asks for no checked access, has a legal length, does not wrap and, for a write, no byte of it is in the MMIO window: the two endpoint tests decide for all bytes |
| FlatRange.MaskIsWindow | runtime/include/memory_access.h:105-107 | On machine words the mask test is membership of the MMIO window |
| StoreSingle.StoreTruncates | runtime/include/memory_access.h:112-134 | For exponent fields 874 to 1150 the result has the double's sign and is the double truncated towards zero, less than one unit in the last place away |
| StoreSingle.WidenedReturns | runtime/include/memory_access.h:112-134 | Every one of the 2^32 single patterns, widened to a double, converts back unchanged, subnormals, infinities and NaNs included |
| StoreSingle.WidenedIsEqual | runtime/include/memory_access.h:112-134 | The widened double has the single's sign and value, or its infinity or NaN payload |
| StoreSingle.SubnormalTruncates | runtime/include/memory_access.h:122-129 | The shifting arm gives a subnormal single |
| StoreSingle.NormalTruncates | runtime/include/memory_access.h:131-134 | The narrowing arm truncates normal singles |
| StoreSingle.NarrowsFields | runtime/include/memory_access.h:131-134 | The narrowing arm keeps the sign, the two ends of the exponent and the top of the fraction |
| StoreSingle.NarrowingMask | runtime/include/memory_access.h:131-134 | On machine words: the shifted, masked and joined double is the sum of quotients and remainders the arm is written as |
| StoreSingle.ExponentMask | runtime/include/memory_access.h:115-121 | On machine words: the exponent field, and the wrapping subtraction as a test of the window 874 to 896 |
| StoreSingle.JoiningMask | runtime/include/memory_access.h:123-126 | On machine words: joining the leading one and the sign is adding them, and the joined word fits 32 bits |
| StoreSingle.ShiftingMask | runtime/include/memory_access.h:123-128 | On machine words: the shift by 9 to 31 is as many halvings and leaves the sign bit free |
| NandSettings.NewIdentityReadsBack | runtime/include/nand_settings.h:30-130 | A new buffer reads back as exactly its eight settings, despite inserted line feeds and the tail that decodes to key bytes, and is a valid identity |
| SettingsPrinter.EverySerialIsPrinted | runtime/include/nand_settings.h:105-128 | The retry loop always succeeds for a valid serial, with at most seven line feeds, all in front of the serial's line |
| SettingsPrinter.EncodeNew | runtime/include/nand_settings.h:93-130 | The imperative encoder terminates and holds exactly the printed text, with no encoded zero inside and raw zeros behind; it refuses exactly invalid serials and texts that do not fit |
| SettingsPrinter.PlaceLine | runtime/include/nand_settings.h:108-127 | One line with its retries: shifted by line feeds until no byte encodes to zero, or given up when it no longer fits |
| SettingsPrinter.WriteLine | runtime/include/nand_settings.h:112-118 | The NUL flag is set exactly when some character meets its key byte |
| NandSettings.Read | runtime/include/nand_settings.h:30-62 | The reader is decryption up to the first zero followed by first-wins parsing; short files give nothing |
| NandSettings.HeldTextDecoded | runtime/include/nand_settings.h:36-47 | A whole buffer decodes to its text and one line of key bytes |
| NandSettings.JunkIsOneBareLine | runtime/include/nand_settings.h:129 | The decoded tail has neither a line feed nor an equals sign, so it adds no setting |
| NandSettings.ClockGivesSerialExactly | runtime/include/nand_settings.h:83-89 | The clock gives a valid serial of nine digits except before 1970 and at whole multiples of 10^9 seconds |
| NandSettings.SerialShowsClock | runtime/include/nand_settings.h:83-89 | The serial's nine digits are the clock modulo 10^9 as a number |
| NandSettings.IdentityExactly | runtime/include/nand_settings.h:64-81 | Settings are an identity if and only if the serial is a positive number of at most nine digits and the codes have one to five, three and two characters |
| SettingsText.ParseSettings | runtime/include/nand_settings.h:48-61 | The line loop keeps the first value of every key |
| SettingsText.EntryPeel | runtime/include/nand_settings.h:49-60 | A line contributes exactly its own field |
| SettingsKey.KeyFits | runtime/include/nand_settings.h:36-40 | The rotating key repeats after 32 steps, never gives zero, a separator or a printed character, except "N" at phase 5 and "9" at phase 7 |
| SettingsKey.XorUndoes | runtime/include/nand_settings.h:39 | Combining twice gives the byte back; the result is zero only for equal bytes |
| NandInitialization.SuccessMeansOneIdentity | runtime/include/nand_settings.h:148-218 | In every run of any number of launchers, all that report success have read the same identity: the existing file's, or the one publisher's own |
| NandInitialization.FileNeverReplaced | runtime/include/nand_settings.h:146-218 | Once setting.txt exists it is the same file for the rest of the run |
| NandInitialization.AtMostOnePublishes | runtime/include/nand_settings.h:199-206 | At most one launcher publishes, and none where a file was already there |
| NandInitialization.StepKeepsInv | runtime/include/nand_settings.h:148-218 | Every step of every launcher, kills and errors included, keeps the invariant |
| NandInitialization.OthersKeepScratch | runtime/include/nand_settings.h:134-144 | A launcher never touches another launcher's scratch directory |
| NandInitialization.FileAfterStep | runtime/include/nand_settings.h:199-206 | A new file is the publisher's own complete buffer |
| NandInitialization.PublisherSucceeds | runtime/include/nand_settings.h:209-217 | Confirmation reports exactly whether the NAND holds an identity, and always succeeds for a publisher |
| NandProgress.UndisturbedSucceeds | runtime/include/nand_settings.h:146-218 | In every run, a launcher that meets no error, whatever the others do or suffer, always has a next step and reports success, except when a file without an identity was there from the start, or none was and its clock gives no serial; it leaves no scratch directory |
| NandProgress.GoesOn | runtime/include/nand_settings.h:146-218 | Each of its steps brings it nearer to the end, of at most ten |
| NandProgress.GivesUpExactly | runtime/include/nand_settings.h:134-144 | A taken name is left untouched and the next one tried; after 128 of them the launcher gives up |
| NandProgress.ErrorsChangeNothing | runtime/include/nand_settings.h:146-218 | An error changes neither the file nor a directory and is reported, after the clean-up once there is a scratch directory; being killed changes nothing |
| RuntimeConfiguration.ConfigFile.SetPath | Launcher/WiiCompiled.Setup.Common/RuntimeConfiguration.cs:100-122 | Whatever the file held: it is rewritten with exactly that one edit and the stored text stands for exactly the path; it reads back if and only if it has no line break, and then the path is owned, nothing else in the file reads differently, and the path is resolved again if and only if the text is not blank |
| RuntimeConfiguration.ConfigFile.RemovePathIfOwned | Launcher/WiiCompiled.Setup.Common/RuntimeConfiguration.cs:124-153 | The file changes exactly when its own text for the key stands for the owned path, and then only by the first line for the key, so that only that key reads differently |
| PortablePaths.StoredPathResolves | Launcher/WiiCompiled.Setup.Common/RuntimeConfiguration.cs:97-122 | Relative or absolute, a stored path is resolved to the path that was recorded |
| PortablePaths.PortableTreeMoves | Launcher/WiiCompiled.Setup.Common/RuntimeConfiguration.cs:107-122 | When a portable root is moved or renamed a stored path moves with it, exactly for what the textual containment test places inside the root |
| PortablePaths.RelativePartsLead | Launcher/WiiCompiled.Setup.Common/RuntimeConfiguration.cs:112-122 | The ups and downs from one place to another lead to it from wherever the tree they share stands |
| PortablePaths.EditedTextResolves | Launcher/WiiCompiled.Setup.Common/RuntimeConfiguration.cs:97-98 | A text written by hand, steps up and then names, is counted from the configuration's directory or from the drive's root; steps up end at the drive |
| PortablePaths.EditedDriveTextResolves | Launcher/WiiCompiled.Setup.Common/RuntimeConfiguration.cs:97-98 | Behind a drive letter it is counted from that drive's root, or from its directory, which is known only for the configuration's own drive |
| PortablePaths.TryFind | Launcher/WiiCompiled.Setup.Common/PortableRoot.cs:32-56 | The nearest marked directory at most four levels up, and nothing exactly when there is none |
| RuntimeConfiguration.LineList.SetSectionValue | Launcher/WiiCompiled.Setup.Common/RuntimeConfiguration.cs:182-223 | Afterwards the key reads as the value, every other key of every section reads as before, and exactly one line changed: the first for the key in the first such section, or a new one behind that section's last line that is not blank, or a new section at the end |
| RuntimeConfiguration.LineList.RemovePathIfOwned | Launcher/WiiCompiled.Setup.Common/RuntimeConfiguration.cs:124-153 | Removes a line exactly when the first entry for the key is a string that resolves to the owned path, and only that line |
| RuntimeConfiguration.LineRemoved | Launcher/WiiCompiled.Setup.Common/RuntimeConfiguration.cs:148-150 | Removing the first entry changes no other key; a later entry for the same key shows through |
| RuntimeConfiguration.GetRawValue | Launcher/WiiCompiled.Setup.Common/RuntimeConfiguration.cs:156-175 | The reader gives the first value in any section with the header |
| RuntimeConfiguration.EntryPlaced | Launcher/WiiCompiled.Setup.Common/RuntimeConfiguration.cs:206-222 | An entry written in the first matching section is found before every later duplicate |
| RuntimeConfiguration.SectionAppended | Launcher/WiiCompiled.Setup.Common/RuntimeConfiguration.cs:198-204 | A new section at the end is found and hides nothing |
| RuntimeConfiguration.LookupSplit | Launcher/WiiCompiled.Setup.Common/RuntimeConfiguration.cs:156-175 | Reading is reading the front and then the back from where the front left off |
| RuntimeConfiguration.PathsAreOneLine | Launcher/WiiCompiled.Setup.Common/RuntimeConfiguration.cs:79-80 | No file can hold a path with a line break in it |
| RuntimeConfiguration.LineList.BeforeTrailingBlanks | Launcher/WiiCompiled.Setup.Common/RuntimeConfiguration.cs:218-222 | The insertion point is after the last line of the section that is not blank |
| TomlText.UnquoteUndoes | Launcher/WiiCompiled.Setup.Common/RuntimeConfiguration.cs:268-297 | Unquoting a quoted value gives it back, quotes and backslashes included |
| TomlText.QuotedScans | Launcher/WiiCompiled.Setup.Common/RuntimeConfiguration.cs:247-269 | The comment scanner never cuts a quoted value, "#" and backslashes included |
| TomlText.CommentIsCut | Launcher/WiiCompiled.Setup.Common/RuntimeConfiguration.cs:247-266 | A comment is cut off behind a string of either kind, whatever stands in the string |
| TomlText.UnquotedExactly | Launcher/WiiCompiled.Setup.Common/RuntimeConfiguration.cs:271-297 | A text is a string if and only if it has two characters and is framed by equal quotes of either kind; a literal string is what is between them |
| TomlText.RemoveComment | Launcher/WiiCompiled.Setup.Common/RuntimeConfiguration.cs:247-266 | The three flags are a scanner with four states |
| TomlText.TrimCuts | Launcher/WiiCompiled.Setup.Common/RuntimeConfiguration.cs:156-175 | Trimming takes white space from both ends and no more, and leaves nothing exactly of a blank text |
| TomlText.TryUnquoteToml | Launcher/WiiCompiled.Setup.Common/RuntimeConfiguration.cs:271-297 | The imperative unquoting loop is the recursive definition |
| TextLines.WrittenLinesReadBack | Launcher/WiiCompiled.Setup.Common/RuntimeConfiguration.cs:228-230 | Lines without breaks of their own are read back as they were written, with either line ending |
| GxGuestWrite.SkipIsSound | runtime/include/gx_guest_write.h:101-106 | If a digest is skipped and fewer than 2^32 bumps landed on the range, a main-memory byte that both the range and a notified write touch, each in whichever view, lies before the physical start of one of them |
| GxGuestWrite.SkipMeansUntouched | runtime/include/gx_guest_write.h:101-106 | For ranges and writes that start in main memory and stay in one quarter of the address space, no notified write touched a byte of a skipped range |
| GxGuestWrite.StraddlingWriteMissed | runtime/include/gx_guest_write.h:81-99 | A write of two bytes at 0x7FFFFFFF touches the first byte of memory and bumps nothing; a range there is skipped |
| GxGuestWrite.TouchedInRangeExactly | runtime/include/gx_guest_write.h:18-38 | A touched byte is among those counted on from the range's physical start if and only if it does not lie before it |
| GxGuestWrite.OneViewTouches | runtime/include/gx_guest_write.h:18-38 | Such a range touches no byte before its own physical start |
| GxGuestWrite.SkipExactly | runtime/include/gx_guest_write.h:59-106 | Equal generations mean a multiple of 2^32 bumps; with fewer than 2^32, a skip happens if and only if there was none |
| GxGuestWrite.UntouchedIsSkipped | runtime/include/gx_guest_write.h:59-106 | A range below 0x18000000 is skipped as long as no notified write has a byte on one of its 64 KiB granules |
| GxGuestWrite.BumpsExactly | runtime/include/gx_guest_write.h:84-99 | A write bumps a granule if and only if one of its bytes, counted on from its physical start, lies on it below 0x18000000 |
| GxGuestWrite.WrappedCounterSkips | runtime/include/gx_guest_write.h:59-61 | The counters do alias back: after exactly 2^32 writes of its first byte a range is skipped |
| GxGuestWrite.Tracker.GenerationForRange | runtime/include/gx_guest_write.h:62-79 | The loop gives the sum of the covered counters, and the sentinel exactly for untracked ranges |
| GxGuestWrite.Tracker.NotifyWrite | runtime/include/gx_guest_write.h:84-99 | The loop bumps exactly the counters of the granules the clamped range meets |
| GxGuestWrite.OverlapBumps | runtime/include/gx_guest_write.h:62-99 | A write and a tracked range that touch one byte, through whichever views, have its granule bumped and counted, unless the byte lies before the physical start of one of them |
| MainMemory.AliasesAgree | runtime/include/gx_guest_write.h:18-38 | Exactly the physical, cached and uncached addresses of a main-memory byte have its canonical address |
| MainMemory.ElsewhereItself | runtime/include/gx_guest_write.h:18-38 | Exactly the addresses in the six views have a canonical address in main memory; every other address stands for itself |
| IndirectDispatch.IndexedEqualsLinear | runtime/include/abi_bridge.h:96-134 | In a well-formed table the segment, page and binary search finds a record exactly when some entry has the address, and the first such |
| IndirectDispatch.WriteIndirectDispatchTable | translator/src/Translator.Core/Build/TranslatedBuildShardEmitter.cs:936-1027 | From functions in address order the emitter lays out a table in which page p of segment s lists exactly the entries in its 4 KiB of addresses and every entry is on a listed page; without functions there is none |
| IndirectDispatch.EmittedIsWellFormed | translator/src/Translator.Core/Build/TranslatedBuildShardEmitter.cs:981-1018 | What the emitter promises in address intervals is what the search relies on |
| IndirectDispatch.EmittedFindsExactly | runtime/include/abi_bridge.h:96-134 | In an emitted table the search gives an entry if and only if the address is that entry's |
| IndirectDispatch.FindStaticIndirectDispatchEntry | runtime/include/abi_bridge.h:96-134 | The search is total on any table, well-formed or not, and what it finds has the address |
| IndirectDispatch.SearchPage | runtime/include/abi_bridge.h:120-130 | The halving loop gives the lower bound |
| IndirectDispatch.LowerBoundSplits | runtime/include/abi_bridge.h:120-130 | The lower bound splits a sorted page into smaller addresses and the rest |
| IndirectDispatch.Dispatcher.FindByAddressPtr | runtime/include/abi_bridge.h:334-348 | Equals the uncached lookup, whatever other threads register or publish in between; the memo is filled only after publication |
| IndirectDispatch.Dispatcher.FindRawByAddressPtr | runtime/include/abi_bridge.h:354-386 | After publication equals the uncached lookup in the generated table and then the dynamic records; before, finds nothing and fills nothing |
| IndirectDispatch.Target.ResolveCached | runtime/include/abi_bridge.h:497-519 | The latched result equals the lookup in the published tables; nothing is latched before publication |
| IndirectDispatch.Target.IsBaseTranslatedActive | runtime/include/abi_bridge.h:524-541 | The latched verdict equals the verdict of the uncached lookup |
| PortAssignment.Input.ApplyPortPreferences | aurora-main/lib/input.cpp:276-330 | Every configured port claims, in turn, the best controller no earlier port claimed; everybody else keeps an unconfigured port or loses a configured one |
| PortAssignment.AssignmentIsSound | aurora-main/lib/input.cpp:276-330 | Ports stay injective; on a port without a preference sits only who was there, on a "no controller" port nobody, on any other one who matches; who is not claimed stays where there is no preference and loses any other port |
| PortAssignment.ClaimsAreUnique | aurora-main/lib/input.cpp:299-328 | Giving every port its best fixes all claims, whoever held which port before |
| PortAssignment.ReapplyingChangesNothing | aurora-main/lib/input.cpp:276-330 | Applying the same preferences again claims the same and changes no controller |
| PortAssignment.MatchExactly | aurora-main/lib/input.cpp:234-256 | A saved serial must be the controller's own; the same GUID then matches exactly, another one only as a fallback with vendor and product the same and nothing blank |
| PortAssignment.Input.Choose | aurora-main/lib/input.cpp:299-328 | The inner loop with its fallback gives the first exact match, else the first fallback, else nothing |
| PortAssignment.WhoSitsWhere | aurora-main/lib/input.cpp:276-330 | On a configured port sits only the controller that claimed it; elsewhere only who was there before |
| PortAssignment.Input.EnsurePlayerIndex | aurora-main/lib/input.cpp:334-365 | A new controller gets the lowest free port that is not configured; when there is none the lowest free one; none only if all four are taken; ports stay injective |
| PortAssignment.LowestFreeExactly | aurora-main/lib/input.cpp:344-359 | Of the four ports exactly one is the lowest free one, or none is free |
| PortAssignment.Input.ClaimFreePort | aurora-main/lib/input.cpp:344-359 | The port claimed is free and every lower one is taken or left out; nothing is claimed exactly when no port is free |
| Timebase.TicksAreExact | runtime/include/timebase_contract.h:26-31 | The split conversion is the exact floor on all 64-bit inputs; nothing wraps |
| Timebase.DurationIsExact | runtime/include/timebase_contract.h:35-48 | The inverse is the exact floor up to the limit and fits the host range; beyond it gives zero |
| Timebase.ConversionsAreMonotone | runtime/include/timebase_contract.h:26-48 | Both are monotone on what they accept |
| Timebase.RoundTripLosesOneTick | runtime/include/timebase_contract.h:26-48 | Ticks to nanoseconds and back lose nothing exactly at multiples of 243, and one tick otherwise |

## Left out

- InstallTransactions.Begin: asks that the transaction id is new and that the configuration file lies outside every entry; the source does not check these.
- InstallTransactions.UpdateThenRecover: parent directories and temporary files that a move or an atomic write creates are not part of "exactly old"; the journal and the configuration are cells of their own, replaced atomically; names are compared in one case.
- InstallTransactions.Disk.Move: a drive's root cannot be renamed, as the operating system has it; retries after a transient lock are one step that may fail; copying between volumes is not modelled.
- ProductRepair.ProductRepairService.Reconcile: hashes are numbers with a letter case, so distinct files are assumed to have distinct hashes; a null and a blank digest in local-build.json are the same; builds honour the provenance contract `Honest`; the publication is all or nothing, as `UpdateThenRecover` states; the product's `config` directory, cancellation and scratch space are not modelled.
- ProductRepair.ProductRepairService.RepairTwice: both repairs get the same payload; downloading and its fallback to the installed payload are an input of the model.
- FrameWorker.Safety: one producer thread; flags are atomic steps in program order, so weak memory is not modelled, and a wait with a timeout is a wait.
- FrameProgress.CallReturns: under the schedule in which the producer steps whenever it can and the worker where the producer waits; other schedules are covered only step by step (`ProducerIsNearer`, `StepIsNearer`).
- PresenterQueue.Presenter.EnqueuePresentations: starting the thread, log warnings and the synchronous path without a presenter are not modelled.
- PresentationPacing.Pacer.Pace: nanoseconds are unbounded integers, so a clock near the end of its 64 bits is not modelled.
- PresentationPacing.AnchorsGrow: one interval and one grid for the run; an unscheduled group resets the cursor and starts a new run.
- FastMemory.FastMemory.TryGetPointerFast: the slow paths behind a failed fast access are not modelled, nor are the callbacks of deferred reads.
- FastMemory.FastMemory.TryWriteGuestScalar: while a registration is under way, before the tables are refreshed, a write may be refused that need not be; the contract says so.
- FastMemory.FastMemory.RegisterExecutableRange: a range without a name gets none made up from its addresses; ranges end below 2^32.
- FastMemory.FastMemory.CheckExecutableWrite: whether a write is reported, for sums up to 2^64; the variant that excuses the console's own module loader is not modelled.
- FastMemory.FastMemory.WriteResolved: what the fault handler does with a fault is not modelled (a stray page committed on demand, the report for a device's window), nor the host pages that are protected because they are wholly executable or hold a deferred read.
- GuestMemory.ThroughThenRead: a range of guest bytes that share storage with each other, which a legal layout can only have across views, reads back its last store.
- StoreSingle.StoreTruncates: exponent fields below 874 and above 1150 have no documented result; their bits are modelled but no value is claimed.
- NandInitialization.SuccessMeansOneIdentity: nobody outside the launchers deletes or edits setting.txt or a scratch directory.
- PortablePaths.StoredPathResolves: paths on a drive letter, in one letter case and as the operating system normalises them; network paths, trailing separators and dots, and the errors of an invalid path are not modelled.
- RuntimeConfiguration.LineList.SetSectionValue: sections and keys are bare names, as every caller's are.
- IndirectDispatch.WriteIndirectDispatchTable: which functions are listed and with what register masks is not modelled, nor the text written; the functions come sorted by distinct addresses.
- IndirectDispatch.Dispatcher.FindRawByAddressPtr: registration and finalisation of functions at run time are not modelled.
- PortAssignment.Input.ApplyPortPreferences: the vendor and product numbers behind a GUID are part of the identity; loading and saving preferences are not modelled.
- GxGuestWrite.SkipIsSound: relaxed atomics are plain steps; the host-to-guest inversion for the hooks is not modelled.
- Downloads, RSA and hash computation, ZIP reading, process launching, GPU, SDL and ImGui calls, command lines, progress reports, shortcuts and the registry: library calls or easy members.
- The translator, apart from its dispatch table, fibers, input expressions and window layout: not part of this model.

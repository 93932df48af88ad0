# Riviamigo: verified model of its stateful core

Riviamigo is a self-hosted dashboard for Rivian vehicles. This project models the parts of it
whose correctness depends on sequences of steps rather than on one line, and proves what those
parts promise. `dafny verify dfyconfig.toml` checks everything.

## What is modelled

1. **Database restore** (`Faults`, `DatabaseCatalog`, `RestoreProtocol`, `RestoreAgent`,
   `HostRestore`, `HostRuns`). A restore builds a candidate database, swaps it in by two renames and
   keeps the old one under a previous name until the new one is verified. The state is the catalog
   (name to contents), the job journal or the host state file, the package file, the staging
   directory and the artwork directories. The state also records, as ghost facts, whether the present
   attempt is verified and whether a verified attempt has given up the original. Every external step
   consumes one entry of a fault schedule: it may fail before or after its effect, time out or crash.
   Every durable write appends a snapshot to a ghost trace. The class invariant says that the trace
   is a run: it starts at the initial state, ends at the present one, and each snapshot follows from
   the one before by one durable step. So a statement about all snapshots is a statement about every
   state in which the process can be killed.
2. **Charge sessions** (`ChargeDetector`, `ChargeSessions`). The detector is a class; each of its
   methods is proved to compute one step of a function on states. The lemmas are about runs of that
   function over whole event sequences: lifecycle, energy integral, glitch rejection, restart.
3. **Migration ledgers** (`MigrationLedger`, `MigrationCoordinator`, `MigrationRuns`). The case
   analysis over the public and legacy ledgers, the rebaseline command, and the run of pending
   migrations, cut at any commit. A schema remembers what ran on it; the schema contract is an
   uninterpreted function of it that tells whether a users table exists. The theorems are about
   arbitrary sequences of interrupted commands.
4. **Telemetry histories** (`StatePeriods`, `PeriodLoops`, `ChargeWindows`, `PayloadCompaction`).
   Run-length coded state periods, written by two loops, and when the two agree; charging windows by
   LAG, gap flags and running sums; bounded-batch removal of duplicate payloads with reference
   repointing.
5. **Live frames** (`ClosureMotion`, `ClosureFrames`, `ParallaxRegisters`). The closure movement
   tracker, the closure and lock decoding loops, and the timestamp-guarded session registers.
6. **Dashboards and themes** (`Dashboards`, `JsonNumbers`, `ThemeJson`, `CanonicalTheme`,
   `ThemeHash`). What loading a saved dashboard changes and must not change; the canonical JSON text
   of a theme (JSON as in sections 4 to 7 of RFC 8259, numbers as in section 6.1.6.1.20 of ECMA-262)
   and its 32-bit hash.

## Assumptions about the environment

- One `psql -c` script is one transaction; a rename fails when its source is missing or its target
  exists. A journal or state-file write is atomic. One restore job runs at a time.
- `probesTruthful` says that a failed existence probe, of a database, a directory or the host state
  file, never reads as "does not exist" (the source uses `unwrap_or(false)`). Safety does not need
  it; recovery and refusing a second host restore do.
- Each sqlx migration commits in its own transaction together with its ledger row.
- Powers, energies and layout numbers are exact reals; times are whole milliseconds.

## Where the code does less than one might expect

- **Restart recovery is bounded.** A restart picks up an unfinished activation exactly while the job
  is retryable and fewer than two automatic retries were used (`RestoreProtocol.UnfinishedIsEligibleIff`).
  `RestoreAgent.ThreeCrashesExhaustRecovery` is a run that ends outside: an attempt and two restarts
  that each die right behind their swap leave the unverified package live, the original parked, and no
  later restart touches either.
- **Parked artwork and a removed package block retries.** A fault-free restart finishes an eligible job
  if and only if the package file exists, checksum and plan hold, and no artwork is parked beside
  installed artwork (`Completable` in the contract of `RetryInterruptedRestore`). Two runs reach the
  other case. `RestoreAgent.ParkedArtworkBlocksRetries`: one crash behind the second artwork rename.
  `RestoreAgent.RemovedPackageBlocksRetries`: one failed swap of a package downloaded for the job,
  whose file the failure path removes while the job stays eligible. After either, no number of
  fault-free restarts finishes the job.
- **A cut host-rollback cannot be repeated.** A host-rollback cut after its rename leaves an activated
  state file over an unswapped catalog (`RollbackAlreadyCommitted`). Before finalize that is exactly
  where a fault-free host-rollback fails, and exactly where an Ok of host-activate or host-finalize
  means that the original, not the package, is live. `HostRuns.CutRollbackCannotBeRepeated` runs
  into it from an empty host.
- **An erring probe orphans the original.** If the probe for the host state file fails, a second
  host-restore replaces the file of a swapped job; the rollback that follows answers Ok and leaves the
  first package live (`HostRuns.ErringProbeOrphansOriginal`). With truthful probes an Ok rollback has
  always brought the original back (`HostRuns.ClosedHostKeepsLive`).
- **A rebaseline can run migrations twice.** It compares schema contracts, which hold no rows. Behind a
  migration that writes only rows, as 0002 does, a database still has the contract of the baseline; the
  tool resets its ledger and runs the migration again (`MigrationRuns.RewindRunsTwice`; 0002 guards its
  own insert, so there a second run adds nothing). Over any schedule every migration runs exactly once
  if and only if no adoption commits on a database on which more than the baseline ran; for a ledger
  that tells what ran, that is a ledger of more than one row (`MigrationRuns.SoundIffNeverRewound`,
  `MigrationRuns.RewindShowsInLedger`).
- **A database with a legacy ledger alone is never adopted**, although the runbook says that the tool
  moves that table (docs/runbooks/release-database-cutover.md:52): the table lies in schema riviamigo and
  so shows in the live contract (`MigrationCoordinator.LegacyLedgerIsNeverAdopted`). If the coordinator
  rejects it too, no schedule changes it (`MigrationRuns.RejectedIsStuckIff`).
- **Negative energy does not survive a restart.** With clocks running backwards the accumulator can
  be negative and `from_snapshot` clamps it. Rebuilding is exact if and only if the energy is not
  negative (`ChargeSessions.RestartIsExactIff`), with a concrete run that shows the difference.
- **The two period loops can disagree on null power states.** For strictly increasing rows they write
  the same periods if and only if every null row lies between two rows with a state, the nearest of
  which on either side both normalise to "unknown" and are at most 600 whole seconds apart
  (`PeriodLoops.LoopsAgreeIff`, with a concrete input where they differ).
- **A frame that repeats a position can leave a stale movement**: a closure is recorded as moving
  and ends up decoded as closed. `ClosureFrames.MovementIsStaleIff` says exactly when.
- **Registers with equal times keep the last delivery.** No order of the frames shows in a register if
  and only if its updates with the greatest time are the same update (`ParallaxRegisters.RegistersConvergeIff`).
- **A graph frame can hide its own readings.** Only its latest plausible point is checked against the
  session; when that lies outside, the points inside are dropped
  (`ParallaxRegisters.GraphFrameIsItsPointsIff`, with a concrete frame).
- **Clearing a visibility rule fails on unmigrated widgets**: without the typed rule the legacy
  option applies again (`Dashboards.ClearingWorksIff`). After loading it always works.
- **A legacy trip statistic named like a member that every object inherits** ("constructor",
  "toString") makes loading fail; `Dashboards.NormalizeIsWidgetwise` says exactly when loading fails.
- **themeHash skips the second half of surrogate pairs.** Replacing one code point by another changes
  the hash if and only if their first code units differ (`ThemeHash.CodePointChangeIsDetectedIff`), so
  some different definitions collide (`ThemeHash.SomeDefinitionsCollide`).
- **themeHash drops the first thing that looks like a stored hash.** The stored hash is ignored if and
  only if the pattern finds nothing in the members that sort before it
  (`ThemeHash.StoredHashDoesNotMatterIff`).

## Model

| member | source | states |
|---|---|---|
| DatabaseCatalog.SwapCommitsIff | apps/api/src/bin/riviamigo-restore-agent.rs:1240-1259 | the swap script commits exactly when live and candidate exist and the parking name is free; then it exchanges precisely those databases |
| DatabaseCatalog.SwapAndRollbackAreInverse | apps/api/src/bin/riviamigo-restore-agent.rs:1240-1280 | one catalog swaps into another exactly when the rollback script leads back |
| RestoreProtocol.UnfinishedIsEligibleIff | apps/api/src/bin/riviamigo-restore-agent.rs:516-550 | in every invariant state with a parked original a restart retries exactly while the job is retryable and fewer than two retries were used, and the rollback script then commits and makes the original live |
| RestoreProtocol.CandidateStepIsGood | apps/api/src/bin/riviamigo-restore-agent.rs:1152-1222 | scripts that touch only the candidate keep every invariant while nothing is parked |
| RestoreProtocol.RollbackIsGood | apps/api/src/bin/riviamigo-restore-agent.rs:1261-1280 | the rollback script keeps every invariant, makes what was parked live and ends the activation |
| RestoreProtocol.ArtworkMoveIsGood | apps/api/src/bin/riviamigo-restore-agent.rs:1439-1476 | artwork may move while the original is installed or parked |
| RestoreProtocol.StagingIsGood | apps/api/src/bin/riviamigo-restore-agent.rs:660-667 | the staging directory may come and go while no unverified activation needs it |
| RestoreProtocol.ClosingIsGood | apps/api/src/services/restore_jobs.rs:298-307 | a job may be marked failed at any time, and completed once it is verified |
| RestoreProtocol.DropIsGood | apps/api/src/bin/riviamigo-restore-agent.rs:927-931 | once the attempt is verified, dropping the previous database keeps every invariant and the live contents |
| RestoreProtocol.AtMostTwoRetries | apps/api/src/bin/riviamigo-restore-agent.rs:516-556 | over any run of durable steps the retries that started are exactly those the journal counts, at most two |
| RestoreProtocol.OnlyVerifiedAttemptsDrop | apps/api/src/bin/riviamigo-restore-agent.rs:925-931 | in any run, the original is given up only by a step out of a state whose own attempt has been verified |
| RestoreAgent.Agent.constructor | apps/api/src/bin/riviamigo-restore-agent.rs:606-611 | an accepted job starts in a state that satisfies the invariant, with the original live and a trace of that one state |
| RestoreAgent.Agent.WriteJournal | apps/api/src/bin/riviamigo-restore-agent.rs:790-800 | a journal write happens or not, as its fault says; it is allowed only when the new entry keeps the invariants and counts retries one by one |
| RestoreAgent.Agent.RunScript | apps/api/src/bin/riviamigo-restore-agent.rs:1312-1336 | a script commits as a whole or not at all, and may report failure after it committed |
| RestoreAgent.Agent.DropPrevious | apps/api/src/bin/riviamigo-restore-agent.rs:1282-1288 | only a verified attempt gives up the previous database; the live contents stay |
| RestoreAgent.Agent.RemovePackage | apps/api/src/bin/riviamigo-restore-agent.rs:997-1007 | removes the package file exactly when it was downloaded for the job |
| RestoreAgent.Agent.DiscardParked | apps/api/src/bin/riviamigo-restore-agent.rs:1478-1482 | only a verified attempt gives up the parked artwork |
| RestoreAgent.Agent.ProbeOrFalse | apps/api/src/bin/riviamigo-restore-agent.rs:536-539 | an answer yes is always right; no is right when the probe is truthful or did not fail |
| RestoreAgent.Agent.PrepareRestoreDatabase | apps/api/src/bin/riviamigo-restore-agent.rs:1152-1222 | on success the candidate holds the package and no step failed; whatever happens no other database changes |
| RestoreAgent.Agent.LoadCandidate | apps/api/src/bin/riviamigo-restore-agent.rs:1169-1222 | create and load; success means that neither step failed; a failed load is dropped again and no other database changes |
| RestoreAgent.Agent.StagePackage | apps/api/src/bin/riviamigo-restore-agent.rs:658-695 | success means that the package exists, this attempt finds the checksum of the plan and no step but the probe failed; without faults it succeeds exactly then; a changed package closes the job to retries |
| RestoreAgent.Agent.CopyPackage | apps/api/src/bin/riviamigo-restore-agent.rs:668-684 | a missing package fails the attempt, a changed one also closes the job to retries; with an intact one it ends with the report of its first failing step |
| RestoreAgent.Agent.ExtractPackage | apps/api/src/bin/riviamigo-restore-agent.rs:684-695 | ends with the report of its first failing step; success means an extracted package and an unchanged journal apart from the preparing phase |
| RestoreAgent.Agent.CloseToRetries | apps/api/src/bin/riviamigo-restore-agent.rs:708-714 | a rejected candidate ends the attempt with an error and closes the job to retries |
| RestoreAgent.Agent.BuildCandidate | apps/api/src/bin/riviamigo-restore-agent.rs:696-754 | success means that transforms and schema contract match the plan in this attempt and no step failed; without faults a candidate that does not match closes the job to retries; only the candidate differs afterwards |
| RestoreAgent.Agent.CheckpointAndStop | apps/api/src/bin/riviamigo-restore-agent.rs:757-821 | ends with the report of its first failing step; success leaves a journal that names candidate and previous database and is in the swapping phase |
| RestoreAgent.Agent.Checkpoint | apps/api/src/bin/riviamigo-restore-agent.rs:757-800 | ends with the report of its first failing step; success names both databases in the journal behind a safety backup |
| RestoreAgent.Agent.StopApplication | apps/api/src/bin/riviamigo-restore-agent.rs:800-821 | ends with the report of its first failing step; success leaves the swapping phase |
| RestoreAgent.Agent.PrepareCandidate | apps/api/src/bin/riviamigo-restore-agent.rs:696-821 | success means that the candidate matches the plan, both names are in the journal and no step failed |
| RestoreAgent.Agent.PrepareSwap | apps/api/src/bin/riviamigo-restore-agent.rs:658-821 | before the swap only the candidate changes; success means that the package exists, checksum and plan hold and no step but the probe failed; without faults it succeeds exactly then |
| RestoreAgent.Agent.ReachSwap | apps/api/src/bin/riviamigo-restore-agent.rs:658-827 | Ok means prepared, activated and the package staged; unless everything before the swap went well the live database is what it was; whatever the swap step suffers, its report and its effect decide between the swapped state and an untouched one |
| RestoreAgent.Agent.SwapDatabases | apps/api/src/bin/riviamigo-restore-agent.rs:822-827 | requires the journal to name both databases first; afterwards either nothing changed or the candidate is live and the original parked |
| RestoreAgent.Agent.RollbackDatabases | apps/api/src/bin/riviamigo-restore-agent.rs:1261-1280 | success means the parked database is live again; it fails exactly when its step does, nothing is parked or the candidate name is taken |
| RestoreAgent.Agent.ActivateArtwork | apps/api/src/bin/riviamigo-restore-agent.rs:1439-1463 | parks what was installed and installs the package's artwork; Ok means that no step but the probe failed; where it can succeed and the probe works it ends with the report of its first failing step; where artwork is already parked beside installed artwork it fails and changes nothing; a crash behind the second rename leaves both |
| RestoreAgent.Agent.InstallArtwork | apps/api/src/bin/riviamigo-restore-agent.rs:1446-1463 | Ok parks what was installed and installs the package artwork; two occupied places fail it unchanged; an error before the first rename takes effect changes nothing |
| RestoreAgent.Agent.RollbackArtwork | apps/api/src/bin/riviamigo-restore-agent.rs:1465-1476 | success with truthful probes puts the parked artwork back; with erring ones the original is still installed or parked |
| RestoreAgent.Agent.ActivationSteps | apps/api/src/bin/riviamigo-restore-agent.rs:828-924 | every step keeps the swapped state; the attempt is verified exactly when all of them succeed; where artwork can be installed and the probe works it ends with the report of its first failing step |
| RestoreAgent.Agent.ReachArtwork | apps/api/src/bin/riviamigo-restore-agent.rs:828-856 | ends with the report of its first failing step; the journal reaches the artwork phase without touching databases |
| RestoreAgent.Agent.VerifyActivation | apps/api/src/bin/riviamigo-restore-agent.rs:867-924 | Ok, and the verified fact, exactly when none of its four steps fails, the health check last; otherwise the report of the first that does |
| RestoreAgent.Agent.ReachHealthCheck | apps/api/src/bin/riviamigo-restore-agent.rs:867-914 | ends with the report of its first failing step, so Ok means that the health check itself reported success; the journal reaches the health phase before |
| RestoreAgent.Agent.RollBackActivation | apps/api/src/bin/riviamigo-restore-agent.rs:942-988 | success means the replaced database is live, nothing is parked, and with truthful probes artwork is back if it had been activated |
| RestoreAgent.Agent.GiveUpActivation | apps/api/src/bin/riviamigo-restore-agent.rs:942-988 | never Ok; without further faults the replaced database is live, nothing is parked and artwork is back if it had been activated |
| RestoreAgent.Agent.AnnounceRollback | apps/api/src/bin/riviamigo-restore-agent.rs:950-958 | announcing the rollback keeps the activation and its journal names |
| RestoreAgent.Agent.ReportRollback | apps/api/src/bin/riviamigo-restore-agent.rs:967-974 | without faults the job ends retryable with a successful rollback recorded; when the application does not come up nothing is recorded |
| RestoreAgent.Agent.FinishAttempt | apps/api/src/bin/riviamigo-restore-agent.rs:925-939 | only after verification is the previous database dropped and the job completed; nothing but the completing journal write can fail it |
| RestoreAgent.Agent.DropPreviousAndComplete | apps/api/src/bin/riviamigo-restore-agent.rs:927-938 | dropping the previous database leaves the live one alone; the phase becomes completed and a downloaded package is removed; nothing but the journal write can fail it |
| RestoreAgent.Agent.ActivateOrRollBack | apps/api/src/bin/riviamigo-restore-agent.rs:828-939 | after the swap Ok means that no step up to the health check failed but perhaps a probe; a single error at any other step, the health check included, ends in Err with the replaced database live again, and with artwork back unless its renames were cut short |
| RestoreAgent.Agent.Attempt | apps/api/src/bin/riviamigo-restore-agent.rs:658-940 | one attempt, whose verification is its own, with the guarantees of the next row |
| RestoreAgent.Agent.PerformRestoreInner | apps/api/src/bin/riviamigo-restore-agent.rs:658-940 | Ok means verified, live package, package artwork and completed journal, a package that passed checksum and plan, and no failing step up to the health check but perhaps two probes; if anything goes wrong before the swap live data and artwork are untouched; behind it a single error, in the health check or elsewhere, ends in Err with the original live; a rejected package is never retried; a fault-free attempt succeeds exactly when it can; a failed or crashed swap and a crash behind the artwork renames leave exactly the states named |
| RestoreAgent.Agent.PerformRestore | apps/api/src/bin/riviamigo-restore-agent.rs:629-642 | the deadline turns a timeout into an error; a failing first step changes nothing; the guarantees of the attempt remain |
| RestoreAgent.Agent.PerformOrFail | apps/api/src/bin/riviamigo-restore-agent.rs:561-564 | a failed attempt is recorded as failed without losing any invariant |
| RestoreAgent.Agent.CloseFailedJob | apps/api/src/bin/riviamigo-restore-agent.rs:614-624 | a failed job is marked failed exactly when that write happens, and a downloaded package removed; nothing else changes |
| RestoreAgent.Agent.ExecuteJob | apps/api/src/bin/riviamigo-restore-agent.rs:606-627 | a job outside the preparing phase is refused and nothing changes; any other runs, retryable or not; a fault-free run ends finished or with live data and artwork untouched and a downloaded package removed |
| RestoreAgent.Agent.RecoverPrevious | apps/api/src/bin/riviamigo-restore-agent.rs:535-550 | with a truthful probe the original is live and nothing parked before the retry goes on |
| RestoreAgent.Agent.PutPreviousBack | apps/api/src/bin/riviamigo-restore-agent.rs:540-549 | Ok means the original is live and nothing is parked; nothing but the rollback script can make it fail |
| RestoreAgent.Agent.BeginRetry | apps/api/src/bin/riviamigo-restore-agent.rs:552-560 | every retry is counted in the journal before it runs, and starts with the original live |
| RestoreAgent.Agent.PrepareRetry | apps/api/src/bin/riviamigo-restore-agent.rs:535-560 | a retry that starts is counted, from a recovered catalog |
| RestoreAgent.Agent.RetryEligible | apps/api/src/bin/riviamigo-restore-agent.rs:535-566 | an eligible job is retried at most once per restart; a fault-free restart finishes it exactly when it is completable and otherwise leaves the original live |
| RestoreAgent.Agent.RetryInterruptedRestore | apps/api/src/bin/riviamigo-restore-agent.rs:493-568 | a completed, queued or unretryable job, one without staging or with two retries is left alone; so is any job when the first read fails; a fault-free restart of any other finishes exactly when package, checksum, plan and artwork allow it and otherwise leaves the original live; a crash behind its swap leaves a counted, unfinished activation |
| RestoreAgent.RunJob | apps/api/src/bin/riviamigo-restore-agent.rs:493-940 | every order of requests and restarts under every fault schedule is a run of durable steps from the accepted job, in every state of which a live database exists, the original is live or parked unless a verified attempt dropped it, the journal names what is parked, artwork is never lost, and recovery stays possible; every retry starts with the original live, and at most two run |
| RestoreAgent.ThreeCrashesExhaustRecovery | apps/api/src/bin/riviamigo-restore-agent.rs:516-550 | a run whose third crash leaves the original parked for good: unfinished, retryable, and ineligible however often the agent restarts |
| RestoreAgent.ParkedArtworkBlocksRetries | apps/api/src/bin/riviamigo-restore-agent.rs:1439-1463 | a run with one crash behind the second artwork rename after which no restart finishes the job although nothing fails any more |
| RestoreAgent.RemovedPackageBlocksRetries | apps/api/src/bin/riviamigo-restore-agent.rs:614-624 | a run with one failed swap of a downloaded package after which the job is eligible and no restart finishes it although nothing fails any more |
| HostRestore.RollbackScriptRestores | apps/api/src/bin/riviamigo-restore-agent.rs:1261-1280 | whenever a replaced database is parked before finalize, the rollback script commits and restores it |
| HostRestore.DiscardIsGood | apps/api/src/bin/riviamigo-restore-agent.rs:372-404 | dropping the candidate of an unfinished job keeps every invariant |
| HostRestore.Host.HostRestore | apps/api/src/bin/riviamigo-restore-agent.rs:131-291 | refused while a state file exists, if the probe for it tells the truth; success means that no step but the probe failed, and a loaded candidate, an unswapped catalog and a fresh state file; the live contents never change, and either the open job stays as it is or the new one is announced |
| HostRestore.Host.AnnounceCandidate | apps/api/src/bin/riviamigo-restore-agent.rs:200-291 | the state file is written only for a candidate that holds the package, and a failed write drops the candidate; Ok means that no step failed |
| HostRestore.Host.LoadCandidate | apps/api/src/bin/riviamigo-restore-agent.rs:200-210 | success means that no step failed and a candidate of the new job holds the package; no other database changes |
| HostRestore.Host.Announce | apps/api/src/bin/riviamigo-restore-agent.rs:264-285 | writing the state file makes the loaded job the announced one, with the live contents as what it replaces |
| HostRestore.Host.SwapDatabases | apps/api/src/bin/riviamigo-restore-agent.rs:1240-1259 | requires an announced activation; its step and the candidate decide between wholly swapped and unchanged |
| HostRestore.Host.RollbackDatabases | apps/api/src/bin/riviamigo-restore-agent.rs:1261-1280 | success means unswapped; without a parked database it fails and changes nothing |
| HostRestore.Host.UndoActivation | apps/api/src/bin/riviamigo-restore-agent.rs:319-340 | a failed activation reports an error and is rolled back whenever the rename takes effect |
| HostRestore.Host.HostActivate | apps/api/src/bin/riviamigo-restore-agent.rs:299-343 | an interrupted activation is refused unchanged; Ok before finalize means confirmed, and swapped exactly unless a rollback already renamed back, in which case the original is live; a first activation that is Ok is swapped; without faults it succeeds exactly when the candidate exists; a first activation is Ok only if none of its six steps fails, and a single error at any of them, with calm steps behind, ends in Err with the replaced database live, unless the swap itself took effect and reported the error |
| HostRestore.Host.AnnounceAndSwap | apps/api/src/bin/riviamigo-restore-agent.rs:307-343 | Ok means announced, swapped and confirmed with no failing step; a single error ends in Err with the replaced database live, unless the swap itself took effect and reported it; without faults it is Ok exactly when the candidate exists |
| HostRestore.Host.ConfirmSwap | apps/api/src/bin/riviamigo-restore-agent.rs:319-343 | Ok means that the artwork step and the confirmation both worked; an error in either, with two calm steps behind, ends in Err with the replaced database live |
| HostRestore.Host.HostFinalize | apps/api/src/bin/riviamigo-restore-agent.rs:358-370 | needs a confirmed activation, keeps the live contents and closes the job; then it is Ok exactly if no step fails but perhaps the two that may report errors; Ok leaves the package live, or the original exactly when a rollback had already renamed back |
| HostRestore.Host.DropReplaced | apps/api/src/bin/riviamigo-restore-agent.rs:363-365 | Ok exactly if the drop works and the step behind it is not cut; from its start on the replaced database is given up; the live one stays |
| HostRestore.Host.UndoSwapOrDiscard | apps/api/src/bin/riviamigo-restore-agent.rs:372-396 | whether or not the swap had committed, success means unswapped; it fails exactly in the state a committed rollback leaves behind |
| HostRestore.Host.HostRollback | apps/api/src/bin/riviamigo-restore-agent.rs:372-404 | whenever the state file is gone afterwards, even after a crash, the replaced database is live; without faults it succeeds exactly when its rename has not already committed |
| HostRestore.Host.CloseJob | apps/api/src/bin/riviamigo-restore-agent.rs:396-404 | Ok exactly if its last two steps work and its first is not cut; removes the state file and nothing else |
| HostRuns.RunCommand | apps/api/src/bin/riviamigo-restore-agent.rs:131-404 | every command, whatever fails in it, is one step of the history relation |
| HostRuns.RunCommands | apps/api/src/bin/riviamigo-restore-agent.rs:131-404 | every order of host commands under every fault schedule is a run of durable steps from an empty host, in every state of which the replaced database is live or parked until finalize and a swap is announced before it happens; the states between the commands form a history |
| HostRuns.OnlyRollbackLeavesInterrupted | apps/api/src/bin/riviamigo-restore-agent.rs:299-307 | over any history with truthful probes an interrupted activation is left only through a rollback: every other command is refused and changes nothing |
| HostRuns.ClosedHostKeepsLive | apps/api/src/bin/riviamigo-restore-agent.rs:372-404 | over any history with truthful probes and no finalize, a host without an open job, in particular after an Ok rollback, has the database it started with |
| HostRuns.CutRollbackCannotBeRepeated | apps/api/src/bin/riviamigo-restore-agent.rs:372-404 | restore, activate, a rollback cut after its rename: every later rollback fails, and activate and finalize answer Ok with the original live |
| HostRuns.ErringProbeOrphansOriginal | apps/api/src/bin/riviamigo-restore-agent.rs:132-135 | restore, activate, a second restore whose probe errs, rollback: Ok, closed, the first package live and the original parked under an unknown name |
| ChargeDetector.Detector.constructor | apps/api/src/ingestion/charge_detector.rs:94-99 | a new detector is the initial state of the runs below |
| ChargeDetector.Detector.FromSnapshot | apps/api/src/ingestion/charge_detector.rs:101-120 | rebuilding clamps energy and peak at zero and keeps everything else |
| ChargeDetector.Detector.TakeReadings | apps/api/src/ingestion/charge_detector.rs:126-163 | battery fields, first level and first valid place of an open session |
| ChargeDetector.Detector.IntegratePower | apps/api/src/ingestion/charge_detector.rs:165-195 | one accepted reading adds its power times the time since the previous one; rejected ones change nothing |
| ChargeDetector.Detector.AdvanceSession | apps/api/src/ingestion/charge_detector.rs:197-231 | the detector and the answer become those of the step whose session boundaries SessionStartsIff and SessionEndsIff give in the events' own fields |
| ChargeDetector.Detector.OpenSession | apps/api/src/ingestion/charge_detector.rs:199-213 | a new session starts with its first event's time, level and place and empty meters |
| ChargeDetector.Detector.CloseSession | apps/api/src/ingestion/charge_detector.rs:233-308 | the completed session and the reset state |
| ChargeDetector.Detector.Process | apps/api/src/ingestion/charge_detector.rs:126-231 | one event is one step of the run that the session lemmas are about, SessionStartsIff and SessionEndsIff first of all |
| ChargeDetector.RunConcat | apps/api/src/ingestion/charge_detector.rs:126-231 | a run may be cut anywhere and continued from its state |
| ChargeSessions.RunsAreSummarized | apps/api/src/ingestion/charge_detector.rs:126-231 | every reachable state holds exactly what the open session's events say: id, start, first place and level, energy integral, peak, last evidence |
| ChargeSessions.CompletedSessionIsItsEvents | apps/api/src/ingestion/charge_detector.rs:233-308 | a completed session reports the id and time of its first event, first place and level, last level, integral and peak of exactly the accepted readings, and the class of that peak |
| ChargeSessions.AverageRateGivesBackEnergy | apps/api/src/ingestion/charge_detector.rs:233-279 | average rate times duration is the metered energy, or the pack's when none was metered; without a peak the class follows the average |
| ChargeSessions.BoundaryFollowsOpenness | apps/api/src/ingestion/charge_detector.rs:197-231 | a session starts only when none is open and ends only when one is |
| ChargeSessions.SessionStartsIff | apps/api/src/ingestion/charge_detector.rs:184-213 | in every reachable closed state the next event starts a session if and only if its state or status says charging |
| ChargeSessions.SessionEndsIff | apps/api/src/ingestion/charge_detector.rs:184-231 | in every reachable open state the next event ends the session if and only if it is done or disconnected, not connected, connected without charge and without remaining time, or the last event that showed charging is more than 1800 whole seconds old |
| ChargeSessions.ReadingCountsIff | apps/api/src/ingestion/charge_detector.rs:165-183 | in an open session a reading counts exactly when its magnitude is above zero, at most 300 kW and no more than five times a peak below 50 kW; it then adds its power over the time since the last one that counted, and everything else stays |
| ChargeSessions.EnergyIsPowerTimesTime | apps/api/src/ingestion/charge_detector.rs:165-183 | energy is power times time |
| ChargeSessions.ClassFollowsPower | apps/api/src/ingestion/charge_detector.rs:311-320 | a session is classed by its peak, or by its average without one: from 50 kW on direct, from 12 kW on level 2, alternating below |
| ChargeSessions.PackEnergyIsLevelGain | apps/api/src/ingestion/charge_detector.rs:233-250 | the pack energy is the gain in level over the stated capacity, reported exactly when there is a gain |
| ChargeSessions.BatteryFieldsAreTheLast | apps/api/src/ingestion/charge_detector.rs:126-141 | limit and capacity, also those of a completed session, are the last ones any event gave |
| ChargeSessions.PlaceIff | apps/api/src/ingestion/location.rs:1-15 | a place is both coordinates of an event, unless one is missing or both are zero |
| ChargeSessions.BoundariesAlternate | apps/api/src/ingestion/charge_detector.rs:197-231 | from a new detector started and ended events strictly alternate |
| ChargeSessions.SessionLogIsSuffix | apps/api/src/ingestion/charge_detector.rs:197-231 | the events of the open session are the latest ones, without holes |
| ChargeSessions.OpenSessionHasRecentEvidence | apps/api/src/ingestion/charge_detector.rs:197-231 | after every event an open session has charging evidence at most 1800 whole seconds old |
| ChargeSessions.IntegralIsBounded | apps/api/src/ingestion/charge_detector.rs:165-195 | readings in time order give a nonnegative integral of at most peak times elapsed time |
| ChargeSessions.SessionEnergyIsBounded | apps/api/src/ingestion/charge_detector.rs:165-195 | with nondecreasing times a session's energy is between zero and peak times elapsed hours, and the peak is at most 300 kW |
| ChargeSessions.OpenSessionEnergy | apps/api/src/ingestion/charge_detector.rs:165-213 | in every reachable open state the accumulator is the integral of the accepted readings, and so bounded |
| ChargeSessions.CompletedSessionEnergyIsBounded | apps/api/src/ingestion/charge_detector.rs:233-308 | reported energy is positive, comes with a peak of at most 300 kW and is at most that peak over the session's length |
| ChargeSessions.RestartIsExactIff | apps/api/src/ingestion/charge_detector.rs:101-118 | rebuilding an open session from its projection gives the same state if and only if its energy is not negative |
| ChargeSessions.RestartIsTransparent | apps/api/src/ingestion/charge_detector.rs:101-118 | with nondecreasing times, cutting any run inside an open session and continuing from the snapshot gives the same later events, completed sessions included, and the same final state |
| ChargeSessions.RestartIsVisibleAfterNegativeEnergy | apps/api/src/ingestion/charge_detector.rs:101-118 | a concrete run with a clock running backwards whose completed energy differs after a restart |
| ChargeSessions.RejectedReadingsAreInvisible | apps/api/src/ingestion/charge_detector.rs:165-183 | erasing the power of every rejected reading changes no state and no event of any run |
| ChargeSessions.AcBaselineGrowsSlowly | apps/api/src/ingestion/charge_detector.rs:165-183 | while five to the number of further readings times the first one is below 50 kW, the peak stays under that product |
| ChargeSessions.LowBaselineIsNotDc | apps/api/src/ingestion/charge_detector.rs:311-320 | such a session ends with a peak below 50 kW and is not classified as DC |
| MigrationLedger.MatchesIff | apps/api/src/db/migrations.rs:489-522 | an entry matches exactly on version, description and checksum letter by letter, large or small; stored checksums are in small letters |
| MigrationLedger.FirstFault | apps/api/src/db/migrations.rs:489-522 | no fault exactly for a matching prefix; a fault names the first entry that does not match, and a version fault only a differing version |
| MigrationLedger.ValidateLedgerPrefix | apps/api/src/db/migrations.rs:471-524 | accepts exactly the nonempty ledgers that match a catalog prefix |
| MigrationLedger.ValidateCompleteLedger | apps/api/src/db/migrations.rs:526-540 | accepts exactly the ledgers that match the whole catalog |
| MigrationLedger.ReadLedger | apps/api/src/db/migrations.rs:368-399 | fails exactly when a row records an unsuccessful migration |
| MigrationLedger.ValidatedLedgerIsCatalogPrefix | apps/api/src/db/migrations.rs:471-524 | a ledger that passes validation is stored as exactly the rows of a catalog prefix |
| MigrationLedger.StoredLedgerIsCatalogPrefix | apps/api/src/db/migrations.rs:368-399 | rows read back and validated are the rows of a nonempty catalog prefix |
| MigrationLedger.PendingIsSuffix | apps/api/src/db/migrations.rs:217-222 | the pending list is exactly the catalog suffix after the validated prefix |
| MigrationCoordinator.CanonicalStep | apps/api/src/db/migrations.rs:171-176 | a public ledger that is a catalog prefix is accepted, and its next commit appends the next catalog entry, if there is one |
| MigrationCoordinator.AcceptedIsNearCanonical | apps/api/src/db/migrations.rs:161-209 | every accepted state is a canonical prefix or becomes one by its ledger commit |
| MigrationCoordinator.CommitsMakeProgress | apps/api/src/db/migrations.rs:161-268 | every commit from an accepted state stays accepted and reduces the remaining commits by one; none remain exactly when complete |
| MigrationCoordinator.CommitsKeepConsistency | apps/api/src/db/migrations.rs:297-322 | a commit runs no migration twice and records none that did not run, and it does not hide that this happened before |
| MigrationCoordinator.CommitsKeepHistory | apps/api/src/db/migrations.rs:211-263 | what ran on a schema is never forgotten |
| MigrationCoordinator.IterateStaysAccepted | apps/api/src/db/migrations.rs:149-268 | after any number of commits the state is accepted, consistent if and only if it was, with that many fewer remaining |
| MigrationCoordinator.IterateRunsTheRest | apps/api/src/db/migrations.rs:217-263 | behind a catalog prefix the next commits run exactly the next catalog entries |
| MigrationCoordinator.CompleteRanTheCatalog | apps/api/src/db/migrations.rs:259-263 | a complete database has run exactly the compiled catalog in order if and only if its ledger tells what ran |
| MigrationCoordinator.AdoptedIsAccepted | apps/api/src/bin/rebaseline_db.rs:57-115 | the state a rebaseline commits is accepted with everything after the baseline pending, and tells what ran if and only if only the baseline did |
| MigrationCoordinator.LegacyLedgerIsNeverAdopted | apps/api/src/services/restore_compatibility.rs:261-283 | the contract lists every table of schema riviamigo, a legacy ledger included, so only a public ledger can be adopted |
| MigrationCoordinator.AcceptedIff | apps/api/src/db/migrations.rs:161-209 | the case analysis accepts exactly the databases told by rows, catalog and users table: the prefix rules for one ledger, equality or an empty legacy ledger for two, an empty schema for none |
| MigrationCoordinator.AdoptableIff | apps/api/src/bin/rebaseline_db.rs:41-70 | adoptable is exactly a public ledger without a legacy one, of successful rows with consecutive versions from a positive one on, other than the catalog, over a schema described like the baseline |
| MigrationCoordinator.Coordinator.ReplaceLedger | apps/api/src/db/migrations.rs:414-456 | the public ledger becomes exactly the given rows and the legacy one disappears |
| MigrationCoordinator.Coordinator.ApplyOne | apps/api/src/db/migrations.rs:247 | one pending migration and its ledger row commit together |
| MigrationCoordinator.Coordinator.ApplyPending | apps/api/src/db/migrations.rs:211-263 | runs the pending suffix as far as commits are left and reports completion exactly then |
| MigrationCoordinator.Coordinator.CommitDecision | apps/api/src/db/migrations.rs:161-209 | the ledger case analysis commits exactly the successor state |
| MigrationCoordinator.Coordinator.RestoreLedger | apps/api/src/db/migrations.rs:545-604 | writes the catalog prefix if and only if the source ledger is one, and otherwise changes nothing |
| MigrationCoordinator.Coordinator.RunCurrentMigrations | apps/api/src/db/migrations.rs:149-268 | rejects, unchanged, exactly the databases outside these: one ledger, the rows of a nonempty catalog prefix, with a users table; both, the public one so and the legacy one empty or equal to it; none, over an empty schema; otherwise performs the first so many commits, and finishes complete |
| MigrationCoordinator.Coordinator.Adopt | apps/api/src/bin/rebaseline_db.rs:41-134 | rejects exactly a database that is not adopted yet and cannot be, or lacks quiet clients or, when confirmed, a backup; changes nothing unless every check holds and it is confirmed; else adopts the baseline and runs what follows, whatever ran before |
| MigrationCoordinator.ResumingReachesTheSameEnd | apps/api/src/db/migrations.rs:149-268 | continuing after any number of commits ends where an uninterrupted run ends |
| MigrationCoordinator.CrashesDoNotMatter | apps/api/src/db/migrations.rs:149-268 | after any series of interrupted runs an uncut run reaches the same complete state |
| MigrationCoordinator.ExtraCommitsChangeNothing | apps/api/src/db/migrations.rs:217-230 | running again after completion changes nothing |
| MigrationRuns.CommandKeeps | apps/api/src/bin/rebaseline_db.rs:41-134 | one command, cut or not: accepted stays accepted; without an adoption the ledger tells what ran exactly if it did before; after one exactly if only the baseline had run |
| MigrationRuns.SoundIffNeverRewound | apps/api/src/bin/rebaseline_db.rs:57-119 | over any schedule of interrupted commands the ledger goes on telling what ran if and only if no adoption commits where more than the baseline ran; once lost, that never comes back |
| MigrationRuns.RewindShowsInLedger | apps/api/src/bin/rebaseline_db.rs:57-115 | as long as the ledger tells what ran, an adoption rewinds exactly a ledger of more than one row |
| MigrationRuns.RejectedIsStuckIff | apps/api/src/db/migrations.rs:161-209 | a database the coordinator rejects is beyond every schedule if and only if it cannot be adopted |
| MigrationRuns.AdoptionRunsTheRest | apps/api/src/bin/rebaseline_db.rs:114-124 | an uncut adoption runs every migration behind the baseline on top of what ran before, and completes the ledger |
| MigrationRuns.CutBehindSecond | apps/api/migrations/0002_global_app_timezone.sql:1-8 | a first run cut behind its second commit leaves a ledger of rows 1 and 2 on their schema |
| MigrationRuns.RewindRunsTwice | apps/api/migrations/0002_global_app_timezone.sql:1-8 | if the second migration leaves the contract alone, that database is adopted and runs it again |
| MigrationRuns.RunCommand | apps/api/src/bin/rebaseline_db.rs:41-134 | the running programs do exactly what the runs above say |
| MigrationRuns.Converge | apps/api/src/db/migrations.rs:149-268 | after any schedule of interrupted commands an uncut run finishes with the catalog in the public ledger and no legacy ledger from every accepted state, and if the ledger told what ran at the start, every migration ran once if and only if no adoption rewound it; otherwise the database was rejected and is untouched |
| StatePeriods.NormalizeState | apps/api/src/bin/backfill_state_periods.rs:52-62 | the result is one of the six known states or unknown |
| StatePeriods.NormalizeStateIff | apps/api/src/bin/backfill_state_periods.rs:52-62 | a state is known exactly when the text, without surrounding blanks and in whatever case, spells it, or spells "go" for driving |
| StatePeriods.NormalizeIsIdempotent | apps/api/src/bin/backfill_state_periods.rs:52-62 | a normal state is its own normal form |
| StatePeriods.BackfillVehicle | apps/api/src/bin/backfill_state_periods.rs:64-101 | the batch loop computes the run-length encoding of the normalised samples |
| StatePeriods.RebuildVehicle | apps/api/src/bin/rebuild_vehicle_history.rs:188-236 | the streaming loop inserts the encoding of the rows with a state and counts it right |
| PeriodLoops.LoopsAgreeIff | apps/api/src/bin/rebuild_vehicle_history.rs:197-203 | for strictly increasing rows both loops write the same periods if and only if every null row lies between rows with a state whose nearest on either side read unknown and are at most 600 whole seconds apart |
| PeriodLoops.BridgedLoopsAgree | apps/api/src/bin/rebuild_vehicle_history.rs:188-236 | such nulls only stretch a period that the streaming loop writes too |
| PeriodLoops.AgreementBridges | apps/api/src/bin/rebuild_vehicle_history.rs:188-236 | any other null row shows in the periods |
| PeriodLoops.LoopsAgreeWithoutNulls | apps/api/src/bin/rebuild_vehicle_history.rs:197-203 | without null states both loops write the same periods, whatever the times |
| PeriodLoops.LoopsDisagreeOnNulls | apps/api/src/bin/rebuild_vehicle_history.rs:197-203 | a null between two equal known states makes the lists differ |
| StatePeriods.EncodingIsOrdered | apps/api/src/bin/backfill_state_periods.rs:80-101 | for increasing times the periods are ordered and disjoint |
| StatePeriods.EncodingCovers | apps/api/src/bin/backfill_state_periods.rs:80-101 | every sample lies in a period with its state |
| StatePeriods.EncodingEndsAreSamples | apps/api/src/bin/backfill_state_periods.rs:80-101 | every period begins and ends at a sample that has the period's state |
| StatePeriods.EncodingIsMaximal | apps/api/src/bin/backfill_state_periods.rs:84-97 | neighbouring periods differ in state or are more than 600 whole seconds apart |
| StatePeriods.EncodingIsGapless | apps/api/src/bin/backfill_state_periods.rs:84-97 | no period bridges a gap of more than 600 whole seconds between samples |
| StatePeriods.RunLengthRoundTrip | apps/api/src/bin/backfill_state_periods.rs:80-101 | for strictly increasing rows, looking a row's time up in the periods gives back its normalised state; the periods are ordered, covering, maximal and gapless |
| ChargeWindows.PeersAddNothing | apps/api/src/bin/rebuild_vehicle_history.rs:309-314 | in time order the default window frame adds nothing for rows with equal times |
| ChargeWindows.SegmentIdCountsChunks | apps/api/src/bin/rebuild_vehicle_history.rs:309-314 | a row's running sum of gap flags is the number of chunks a sequential split has made so far |
| ChargeWindows.SegmentsAreChunks | apps/api/src/bin/rebuild_vehicle_history.rs:300-343 | grouping by the running sum is sequential splitting at gaps over two hours |
| ChargeWindows.ChunksPartition | apps/api/src/bin/rebuild_vehicle_history.rs:309-343 | the chunks, one after the other, are the evidence |
| ChargeWindows.ChunksHaveNoGap | apps/api/src/bin/rebuild_vehicle_history.rs:300-308 | inside a chunk neighbours are at most two hours apart |
| ChargeWindows.SplitIsFarApart | apps/api/src/bin/rebuild_vehicle_history.rs:300-308 | all rows of different chunks are more than two hours apart |
| ChargeWindows.WindowsAreFarApart | apps/api/src/bin/rebuild_vehicle_history.rs:315-343 | any two windows of the query are more than two hours apart |
| ChargeWindows.MineIsVehicleEvidence | apps/api/src/bin/repair_charge_sessions_from_telemetry.rs:49-62 | one vehicle's partition of the evidence is the evidence selected for that vehicle |
| ChargeWindows.RowIsInWindowIff | apps/api/src/bin/repair_charge_sessions_from_telemetry.rs:49-62 | a row lies in a window of a vehicle exactly when it is the vehicle's and shows charging by state, status or remaining time |
| ChargeWindows.PartitionedQueryIsPerVehicle | apps/api/src/bin/repair_charge_sessions_from_telemetry.rs:49-89 | restricted to one vehicle, the all-vehicles query gives every segment of the single-vehicle query |
| PayloadCompaction.DuplicateCountIsGroupExcess | apps/api/src/bin/compact_charge_payloads.rs:34-45 | the sum over groups of count minus one is rows minus distinct keys |
| PayloadCompaction.NonKeepersAreTheDuplicates | apps/api/src/bin/compact_charge_payloads.rs:94-119 | the rows ranked after the first of their group are as many as the reported duplicates |
| PayloadCompaction.KeepersSurvive | apps/api/src/bin/compact_charge_payloads.rs:94-141 | no batch deletes a keeper, and surviving rows keep their keeper; which row that is KeeperIsBest says |
| PayloadCompaction.KeeperIsBest | apps/api/src/bin/compact_charge_payloads.rs:104-114 | the keeper is linked whenever some row of its group is, and among the rows linked like itself none was captured earlier, nor at the same time with a smaller id |
| PayloadCompaction.VictimsAreEarliest | apps/api/src/bin/compact_charge_payloads.rs:115-120 | a batch deletes only rows in scope that are not their own keeper, and none of those it leaves was captured before one it deletes |
| PayloadCompaction.TheRestIsUntouched | apps/api/src/bin/compact_charge_payloads.rs:121-141 | what is not deleted stays as it is, references to it included, and so do the rows of other vehicles |
| PayloadCompaction.ReferencesMoveToKeeper | apps/api/src/bin/compact_charge_payloads.rs:121-136 | references to a deleted row move to its keeper, with the keeper's time |
| PayloadCompaction.BatchKeepsLinks | apps/api/src/bin/compact_charge_payloads.rs:94-141 | every key that had a row linked to a session still has one after a batch |
| PayloadCompaction.RepeatedRunsKeepLinks | apps/api/src/bin/compact_charge_payloads.rs:93-164 | and after any number of runs |
| PayloadCompaction.RepeatedRunsKeepKeepers | apps/api/src/bin/compact_charge_payloads.rs:93-164 | a keeper outlives any number of runs, as it is |
| PayloadCompaction.KeysSurvive | apps/api/src/bin/compact_charge_payloads.rs:94-141 | every batch keeps exactly the same identity keys, overall and in scope |
| PayloadCompaction.BatchRemovesDuplicates | apps/api/src/bin/compact_charge_payloads.rs:115-145 | a batch removes the minimum of batch size and duplicates, and the duplicate count falls by that |
| PayloadCompaction.ReferencesStayLive | apps/api/src/bin/compact_charge_payloads.rs:121-136 | every alias and identity that referred to a live payload refers to a live payload with the same key afterwards |
| PayloadCompaction.NoDuplicatesIffOneRowPerKey | apps/api/src/bin/compact_charge_payloads.rs:34-45 | the reported count is zero exactly when each key has one row |
| PayloadCompaction.RepeatedRunsPreserve | apps/api/src/bin/compact_charge_payloads.rs:93-164 | any number of runs keeps keys and references |
| PayloadCompaction.RepeatedRunsRemove | apps/api/src/bin/compact_charge_payloads.rs:93-164 | after n runs the duplicates are what is left after n batches, never below zero |
| PayloadCompaction.RepeatedRunsFinish | apps/api/src/bin/compact_charge_payloads.rs:93-164 | n runs leave one row per key exactly when n batches cover the duplicates |
| PayloadCompaction.Storage.RepointAndDelete | apps/api/src/bin/compact_charge_payloads.rs:121-141 | the three tables become those of the batch that the reference and key lemmas are about |
| PayloadCompaction.Storage.Compact | apps/api/src/bin/compact_charge_payloads.rs:61-164 | a dry run, missing identities or a held lock change nothing; else one batch runs, a row linked to a session survives in every group that had one, as many rows go as batch size and duplicates allow, and more duplicates are announced exactly when some remain |
| ClosureMotion.FollowsIsDeterministic | apps/api/src/ingestion/closure_motion.rs:38-87 | what the rules say field by field determines the next state |
| ClosureMotion.Tracker.TakeReadings | apps/api/src/ingestion/closure_motion.rs:46-66 | settled readings update the settled state and end exactly the movements they complete |
| ClosureMotion.Tracker.TakeReading | apps/api/src/ingestion/closure_motion.rs:46-66 | one field's reading changes only that field |
| ClosureMotion.Tracker.TakeTransitions | apps/api/src/ingestion/closure_motion.rs:68-82 | transitions set the movement; an ajar one by the settled state |
| ClosureMotion.Tracker.Observe | apps/api/src/ingestion/closure_motion.rs:38-87 | the loops give the field-by-field state, and the map is returned exactly when it changed |
| ClosureMotion.MovementEndsIff | apps/api/src/ingestion/closure_motion.rs:46-84 | a movement disappears exactly when no transition renews it and a reading reports the position it leads to or 30 seconds have passed; otherwise it stays as it was |
| ClosureMotion.LaggingReadingKeepsMovement | apps/api/src/ingestion/closure_motion.rs:54-65 | a late reading of the position the movement started from never cancels it |
| ClosureMotion.AnnouncedMovementIsShown | apps/api/src/ingestion/closure_motion.rs:68-82 | opening and closing transitions are shown as such; an ajar one moves away from the settled position, or keeps a known direction, or shows nothing |
| ClosureMotion.ReadingSettles | apps/api/src/ingestion/closure_motion.rs:46-66 | a reading is taken over exactly where no transition of its field comes with it, and starts no movement |
| ClosureMotion.ClientIsCurrent | apps/api/src/ingestion/closure_motion.rs:84-94 | a client that replaces its map by every returned map and keeps it otherwise always shows the tracker's map |
| ClosureMotion.SettledIsLastReading | apps/api/src/ingestion/closure_motion.rs:46-53 | over any stream the settled state is the last settled reading |
| ClosureMotion.AjarLeavesLastSettled | apps/api/src/ingestion/closure_motion.rs:68-82 | over any stream an ajar transition shows opening after a closed reading, closing after an open one, and keeps a known direction without either |
| ClosureMotion.ShownMovementIsRecent | apps/api/src/ingestion/closure_motion.rs:84 | every movement shown was reported by a transition less than 30 seconds ago |
| ClosureFrames.DecodeClosures | apps/api/src/parallax.rs:530-594 | a frame is lost only for an entry without position; else event and notes are the fold of one verdict per entry |
| ClosureFrames.DecodeLocks | apps/api/src/parallax.rs:595-621 | the same for locks; set_lock never fails after the name check |
| ClosureFrames.ClosureNamesAgree | apps/api/src/parallax.rs:701-747 | closure_field and closure_field_name agree on every position but the charge port, which has its own branch |
| ClosureFrames.LockNamesAgree | apps/api/src/parallax.rs:751-782 | lock_field_name and set_lock agree on every position |
| ClosureFrames.ClosureFieldsFollowPositions | apps/api/src/parallax.rs:701-747 | different positions never write the same closure field |
| ClosureFrames.LockFieldsFollowPositions | apps/api/src/parallax.rs:751-782 | different positions never write the same lock field |
| ClosureFrames.UnappliedEntryIsInert | apps/api/src/parallax.rs:530-621 | leaving out a skipped or noted entry never changes the decoded event |
| ClosureFrames.NotesAreConcatenated | apps/api/src/parallax.rs:530-621 | each part of a frame contributes its own notes, in order, whatever surrounds it |
| ClosureFrames.EventIsItsEntries | apps/api/src/parallax.rs:530-621 | with distinct positions the event holds exactly what the applied entries report |
| ClosureFrames.ClosureFrameSays | apps/api/src/parallax.rs:530-594 | with distinct positions a closure is closed exactly on state 2, open exactly on 1, 3, 4 and 5, and ajar, opening and closing exactly on 3, 4 and 5 |
| ClosureFrames.ChargePortFrameSays | apps/api/src/parallax.rs:537-556 | with distinct positions the charge port is open exactly on states 1 and 3 of position 10 and closed exactly on 2, 4 and 5 |
| ClosureFrames.LockFrameSays | apps/api/src/parallax.rs:595-621 | with distinct positions a lock is locked exactly on state 1 and unlocked exactly on 2 and 3 |
| ClosureFrames.ClosureNoteIff | apps/api/src/parallax.rs:530-594 | which closure entries are noted, told by their positions and states |
| ClosureFrames.LockNoteIff | apps/api/src/parallax.rs:595-621 | which lock entries are noted, told by their positions and states |
| ClosureFrames.EntryOrderIsIrrelevant | apps/api/src/parallax.rs:530-621 | with distinct positions, permuting the entries gives the same event |
| ClosureFrames.MovementsAreNotClosed | apps/api/src/parallax.rs:565-592 | with distinct positions every recorded transition names a field decoded as not closed |
| ClosureFrames.ClosureFramesAreUnambiguous | apps/api/src/parallax.rs:530-594 | closure frames with distinct positions do not depend on entry order |
| ClosureFrames.LockFramesAreUnambiguous | apps/api/src/parallax.rs:595-621 | nor do lock frames |
| ClosureFrames.MovementIsStaleIff | apps/api/src/parallax.rs:565-592 | in any frame a transition is on a field that ends up closed exactly when some entry moves it and the last entry about it says closed |
| ClosureFrames.RepeatedPositionLeavesStaleMovement | apps/api/src/parallax.rs:565-592 | a two-entry frame that does so |
| ParallaxRegisters.RegisterHoldsLatest | apps/api/src/parallax.rs:1625-1634 | after any deliveries a register holds an update with the greatest time, the last delivered of those |
| ParallaxRegisters.DeliveryOrderIsIrrelevant | apps/api/src/parallax.rs:1625-1634 | from any register content, all delivery orders give the same register when the updates with the greatest time are the same update |
| ParallaxRegisters.OrderIsIrrelevantIff | apps/api/src/parallax.rs:192-201 | no two delivery orders differ if and only if the updates with the greatest time are the same update |
| ParallaxRegisters.DistinctTimesAgree | apps/api/src/parallax.rs:192-201 | which distinct times guarantee |
| ParallaxRegisters.BatchIsItsLatest | apps/api/src/parallax.rs:1698-1702 | applying only the latest of a batch is applying the whole batch |
| ParallaxRegisters.LatestPower | apps/api/src/parallax.rs:1665-1685 | the loop over graph points finds what delivering every plausible point would leave, a point no other is later than |
| ParallaxRegisters.GraphFrameIsItsPointsIff | apps/api/src/parallax.rs:1665-1702 | a graph frame acts on the power register like its points inside the session delivered one by one if and only if its latest plausible point is inside, or none is, or those inside would change nothing |
| ParallaxRegisters.InsideKeepsLatest | apps/api/src/parallax.rs:1665-1702 | leaving points out keeps the latest one unless it is left out itself |
| ParallaxRegisters.LatestOutsideHidesInside | apps/api/src/parallax.rs:1691-1702 | a two-point frame whose point inside the session is lost |
| ParallaxRegisters.CollectOfPermutation | apps/api/src/parallax.rs:1625-1702 | reordering frames only reorders the register updates they deliver |
| ParallaxRegisters.RegisterConverges | apps/api/src/parallax.rs:1625-1756 | two rows that received the same frames in any orders hold equal registers where the latest updates agree |
| ParallaxRegisters.RegistersConvergeIff | apps/api/src/parallax.rs:1625-1756 | for each of the five registers of a row, frames of any sessions in any context: no order of the frames shows if and only if the latest updates agree, although breakdown and graph frames both feed the power register |
| ParallaxRegisters.EqualTimesShowTheOrder | apps/api/src/parallax.rs:192-201 | any two different updates with one time are enough for the order to show |
| ParallaxRegisters.Session.UpdatePower | apps/api/src/parallax.rs:192-201 | the guarded update replaces the register exactly by an update that is not older |
| ParallaxRegisters.Session.ReceiveGraph | apps/api/src/parallax.rs:1657-1702 | a graph frame updates power by its latest plausible point when that lies in the session |
| ParallaxRegisters.Session.ReceiveFrame | apps/api/src/parallax.rs:1625-1756 | each frame applies exactly its own updates to each of the five registers |
| ParallaxRegisters.Session.Receive | apps/api/src/parallax.rs:1625-1756 | the registers always are the fold of all updates of all received frames |
| ParallaxRegisters.BreakdownPowerIff | apps/api/src/parallax.rs:1595-1640 | a breakdown frame updates power exactly with its own plausible power, or the fallback where it has none, inside the open active session |
| ParallaxRegisters.GraphPowerIff | apps/api/src/parallax.rs:1657-1702 | a graph frame updates power exactly with its latest plausible point, the last of several, if that lies inside the session |
| ParallaxRegisters.EnergyIff | apps/api/src/parallax.rs:1595-1634 | energy is updated exactly with a total that is not negative |
| ParallaxRegisters.PackIff | apps/api/src/parallax.rs:1641-1656 | pack energy is updated exactly with a value between 0 and 500 |
| ParallaxRegisters.TimeIff | apps/api/src/parallax.rs:1703-1735 | the remaining time is kept in minutes, rounded up, exactly when it is between nothing and two days |
| ParallaxRegisters.StatusIff | apps/api/src/parallax.rs:1736-1756 | the status text is taken from status frames alone |
| Dashboards.ClampIsNearest | packages/dashboards/src/layout.ts:55-58 | the clamped number is the allowed integer closest to the input |
| Dashboards.SanitizeLayoutIsIdempotent | packages/dashboards/src/layout.ts:35-53 | sanitizing a layout twice is sanitizing it once, for all bounds |
| Dashboards.SanitizeIsIdempotent | packages/dashboards/src/layout.ts:15-33 | the same for widgets of any definition, fixed or not |
| Dashboards.SanitizedRespectsSizes | packages/dashboards/src/layout.ts:15-53 | a fixed widget gets its default size cut to the grid; any other lies between its bounds whenever some layout does |
| Dashboards.SanitizeKeepsGoodLayouts | packages/dashboards/src/layout.ts:35-53 | a layout that meets schema, bounds and grid is left as it is |
| Dashboards.UnregisteredKeepsItsLayout | packages/dashboards/src/layout.ts:15-53 | a widget without a definition may have any size that fits the grid |
| Dashboards.SanitizedFitsGrid | packages/dashboards/src/layout.ts:35-53 | x is not negative and x plus w is at most twelve, for every input |
| Dashboards.SanitizedMeetsSchemaIff | packages/dashboards/src/layout.ts:35-53 | a sanitized layout meets the schema except for a vertical position beyond the safe integers |
| Dashboards.ClearingWorksIff | packages/dashboards/src/dashboardVisibility.ts:103-119 | after clearing, a widget is shown in a state exactly when it has no legacy option or that option names the state |
| Dashboards.SettingDecides | packages/dashboards/src/dashboardVisibility.ts:103-119 | after setting a value the widget is shown exactly in that state |
| Dashboards.VisibleIff | packages/dashboards/src/dashboardVisibility.ts:60-101 | typed rules decide where there are any, then the legacy option, and without either a widget is always shown |
| Dashboards.MigrationKeepsVisibility | packages/dashboards/src/dashboardVisibility.ts:121-135 | the legacy migration keeps visibility in every state and removes the legacy option |
| Dashboards.TripStatKeepsVisibility | packages/dashboards/src/api.ts:75-116 | converting a legacy trip statistic keeps visibility, id and layout |
| Dashboards.TripStatBecomesSensor | packages/dashboards/src/api.ts:61-116 | a convertible trip statistic becomes a known trip sensor named by its metric option, an explicit metric wins over the statistic, and unrelated options stay |
| Dashboards.ConvertsIff | packages/dashboards/src/api.ts:61-116 | which statistics convert, told by the names in their options |
| Dashboards.StatisticNamesItsSensor | packages/dashboards/src/api.ts:61-66 | each of the four statistics becomes its own sensor |
| Dashboards.SensorAggregates | packages/dashboards/src/api.ts:94-112 | distances and counts are summed, durations averaged, efficiencies as the widget said |
| Dashboards.NormalizeIsWidgetwise | packages/dashboards/src/api.ts:26-147 | loading fails exactly on a widget outside the schema or with an inherited statistic name, and otherwise maps every widget on its own |
| Dashboards.MigrationSettles | packages/dashboards/src/api.ts:53-116 | migrated widgets are fixpoints of both migrations |
| Dashboards.HeightSettles | packages/dashboards/src/api.ts:121-147 | the breakdown height pass has no effect on a sanitized widget once it is sanitized again |
| Dashboards.BreakdownHeightIsNearest | packages/dashboards/src/api.ts:118-147 | the height of a breakdown is the one between 1 and 20 closest to what it asks for, and 20 for no number |
| Dashboards.NormalizedIsFixpoint | packages/dashboards/src/api.ts:26-147 | every loaded widget is a fixpoint of loading |
| Dashboards.NormalizedLoads | packages/dashboards/src/api.ts:26-51 | every loaded widget can be loaded again |
| Dashboards.NormalizedKeepsVisibility | packages/dashboards/src/api.ts:26-147 | loading keeps each widget's id and its visibility in every state |
| Dashboards.NormalizeIsIdempotent | packages/dashboards/src/api.ts:26-51 | loading what was loaded changes nothing |
| Dashboards.NormalizeKeepsVisibleIds | packages/dashboards/src/dashboardModel.ts:116-143 | in every connection state the view shows the same widget ids in the same order before and after loading |
| Dashboards.NormalizedConfigFitsGrid | packages/dashboards/src/dashboardModel.ts:116-143 | every loaded widget, and every row as widened for the view, ends within twelve columns |
| Dashboards.ClearingWorksAfterLoading | packages/dashboards/src/dashboardVisibility.ts:103-135 | on loaded widgets clearing the rule shows the widget in every state |
| Dashboards.ApplyingTwiceChangesNothing | packages/dashboards/src/dashboardModel.ts:92-114 | applying the same layout patch again hands back the very same list |
| Dashboards.ApplyTouchesLayoutsOnly | packages/dashboards/src/dashboardModel.ts:92-114 | a patch changes nothing but layouts, only of widgets it names, and leaves those sanitized and inside the grid |
| Dashboards.PossiblePatchIsCarriedOut | packages/dashboards/src/dashboardModel.ts:92-114 | a patch that is possible for its widget sets x, y, w and h each to its own number |
| Dashboards.LastPatchCounts | packages/dashboards/src/dashboardModel.ts:96 | of several patches with one id the last one counts |
| Dashboards.MixFillsTheRow | packages/dashboards/src/dashboardModel.ts:127-143 | unplugged, the two shares of the charging mix stand side by side and fill the row |
| ThemeJson.QuotesAreUnambiguous | packages/themes/src/index.ts:136 | quoted strings with anything behind them are equal only if string and rest are |
| ThemeJson.EscapesReadBack | packages/themes/src/index.ts:136 | reading an escaped string by the table of RFC 8259, section 7, gives the string back |
| ThemeJson.EscapesOnlyWhatItMust | packages/themes/src/index.ts:136 | exactly control characters, quote, backslash and unpaired surrogates are escaped |
| JsonNumbers.NumberTextIsInjective | packages/themes/src/index.ts:136 | different finite numbers, in plain, pointed, fractional or exponent form, are printed differently |
| JsonNumbers.UnsignedDenotes | packages/themes/src/index.ts:136 | the text is a number of RFC 8259, section 6, with the value it stands for |
| JsonNumbers.NumbersAreUnambiguous | packages/themes/src/index.ts:136 | a printed number before punctuation determines the number and the rest |
| ThemeJson.PrintIsUnambiguous | packages/themes/src/index.ts:136 | equal texts come from equal trees with any finite numbers, also inside larger texts |
| ThemeJson.PrintedExample | packages/themes/src/index.ts:136 | the text of one object, written out |
| CanonicalTheme.KeyLeqIff | packages/themes/src/index.ts:136 | keys are ordered by the first code unit in which they differ, prefixes first |
| CanonicalTheme.SortKeepsElements | packages/themes/src/index.ts:136 | sorting keys is a permutation |
| CanonicalTheme.SortSorts | packages/themes/src/index.ts:136 | and orders the keys by code units |
| CanonicalTheme.SortedIsUnique | packages/themes/src/index.ts:136 | with distinct keys there is one sorted order |
| CanonicalTheme.StableIsPrintedCanon | packages/themes/src/index.ts:136 | the stable text is the plain text of the tree with all keys sorted |
| CanonicalTheme.EquivalentHaveSameCanon | packages/themes/src/index.ts:136 | trees equal up to key order have one sorted tree |
| CanonicalTheme.SameCanonAreEquivalent | packages/themes/src/index.ts:136 | and only those |
| CanonicalTheme.StableTextDecidesEquivalence | packages/themes/src/index.ts:136 | two trees get the same stable text if and only if they are equal up to key order at every depth |
| ThemeHash.ThemeHash | packages/themes/src/index.ts:137 | the loop over code points computes the folded hash of the stripped stable text in eight hexadecimal digits |
| ThemeHash.HashOfLetterA | packages/themes/src/index.ts:137 | the published 32-bit FNV-1a value of one letter |
| ThemeHash.ReorderedDefinitionsHashAlike | packages/themes/src/index.ts:137 | definitions equal up to key order have equal hashes |
| ThemeHash.StripRemovesStoredHash | packages/themes/src/index.ts:137 | where the pattern first matches it removes exactly the stored hash and one following comma |
| ThemeHash.StripInFront | packages/themes/src/index.ts:137 | a match before the stored hash is what gets removed, and the stored hash stays |
| ThemeHash.StoredHashIsIgnored | packages/themes/src/index.ts:137 | without an earlier match, texts that differ in that value alone hash alike |
| ThemeHash.StoredHashIsSeen | packages/themes/src/index.ts:137 | with one, a change of one stored digit changes the hash |
| ThemeHash.TextsShareTheirFrame | packages/themes/src/index.ts:136 | whatever is stored as hash, the stable text is one fixed front, the key, the stored value and one fixed back, wherever the key sorts |
| ThemeHash.StoredHashDoesNotMatterIff | packages/themes/src/index.ts:136-137 | the hash of a definition is the same for every stored hash (null or a string without quotes) if and only if the pattern finds nothing in the members that sort before it |
| ThemeHash.SpreadIsInjective | packages/themes/src/index.ts:137 | multiplying by the prime modulo 2 to the 32 loses nothing |
| ThemeHash.OneUnitChangeIsDetected | packages/themes/src/index.ts:137 | changing one hashed code unit always changes the hash |
| ThemeHash.HexIsInjective | packages/themes/src/index.ts:137 | the padded digits determine all 32 bits |
| ThemeHash.CodePointChangeIsDetectedIff | packages/themes/src/index.ts:137 | replacing one code point of the hashed text by another changes the hash text if and only if their first code units differ |
| ThemeHash.LeadsAround | packages/themes/src/index.ts:137 | around a code point only its first unit is hashed, whatever stands before and behind |
| ThemeHash.SomeDefinitionsCollide | packages/themes/src/index.ts:137 | two different trees with one hash |

## Left out

- Sockets, HTTP, processes, SQL execution, file copying, object storage, keys and encryption; only the catalog, journal, directory and table states they change are kept.
- restore_jobs, restore_compatibility, backups, trip_detector, trip_signals and supervisor are not part of this model; the job record is an atomic store and candidate preparation succeeds or fails as a whole.
- A psql child that goes on running after its deadline: in the model a timed-out script either committed or never will.
- Several restore jobs interleaved, the advisory lock and the marker file of the restore agent.
- Artwork of the host commands: its activation is a step that can fail, without directories.
- RestoreAgent.Agent.RecoverPrevious: with a probe that reads an error as absence nothing is promised beyond safety, because the code then skips the recovery.
- HostRestore.Host.HostRollback: its promise about the live contents needs a truthful probe, for the same reason.
- The query that builds the stored snapshot of an open session approximates the detector's state; the restart lemmas are about the detector's own state.
- ChargeDetector.Detector.TakeReadings: latitude and longitude are one pair, present or absent together.
- Average charge rate at most peak is not claimed: the duration is truncated to whole seconds.
- Migration commands at the same time; in the model one follows the other, although the two programs hold different locks.
- Migrations marked to run outside a transaction, and failing migrations; a failed one rolls back and equals a cut.
- PayloadCompaction.KeysSurvive: payload ids are taken as unique although the table's index is on id and time, and the identity key digest as free of collisions.
- StatePeriods.RebuildVehicle: unique constraints on stored periods are not modelled, so ON CONFLICT DO NOTHING never drops one; rows arrive in time order.
- The later parts of the charge-session repair queries (costs, locations, summary metadata).
- Wire decoding; frames start as lists of optional positions and states.
- The collector lease and its mutual exclusion.
- Dashboards.NormalizeDashboardConfig: starts from the merged record; guid and name checks and the merging of record and configuration are left out, and a configuration is id, slug, name and widgets.
- Dashboards.SanitizeWidget: a fixed-size widget's bounds are written as its default size, which is what its layout has been set to by then; registered sizes are integers.
- The query cache, React components, charts, colour tables and artwork images.
- ThemeJson.Print: numbers that are not finite, undefined values, functions and toJSON do not occur, as in theme definitions; a number stands for its shortest decimal.
- ThemeHash.CodePointChangeIsDetectedIff: a change that makes or breaks a surrogate pair changes how many units are hashed, and nothing is claimed about it.

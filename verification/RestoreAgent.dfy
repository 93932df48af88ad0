/**
 * One restore job of apps/api/src/bin/riviamigo-restore-agent.rs: the attempt
 * itself, its rollback, and the recovery that runs when the agent restarts.
 *
 * Every external step consumes one entry of a fault schedule, so a theorem
 * about an arbitrary schedule is a theorem about every failure, timeout and
 * crash between any two steps. Every durable write appends a snapshot to a
 * ghost trace, which is a run of durable steps at all times; what holds of
 * every snapshot holds in every state a crash can expose.
 */
module RestoreAgent {
  import opened Common
  import opened DatabaseCatalog
  import opened Faults
  import opened RestoreProtocol

  /** The journal of a job the API has accepted. */
  function Accepted(retryable: bool): Journal {
    Journal(PreparingCandidate, retryable, 0, NotRequired, None, None)
  }

  ghost function Initial(env: Setting, databases: Catalog, retryable: bool): Snapshot {
    Snapshot(databases, Accepted(retryable), true, false, env.originalArtwork, None, false, false, false)
  }

  /** The candidate is live and the old live database is parked. */
  ghost predicate Activated(env: Setting, databases: Catalog, journal: Journal, replaced: Contents) {
    && Live in databases && databases[Live] == Package(env.job)
    && Previous(env.job) in databases && databases[Previous(env.job)] == replaced
    && Candidate(env.job) !in databases
    && journal.candidate == Some(Candidate(env.job))
    && journal.previous == Some(Previous(env.job))
  }

  /** The process dies right after the effect of the step that follows `steps` calm ones. */
  ghost predicate CrashesAfter(env: Setting, from: nat, steps: nat) {
    Flawless(env.weather, from, from + steps, from + steps) && env.weather(from + steps) == CrashAfter
  }

  /** Steps of a candidate that is built: a stale one is dropped first. */
  ghost function BuildSteps(env: Setting, before: Catalog): nat {
    if Candidate(env.job) in before then 4 else 3
  }

  /** Installed artwork takes one more rename. */
  ghost function InstallSteps(installed: Option<Artwork>): (steps: nat)
    ensures 3 <= steps <= 4
  {
    if installed.Some? then 4 else 3
  }

  /** Nothing fails before the swap but perhaps the probe, the package is intact and the plan holds. */
  ghost predicate Prepared(env: Setting, from: nat, before: Snapshot) {
    && Flawless(env.weather, from, from + 13 + BuildSteps(env, before.databases), from + 1)
    && before.package && env.packageIntact(before.journal.automaticRetries)
    && env.planHolds(before.journal.automaticRetries)
  }

  /** No step of an activation begun at `from` fails, up to its health check; the fifth is a probe. */
  ghost predicate FlawlessActivation(env: Setting, from: nat, artworkBefore: Option<Artwork>) {
    Flawless(env.weather, from, from + 7 + InstallSteps(artworkBefore), from + 4)
  }

  /** The same for a whole attempt with its swap. */
  ghost predicate FlawlessAttempt(env: Setting, from: nat, before: Snapshot) {
    var swap := from + 13 + BuildSteps(env, before.databases);
    Prepared(env, from, before) && env.weather(swap) == Calm && FlawlessActivation(env, swap + 1, before.artwork)
  }

  /** Step `t` of an activation begun at `from` is not its probe, and nothing else fails before or soon after. */
  ghost predicate OnlyFault(env: Setting, from: nat, t: nat, artworkBefore: Option<Artwork>) {
    && from <= t < from + 7 + InstallSteps(artworkBefore) && t != from + 4
    && Flawless(env.weather, from, t + 14, t)
  }

  /** An activation that stops at its first fault stops right behind its only one. */
  lemma StopsBehindOnlyFault(env: Setting, clock: nat, from: nat, t: nat, artwork: Option<Artwork>, r: Outcome)
    requires OnlyFault(env, from, t, artwork) && Erring(env.weather, t)
    requires env.weather(from + 4) == Calm ==> StopsAtFirstFault(env.weather, clock, from, 7 + InstallSteps(artwork), r)
    ensures env.weather(from + 4) == Calm && clock == t + 1 && r.Err?
    ensures forall u :: clock <= u < clock + 13 ==> env.weather(u) == Calm
  {
    assert env.weather(t) != Calm;
  }

  /** The package was changed or the candidate does not match its plan. */
  ghost predicate Rejects(env: Setting, before: Snapshot) {
    var attempt := before.journal.automaticRetries;
    before.package && !(env.packageIntact(attempt) && env.planHolds(attempt))
  }

  class Agent {
    const env: Setting
    ghost const initial: Snapshot
    var clock: nat
    var databases: Catalog
    var journal: Journal
    var package: bool
    var staged: bool
    var artwork: Option<Artwork>
    var parked: Option<Artwork>
    ghost var verified: bool
    ghost var dropped: bool
    ghost var discarded: bool
    ghost var trace: seq<Snapshot>

    ghost function Now(): Snapshot
      reads this
    {
      Snapshot(databases, journal, package, staged, artwork, parked, verified, dropped, discarded)
    }

    /** The trace is a run of good states from the accepted job to the present state. */
    ghost predicate Valid()
      reads this
    {
      Good(env, Now()) && IsRun(env, initial, trace, Now())
    }

    /** None of the next `steps` external steps fails. */
    ghost predicate CalmFor(steps: nat)
      reads this
    {
      forall t :: clock <= t < clock + steps ==> env.weather(t) == Calm
    }

    /** An attempt never starts over a parked database, unless a probe lied about it. */
    ghost predicate Ready()
      reads this
    {
      env.probesTruthful ==> Previous(env.job) !in databases
    }

    /** The attempt changed neither live data nor artwork, and gave nothing up. */
    ghost predicate Untouched(before: Snapshot)
      reads this
    {
      && Live in databases && Live in before.databases
      && databases[Live] == before.databases[Live]
      && artwork == before.artwork && parked == before.parked
      && dropped == before.dropped && discarded == before.discarded
      && !verified
    }

    /** Cut in an unverified attempt that had reached `phase`. */
    ghost predicate CutIn(phase: Phase, replaced: Contents, before: Snapshot)
      reads this
    {
      && Activated(env, databases, journal, replaced) && staged && journal.phase == phase
      && journal.retryable == before.journal.retryable && package == before.package
      && !verified && dropped == before.dropped && discarded == before.discarded
    }

    constructor (env: Setting, databases: Catalog, retryable: bool)
      requires Live in databases && databases[Live] == Original
      requires Candidate(env.job) !in databases && Previous(env.job) !in databases
      requires env.bystanders == databases - {Live}
      ensures Valid() && Ready()
      ensures this.env == env && Now() == initial == Initial(env, databases, retryable)
      ensures clock == 0
    {
      this.env := env;
      this.clock := 0;
      this.databases := databases;
      this.journal := Accepted(retryable);
      this.package, this.staged := true, false;
      this.artwork := env.originalArtwork;
      this.parked := None;
      this.verified, this.dropped, this.discarded := false, false, false;
      this.initial := Initial(env, databases, retryable);
      this.trace := [Initial(env, databases, retryable)];
      assert databases - {Live, Candidate(env.job), Previous(env.job)} == databases - {Live};
    }

    // ---- External steps -------------------------------------------------

    /** Appends the present state to the trace. */
    ghost method Record(before: Snapshot)
      requires IsRun(env, initial, trace, before) && Good(env, Now()) && DurableStep(env, before, Now())
      modifies this`trace
      ensures Valid() && trace == old(trace) + [Now()]
    {
      RunGrows(env, initial, trace, before, Now());
      trace := trace + [Now()];
    }

    /** A step that changes none of the durable state: reads, probes, copies, waits. */
    method Aside() returns (r: Outcome)
      modifies this`clock
      ensures old(Valid()) ==> Valid()
      ensures clock == old(clock) + 1
      ensures r == Report(env.weather(old(clock)))
    {
      hide Good, IsRun;
      r := Report(env.weather(clock));
      clock := clock + 1;
    }

    method WriteJournal(entry: Journal) returns (r: Outcome)
      requires Valid()
      requires Good(env, Now().(journal := entry)) && WritesJournal(env, Now(), Now().(journal := entry))
      modifies this`clock, this`journal, this`trace
      ensures Valid()
      ensures clock == old(clock) + 1
      ensures journal == if Happens(env.weather(old(clock))) then entry else old(journal)
      ensures r == Report(env.weather(old(clock)))
      ensures trace == old(trace) + [Now()]
    {
      hide Good, IsRun, WritesJournal, RunsScript, MovesDirectory;
      ghost var before := Now();
      if Happens(env.weather(clock)) {
        journal := entry;
      }
      r := Report(env.weather(clock));
      clock := clock + 1;
      Record(before);
    }

    method SetStaged(present: bool) returns (r: Outcome)
      requires Valid() && Good(env, Now().(staged := present))
      modifies this`clock, this`staged, this`trace
      ensures Valid()
      ensures clock == old(clock) + 1
      ensures staged == if Happens(env.weather(old(clock))) then present else old(staged)
      ensures r == Report(env.weather(old(clock)))
      ensures trace == old(trace) + [Now()]
    {
      hide Good, IsRun, WritesJournal, RunsScript, MovesDirectory;
      ghost var before := Now();
      if Happens(env.weather(clock)) {
        staged := present;
      }
      r := Report(env.weather(clock));
      clock := clock + 1;
      Record(before);
    }

    /** Runs one script; `script` is the catalog it commits, or None when it aborts. */
    method RunScript(script: Option<Catalog>) returns (r: Outcome)
      requires Valid()
      requires script.Some? ==>
                 Good(env, Now().(databases := script.value)) && CommitsScript(env, Now(), script.value)
      modifies this`clock, this`databases, this`trace
      ensures Valid()
      ensures clock == old(clock) + 1
      ensures databases == if Happens(env.weather(old(clock))) && script.Some? then script.value else old(databases)
      ensures r == TryReport(env.weather(old(clock)), script.Some?)
      ensures trace == old(trace) + [Now()]
    {
      hide Good, IsRun, WritesJournal, MovesDirectory, CommitsScript;
      ghost var before := Now();
      var fault := env.weather(clock);
      if Happens(fault) && script.Some? {
        databases := script.value;
      }
      r := TryReport(fault, script.Some?);
      clock := clock + 1;
      Record(before);
    }

    /** drop_database on the previous database, which a verified attempt gives up. */
    method DropPrevious() returns (r: Outcome)
      requires Valid() && verified
      modifies this`clock, this`databases, this`dropped, this`trace
      ensures Valid()
      ensures clock == old(clock) + 1
      ensures Live in databases && Live in old(databases) && databases[Live] == old(databases)[Live]
      ensures databases == if Happens(env.weather(old(clock))) then Drop(old(databases), Previous(env.job))
                           else old(databases)
      ensures dropped == (old(dropped) || Happens(env.weather(old(clock))))
      ensures r == Report(env.weather(old(clock)))
      ensures trace == old(trace) + [Now()]
    {
      hide IsRun, WritesJournal, MovesDirectory;
      ghost var before := Now();
      DropIsGood(env, before);
      if Happens(env.weather(clock)) {
        databases := Drop(databases, Previous(env.job));
        dropped := true;
      }
      r := Report(env.weather(clock));
      clock := clock + 1;
      Record(before);
    }

    /** `database_exists(..).unwrap_or(false)` and `try_exists(..).unwrap_or(false)`. */
    method ProbeOrFalse(present: bool) returns (r: Outcome, exists_: bool)
      modifies this`clock
      ensures old(Valid()) ==> Valid()
      ensures clock == old(clock) + 1
      ensures r == ProbeReport(env.weather(old(clock)))
      ensures exists_ == ProbeAnswer(env.weather(old(clock)), env.probesTruthful, present)
    {
      hide Good, IsRun;
      r := ProbeReport(env.weather(clock));
      exists_ := ProbeAnswer(env.weather(clock), env.probesTruthful, present);
      clock := clock + 1;
    }

    /** cleanup_remote_staging: removes the package file if it was downloaded for the job. */
    method RemovePackage() returns (r: Outcome)
      requires Valid()
      modifies this`clock, this`package, this`trace
      ensures Valid()
      ensures clock == old(clock) + 1
      ensures package == (old(package) && !(env.remote && Happens(env.weather(old(clock)))))
      ensures r == Report(env.weather(old(clock)))
      ensures trace == old(trace) + [Now()]
    {
      hide IsRun, WritesJournal, RunsScript, MovesDirectory;
      ghost var before := Now();
      if env.remote && Happens(env.weather(clock)) {
        package := false;
      }
      r := Report(env.weather(clock));
      clock := clock + 1;
      Record(before);
    }

    /** A directory rename, copy or removal under the artwork directory's parent. */
    method MoveArtwork(installed: Option<Artwork>, aside: Option<Artwork>, possible: bool) returns (r: Outcome)
      requires Valid()
      requires possible ==>
                 Good(env, Now().(artwork := installed, parked := aside)) && MovesArtwork(Now(), installed, aside)
      modifies this`clock, this`artwork, this`parked, this`trace
      ensures Valid()
      ensures clock == old(clock) + 1
      ensures (artwork, parked) ==
              if Happens(env.weather(old(clock))) && possible then (installed, aside) else (old(artwork), old(parked))
      ensures r == TryReport(env.weather(old(clock)), possible)
      ensures trace == old(trace) + [Now()]
    {
      hide Good, IsRun, WritesJournal, RunsScript, MovesArtwork;
      ghost var before := Now();
      var fault := env.weather(clock);
      if Happens(fault) && possible {
        artwork, parked := installed, aside;
      }
      r := TryReport(fault, possible);
      clock := clock + 1;
      Record(before);
    }

    /** finalize_artwork: a verified attempt gives up the parked artwork. */
    method DiscardParked() returns (r: Outcome)
      requires Valid() && verified
      modifies this`clock, this`parked, this`discarded, this`trace
      ensures Valid()
      ensures clock == old(clock) + 1
      ensures parked == if Happens(env.weather(old(clock))) then None else old(parked)
      ensures discarded == (old(discarded) || Happens(env.weather(old(clock))))
      ensures r == Report(env.weather(old(clock)))
      ensures trace == old(trace) + [Now()]
    {
      hide IsRun, WritesJournal, RunsScript;
      ghost var before := Now();
      if Happens(env.weather(clock)) {
        parked := None;
        discarded := true;
      }
      r := Report(env.weather(clock));
      clock := clock + 1;
      Record(before);
    }

    // ---- Candidate preparation ------------------------------------------

    ghost predicate OnlyCandidateDiffers(before: Catalog)
      reads this
    {
      && databases - {Candidate(env.job)} == before - {Candidate(env.job)}
      && Live in before && Live in databases && databases[Live] == before[Live]
      && (Previous(env.job) in databases <==> Previous(env.job) in before)
    }

    /** A script on the candidate alone; None when it would abort. */
    method CandidateScript(script: Option<Catalog>) returns (r: Outcome)
      requires Valid() && Ready()
      requires script.Some? ==> script.value - {Candidate(env.job)} == databases - {Candidate(env.job)}
      modifies this`clock, this`databases, this`trace
      ensures Valid() && Ready() && OnlyCandidateDiffers(old(databases))
      ensures trace == old(trace) + [Now()]
      ensures r.Ok? ==> script.Some? && databases == script.value
      ensures r == TryReport(env.weather(old(clock)), script.Some?)
      ensures clock == old(clock) + 1
    {
      assert Live in databases;
      if script.Some? {
        CandidateStepIsGood(env, Now(), script.value);
      }
      r := RunScript(script);
    }

    /** prepare_restore_database: a fresh candidate holding the package. */
    method PrepareRestoreDatabase() returns (r: Outcome)
      requires Valid() && Ready()
      modifies this`clock, this`databases, this`trace
      ensures Valid() && Ready() && old(trace) <= trace && old(clock) < clock
      ensures OnlyCandidateDiffers(old(databases))
      ensures r.Ok? ==> Candidate(env.job) in databases && databases[Candidate(env.job)] == Package(env.job)
      ensures old(CalmFor(BuildSteps(env, databases))) ==> r.Ok?
      ensures r.Ok? ==>
                && clock == old(clock) + BuildSteps(env, old(databases))
                && Flawless(env.weather, old(clock), clock, clock)
    {
      hide Good, IsRun;
      LiveAlwaysExists(env, Now());
      var candidate := Candidate(env.job);
      :- Aside();
      if candidate in databases {
        :- CandidateScript(Some(Drop(databases, candidate)));
      }
      r := LoadCandidate();
    }

    /** Create the candidate and load the package; a failed load is dropped again. */
    method LoadCandidate() returns (r: Outcome)
      requires Valid() && Ready()
      modifies this`clock, this`databases, this`trace
      ensures Valid() && Ready() && old(trace) <= trace && old(clock) < clock
      ensures OnlyCandidateDiffers(old(databases))
      ensures r.Ok? ==> Candidate(env.job) in databases && databases[Candidate(env.job)] == Package(env.job)
      ensures old(CalmFor(2)) && Candidate(env.job) !in old(databases) ==> r.Ok?
      ensures r.Ok? ==> clock == old(clock) + 2 && Flawless(env.weather, old(clock), clock, clock)
    {
      hide Good, IsRun;
      r := Ok;
      LiveAlwaysExists(env, Now());
      var candidate := Candidate(env.job);
      :- CandidateScript(if candidate in databases then None else Some(databases[candidate := Blank]));
      r := CandidateScript(Some(databases[candidate := Package(env.job)]));
      if r.Err? {
        var gone := CandidateScript(Some(Drop(databases, candidate)));
        r := if gone.Cut() then gone else Err;
      }
    }

    /** A journal entry written before the swap: names may be added, never lost. */
    method Enter(entry: Journal) returns (r: Outcome)
      requires Valid() && Ready()
      requires entry.automaticRetries == journal.automaticRetries
      requires entry.candidate == journal.candidate || entry.candidate == Some(Candidate(env.job))
      requires entry.previous == journal.previous || entry.previous == Some(Previous(env.job))
      modifies this`clock, this`journal, this`trace
      ensures Valid() && Ready()
      ensures clock == old(clock) + 1 && trace == old(trace) + [Now()]
      ensures journal == entry || journal == old(journal)
      ensures r.Ok? ==> journal == entry
      ensures r == Report(env.weather(old(clock)))
    {
      hide IsRun;
      r := WriteJournal(entry);
    }

    /** A fresh staging directory with a copied, validated and extracted package. */
    method StagePackage() returns (r: Outcome)
      requires Valid() && Ready()
      modifies this`clock, this`journal, this`staged, this`trace
      ensures Valid() && Ready() && old(trace) <= trace && old(clock) < clock
      ensures journal.automaticRetries == old(journal.automaticRetries)
      ensures r.Ok? ==> package && staged && journal == old(journal).(phase := PreparingCandidate)
      ensures old(CalmFor(7)) ==>
                if package && env.packageIntact(old(journal.automaticRetries)) then r.Ok?
                else r.Err? && clock <= old(clock) + 5 && (package ==> !journal.retryable)
      ensures r.Ok? ==>
                && env.packageIntact(old(journal.automaticRetries))
                && clock == old(clock) + 7 && Flawless(env.weather, old(clock), clock, old(clock) + 1)
    {
      hide Good, IsRun;
      r := Ok;
      :- Aside();
      var stale;
      r, stale := ProbeOrFalse(staged);
      if r.Ok? {
        StagingIsGood(env, Now(), staged && !stale);
        :- SetStaged(staged && !stale);
        r := CopyPackage();
      }
    }

    /** A missing package fails the attempt; a changed one also closes the job to retries. */
    method CopyPackage() returns (r: Outcome)
      requires Valid() && Ready()
      modifies this`clock, this`journal, this`staged, this`trace
      ensures Valid() && Ready() && old(trace) <= trace && old(clock) < clock
      ensures journal.automaticRetries == old(journal.automaticRetries)
      ensures r.Ok? ==> package && staged && journal == old(journal).(phase := PreparingCandidate)
      ensures old(CalmFor(4)) ==>
                if package && env.packageIntact(old(journal.automaticRetries)) then r.Ok?
                else r.Err? && clock <= old(clock) + 2 && (package ==> !journal.retryable)
      ensures package && env.packageIntact(old(journal.automaticRetries)) ==>
                StopsAtFirstFault(env.weather, clock, old(clock), 4, r)
      ensures r.Ok? ==> env.packageIntact(old(journal.automaticRetries))
    {
      hide Good, IsRun;
      r := Ok;
      :- Aside();
      if !package {
        return Err;
      }
      if !env.packageIntact(journal.automaticRetries) {
        :- Enter(journal.(retryable := false));
        return Err;
      }
      r := ExtractPackage();
    }

    method ExtractPackage() returns (r: Outcome)
      requires Valid() && Ready()
      modifies this`clock, this`journal, this`staged, this`trace
      ensures Valid() && Ready() && old(trace) <= trace && old(clock) < clock
      ensures journal.automaticRetries == old(journal.automaticRetries)
      ensures r.Ok? ==> staged && journal == old(journal).(phase := PreparingCandidate)
      ensures StopsAtFirstFault(env.weather, clock, old(clock), 3, r)
    {
      hide Good, IsRun;
      r := Ok;
      :- Aside();
      StagingIsGood(env, Now(), true);
      :- SetStaged(true);
      r := Enter(journal.(phase := PreparingCandidate));
    }

    /** Ends an attempt whose candidate was rejected: no automatic retry follows. */
    method CloseToRetries() returns (r: Outcome)
      requires Valid() && Ready()
      modifies this`clock, this`journal, this`trace
      ensures Valid() && Ready() && old(trace) <= trace && old(clock) < clock && !r.Ok?
      ensures journal.automaticRetries == old(journal.automaticRetries)
      ensures old(CalmFor(2)) ==> r.Err? && clock == old(clock) + 2 && !journal.retryable
    {
      hide Good, IsRun;
      r := Ok;
      :- Aside();
      :- Enter(journal.(retryable := false));
      r := Err;
    }

    /** Build the candidate and compare it with the preflight plan. */
    method BuildCandidate() returns (r: Outcome)
      requires Valid() && Ready()
      modifies this`clock, this`databases, this`journal, this`trace
      ensures Valid() && Ready() && old(trace) <= trace && old(clock) < clock
      ensures OnlyCandidateDiffers(old(databases))
      ensures journal.automaticRetries == old(journal.automaticRetries)
      ensures r.Ok? ==>
                && Candidate(env.job) in databases && databases[Candidate(env.job)] == Package(env.job)
                && journal == old(journal)
      ensures old(CalmFor(7)) ==>
                && !r.Cut() && clock <= old(clock) + 7
                && (r.Ok? <==> env.planHolds(old(journal.automaticRetries)))
                && (!r.Ok? ==> !journal.retryable)
      ensures old(CalmFor(BuildSteps(env, databases))) && env.planHolds(old(journal.automaticRetries)) ==> r.Ok?
      ensures r.Ok? ==>
                && env.planHolds(old(journal.automaticRetries))
                && clock == old(clock) + BuildSteps(env, old(databases))
                && Flawless(env.weather, old(clock), clock, clock)
    {
      hide Good, IsRun;
      r := PrepareRestoreDatabase();
      if r.Ok? && !env.planHolds(journal.automaticRetries) {
        r := CandidateScript(Some(Drop(databases, Candidate(env.job))));
        if r.Cut() { return; }
        r := Err;
      }
      if r.Err? {
        r := CloseToRetries();
      }
    }

    /** Safety backup, checkpoint with both database names, then shutdown. */
    method CheckpointAndStop() returns (r: Outcome)
      requires Valid() && Ready()
      modifies this`clock, this`journal, this`trace
      ensures Valid() && Ready() && old(trace) <= trace && old(clock) < clock
      ensures journal.automaticRetries == old(journal.automaticRetries)
      ensures r.Ok? ==>
                journal == old(journal).(phase := SwappingDatabase, rollback := Available,
                                         candidate := Some(Candidate(env.job)), previous := Some(Previous(env.job)))
      ensures StopsAtFirstFault(env.weather, clock, old(clock), 6, r)
    {
      hide Good, IsRun;
      r := Checkpoint();
      if r.Ok? {
        r := StopApplication();
      }
    }

    /** Take the safety backup and name both databases in the journal. */
    method Checkpoint() returns (r: Outcome)
      requires Valid() && Ready()
      modifies this`clock, this`journal, this`trace
      ensures Valid() && Ready() && old(trace) <= trace && old(clock) < clock
      ensures journal.automaticRetries == old(journal.automaticRetries)
      ensures r.Ok? ==>
                journal == old(journal).(phase := SafetyBackup, rollback := Available,
                                         candidate := Some(Candidate(env.job)), previous := Some(Previous(env.job)))
      ensures StopsAtFirstFault(env.weather, clock, old(clock), 3, r)
    {
      hide Good, IsRun;
      r := Enter(journal.(phase := SafetyBackup));
      if r.Ok? {
        r := Aside();
        if r.Ok? {
          r := Enter(journal.(candidate := Some(Candidate(env.job)), previous := Some(Previous(env.job)),
                              rollback := Available));
        }
      }
    }

    method StopApplication() returns (r: Outcome)
      requires Valid() && Ready()
      modifies this`clock, this`journal, this`trace
      ensures Valid() && Ready() && old(trace) <= trace && old(clock) < clock
      ensures journal.automaticRetries == old(journal.automaticRetries)
      ensures r.Ok? ==> journal == old(journal).(phase := SwappingDatabase)
      ensures StopsAtFirstFault(env.weather, clock, old(clock), 3, r)
    {
      hide Good, IsRun;
      r := Enter(journal.(phase := StoppingApplication));
      if r.Ok? {
        r := Aside();
        if r.Ok? {
          r := Enter(journal.(phase := SwappingDatabase));
        }
      }
    }

    // ---- Activation and its rollback ------------------------------------

    /** rollback_databases, from an activation or from a restart. */
    method RollbackDatabases(previous: Database, failed: Database) returns (r: Outcome)
      requires Valid() && previous == Previous(env.job) && failed == Candidate(env.job)
      modifies this`clock, this`databases, this`trace
      ensures Valid() && clock == old(clock) + 1 && trace == old(trace) + [Now()]
      ensures Live in databases
      ensures databases == old(databases)
              || (Previous(env.job) in old(databases) && Previous(env.job) !in databases
                  && databases[Live] == old(databases)[Previous(env.job)])
      ensures r.Ok? ==> Previous(env.job) in old(databases) && Previous(env.job) !in databases
      ensures r.Ok? ==> Candidate(env.job) !in old(databases)
      ensures r == TryReport(env.weather(old(clock)),
                             Previous(env.job) in old(databases) && Candidate(env.job) !in old(databases))
    {
      hide IsRun;
      var script := RollbackScript(databases, previous, failed);
      if script.Some? {
        RollbackIsGood(env, Now());
      }
      r := RunScript(script);
    }

    /** rollback_artwork after a completed activation. */
    method RollbackArtwork() returns (r: Outcome)
      requires Valid()
      requires !discarded && env.originalArtwork.Some? ==> parked == env.originalArtwork
      modifies this`clock, this`artwork, this`parked, this`trace
      ensures Valid() && old(trace) <= trace && old(clock) <= clock
      ensures r.Ok? && env.probesTruthful ==> artwork == old(parked) && parked == None
      ensures old(CalmFor(4)) ==>
                r.Ok? && clock <= old(clock) + 4 && artwork == old(parked) && parked == None
    {
      hide Good, IsRun;
      var exists_;
      r, exists_ := ProbeOrFalse(artwork.Some?);
      if !r.Ok? { return; }
      if exists_ {
        ArtworkMoveIsGood(env, Now(), None, parked);
        :- MoveArtwork(None, parked, true);
      }
      r, exists_ := ProbeOrFalse(parked.Some?);
      if !r.Ok? { return; }
      if exists_ {
        ArtworkMoveIsGood(env, Now(), parked, None);
        :- MoveArtwork(parked, None, artwork.None?);
      }
      r := Ok;
    }

    /** activate_artwork: park what is installed, then install the package's artwork. */
    method ActivateArtwork() returns (r: Outcome)
      requires Valid()
      modifies this`clock, this`artwork, this`parked, this`trace
      ensures Valid() && old(trace) <= trace && old(clock) < clock <= old(clock) + 4
      ensures r.Ok? ==> artwork == Some(PackageArtwork)
                        && parked == (if old(artwork).Some? then old(artwork) else old(parked))
                        && CanInstallArtwork(old(artwork), old(parked))
      ensures !discarded && env.originalArtwork.Some? && r.Ok? ==> parked == env.originalArtwork
      ensures old(CalmFor(3)) && !CanInstallArtwork(old(artwork), old(parked)) ==>
                r.Err? && clock <= old(clock) + 3 && artwork == old(artwork) && parked == old(parked)
      ensures r.Ok? ==>
                && clock == old(clock) + InstallSteps(old(artwork))
                && Flawless(env.weather, old(clock), clock, old(clock) + 1)
      ensures CanInstallArtwork(old(artwork), old(parked)) && env.weather(old(clock) + 1) == Calm ==>
                StopsAtFirstFault(env.weather, clock, old(clock), InstallSteps(old(artwork)), r)
      ensures clock < old(clock) + 3 || (clock == old(clock) + 3 && !Happens(env.weather(old(clock) + 2))) ==>
                artwork == old(artwork) && parked == old(parked)
      ensures CrashesAfter(env, old(clock), 3) && old(artwork).Some? && old(parked).None? ==>
                && r.Crashed? && clock == old(clock) + 4
                && artwork == Some(PackageArtwork) && parked == old(artwork)
    {
      hide IsRun, Safe, WriteAhead, Recoverable;
      r := Aside();
      if r.Ok? {
        r := InstallArtwork();
      }
    }

    /** Park what is installed, if a probe finds any, and rename the copied package artwork into its place. */
    method InstallArtwork() returns (r: Outcome)
      requires Valid() && ArtworkKept(env, Now())
      modifies this`clock, this`artwork, this`parked, this`trace
      ensures Valid() && old(trace) <= trace && old(clock) < clock <= old(clock) + 3
      ensures r.Ok? ==>
                && artwork == Some(PackageArtwork)
                && parked == (if old(artwork).Some? then old(artwork) else old(parked))
                && CanInstallArtwork(old(artwork), old(parked))
                && clock == old(clock) + InstallSteps(old(artwork)) - 1
                && Flawless(env.weather, old(clock), clock, old(clock))
      ensures old(CalmFor(2)) && !CanInstallArtwork(old(artwork), old(parked)) ==> r.Err? && clock <= old(clock) + 2
      ensures !CanInstallArtwork(old(artwork), old(parked)) ==> artwork == old(artwork) && parked == old(parked)
      ensures CanInstallArtwork(old(artwork), old(parked)) && env.weather(old(clock)) == Calm ==>
                StopsAtFirstFault(env.weather, clock, old(clock), InstallSteps(old(artwork)) - 1, r)
      ensures clock < old(clock) + 2 || (clock == old(clock) + 2 && !Happens(env.weather(old(clock) + 1))) ==>
                artwork == old(artwork) && parked == old(parked)
      ensures r.Crashed? && clock == old(clock) + 3 && Happens(env.weather(old(clock) + 2)) && old(artwork).Some? ==>
                artwork == Some(PackageArtwork) && parked == old(artwork)
    {
      hide Good, IsRun;
      var installed;
      r, installed := ProbeOrFalse(artwork.Some?);
      if !r.Ok? { return; }
      if installed {
        if parked.None? { ArtworkMoveIsGood(env, Now(), None, artwork); }
        :- MoveArtwork(None, artwork, parked.None?);
      }
      if artwork.None? { ArtworkMoveIsGood(env, Now(), Some(PackageArtwork), parked); }
      r := MoveArtwork(Some(PackageArtwork), parked, artwork.None?);
    }

    /** swap_databases, with the journal already naming both databases. */
    method SwapDatabases() returns (r: Outcome)
      requires Valid() && Ready() && !verified
      requires Candidate(env.job) in databases && databases[Candidate(env.job)] == Package(env.job)
      requires journal.candidate == Some(Candidate(env.job)) && journal.previous == Some(Previous(env.job))
      requires journal.phase == SwappingDatabase && staged
      modifies this`clock, this`databases, this`trace
      ensures Valid() && clock == old(clock) + 1 && trace == old(trace) + [Now()]
      ensures Live in old(databases)
      ensures databases == old(databases) || Activated(env, databases, journal, old(databases)[Live])
      ensures r.Ok? ==> Activated(env, databases, journal, old(databases)[Live])
      ensures r.Ok? ==> env.weather(old(clock)) == Calm
      ensures Previous(env.job) !in old(databases) ==>
                && r == Report(env.weather(old(clock)))
                && (if Happens(env.weather(old(clock))) then Activated(env, databases, journal, old(databases)[Live])
                    else databases == old(databases))
    {
      hide IsRun;
      var script := SwapScript(databases, Candidate(env.job), Previous(env.job));
      SwapCommitsIff(databases, Candidate(env.job), Previous(env.job));
      r := RunScript(script);
    }

    /** A journal update between the swap and verification. */
    method Advance(phase: Phase, ghost replaced: Contents) returns (r: Outcome)
      requires Valid() && Activated(env, databases, journal, replaced)
      requires phase != Queued && phase != PreparingCandidate && phase != Completed
      modifies this`clock, this`journal, this`trace
      ensures Valid() && Activated(env, databases, journal, replaced)
      ensures clock == old(clock) + 1 && trace == old(trace) + [Now()]
      ensures journal == old(journal) || journal == old(journal).(phase := phase)
      ensures r.Ok? ==> journal.phase == phase
      ensures r == Report(env.weather(old(clock)))
    {
      hide IsRun;
      r := WriteJournal(journal.(phase := phase));
    }

    /** The steps between the swap and a successful verify_api_state. */
    method ActivationSteps(ghost replaced: Contents) returns (r: Outcome, artworkActivated: bool)
      requires Valid() && Activated(env, databases, journal, replaced) && !verified
      modifies this`clock, this`journal, this`artwork, this`parked, this`verified, this`trace
      ensures Valid() && Activated(env, databases, journal, replaced)
      ensures old(trace) <= trace && old(clock) < clock <= old(clock) + 11
      ensures journal.automaticRetries == old(journal.automaticRetries)
      ensures journal.retryable == old(journal.retryable)
      ensures verified <==> r.Ok?
      ensures artworkActivated ==>
                && parked == (if old(artwork).Some? then old(artwork) else old(parked))
                && CanInstallArtwork(old(artwork), old(parked))
                && (!discarded && env.originalArtwork.Some? ==> parked == env.originalArtwork)
      ensures r.Ok? ==> artworkActivated && artwork == Some(PackageArtwork)
      ensures old(CalmFor(11)) && CanInstallArtwork(old(artwork), old(parked)) ==> r.Ok?
      ensures old(CalmFor(6)) && !CanInstallArtwork(old(artwork), old(parked)) ==>
                && r.Err? && clock <= old(clock) + 6
                && !artworkActivated && artwork == old(artwork) && parked == old(parked)
      ensures r.Ok? ==>
                && clock == old(clock) + 7 + InstallSteps(old(artwork))
                && FlawlessActivation(env, old(clock), old(artwork))
      ensures CanInstallArtwork(old(artwork), old(parked)) && env.weather(old(clock) + 4) == Calm ==>
                && StopsAtFirstFault(env.weather, clock, old(clock), 7 + InstallSteps(old(artwork)), r)
                && (artworkActivated <==> clock > old(clock) + 3 + InstallSteps(old(artwork)))
      ensures clock < old(clock) + 6 || (clock == old(clock) + 6 && !Happens(env.weather(old(clock) + 5))) ==>
                artwork == old(artwork) && parked == old(parked)
      ensures CrashesAfter(env, old(clock), 6) && old(artwork).Some? && old(parked).None? ==>
                && r.Crashed? && clock == old(clock) + 7
                && Now() == old(Now()).(journal := old(journal).(phase := RestoringArtwork),
                                        artwork := Some(PackageArtwork), parked := old(artwork))
    {
      hide Good, IsRun, CanInstallArtwork, Happens, Activated;
      artworkActivated := false;
      r := ReachArtwork(replaced);
      if r.Ok? {
        r := ActivateArtwork();
        if r.Ok? {
          artworkActivated := true;
          r := VerifyActivation(replaced);
        }
      }
    }

    /** The database is live; announce settings and artwork. */
    method ReachArtwork(ghost replaced: Contents) returns (r: Outcome)
      requires Valid() && Activated(env, databases, journal, replaced)
      modifies this`clock, this`journal, this`trace
      ensures Valid() && Activated(env, databases, journal, replaced) && old(trace) <= trace && old(clock) < clock
      ensures journal.automaticRetries == old(journal.automaticRetries)
      ensures journal.retryable == old(journal.retryable)
      ensures r.Ok? ==> journal == old(journal).(phase := RestoringArtwork)
      ensures StopsAtFirstFault(env.weather, clock, old(clock), 3, r)
    {
      hide Good, IsRun, Activated;
      r := Aside();
      if r.Ok? {
        r := Advance(RestoringSettings, replaced);
        if r.Ok? {
          r := Advance(RestoringArtwork, replaced);
        }
      }
    }

    /** Start the application on the restored data and wait for verify_api_state. */
    method VerifyActivation(ghost replaced: Contents) returns (r: Outcome)
      requires Valid() && Activated(env, databases, journal, replaced) && !verified
      modifies this`clock, this`journal, this`verified, this`trace
      ensures Valid() && Activated(env, databases, journal, replaced) && old(trace) <= trace && old(clock) < clock
      ensures journal.automaticRetries == old(journal.automaticRetries)
      ensures journal.retryable == old(journal.retryable)
      ensures verified <==> r.Ok?
      ensures StopsAtFirstFault(env.weather, clock, old(clock), 4, r)
    {
      hide IsRun;
      r := Ok;
      :- ReachHealthCheck(replaced);
      ghost var before := Now();
      verified := true;
      Record(before);
    }

    method ReachHealthCheck(ghost replaced: Contents) returns (r: Outcome)
      requires Valid() && Activated(env, databases, journal, replaced)
      modifies this`clock, this`journal, this`trace
      ensures Valid() && Activated(env, databases, journal, replaced) && old(trace) <= trace && old(clock) < clock
      ensures journal.automaticRetries == old(journal.automaticRetries)
      ensures journal.retryable == old(journal.retryable)
      ensures r.Ok? ==> journal.phase == VerifyingHealth
      ensures StopsAtFirstFault(env.weather, clock, old(clock), 4, r)
    {
      hide Good, IsRun, Activated;
      r := Ok;
      :- Advance(StartingApplication, replaced);
      :- Aside();
      :- Advance(VerifyingHealth, replaced);
      r := Aside();
    }

    /** rollback_activated_candidate: Ok means the rollback itself succeeded. */
    method RollBackActivation(artworkActivated: bool, ghost replaced: Contents) returns (r: Outcome)
      requires Valid() && Activated(env, databases, journal, replaced)
      requires artworkActivated && !discarded && env.originalArtwork.Some? ==> parked == env.originalArtwork
      modifies this`clock, this`databases, this`journal, this`artwork, this`parked, this`trace
      ensures Valid() && old(trace) <= trace && old(clock) < clock
      ensures journal.automaticRetries == old(journal.automaticRetries)
      ensures Live in databases
      ensures r.Ok? ==> databases[Live] == replaced && Previous(env.job) !in databases
      ensures r.Ok? && artworkActivated && env.probesTruthful ==> artwork == old(parked) && parked == None
      ensures !artworkActivated ==> artwork == old(artwork) && parked == old(parked)
      ensures old(CalmFor(13)) ==>
                && r.Ok? && clock <= old(clock) + 13 && journal.retryable && journal.rollback == Succeeded
                && (artworkActivated ==> artwork == old(parked) && parked == None)
    {
      hide IsRun;
      r := Ok;
      :- AnnounceRollback(replaced);
      :- RollbackDatabases(Previous(env.job), Candidate(env.job));
      if artworkActivated {
        :- RollbackArtwork();
      }
      r := ReportRollback();
    }

    /** Record that a rollback is under way and stop the application. */
    method AnnounceRollback(ghost replaced: Contents) returns (r: Outcome)
      requires Valid() && Activated(env, databases, journal, replaced)
      modifies this`clock, this`journal, this`trace
      ensures Valid() && Activated(env, databases, journal, replaced) && old(trace) <= trace && old(clock) < clock
      ensures journal.automaticRetries == old(journal.automaticRetries)
      ensures old(CalmFor(4)) ==> r.Ok? && clock == old(clock) + 4
    {
      hide IsRun;
      var read := Aside();
      if read.Cut() { return read; }
      if read.Ok? {
        :- WriteJournal(journal.(phase := RollingBack, rollback := InProgress));
      }
      :- Aside();
      var stop := Aside();
      r := if stop.Cut() then stop else Ok;
    }

    /** Restart the application on the restored original and record the rollback. */
    method ReportRollback() returns (r: Outcome)
      requires Valid() && Previous(env.job) !in databases
      modifies this`clock, this`journal, this`trace
      ensures Valid() && old(trace) <= trace && old(clock) < clock
      ensures journal.automaticRetries == old(journal.automaticRetries)
      ensures old(CalmFor(4)) ==>
                r.Ok? && clock == old(clock) + 4 && journal.retryable && journal.rollback == Succeeded
      ensures env.weather(old(clock) + 1) != Calm ==> !r.Ok? && journal == old(journal)
    {
      hide IsRun;
      var unmark := Aside();
      if unmark.Cut() { return unmark; }
      :- Aside();
      var read := Aside();
      if read.Cut() { return read; }
      if read.Ok? {
        :- WriteJournal(journal.(rollback := Succeeded, retryable := true));
      }
      r := Ok;
    }

    /** After verification: drop what the rollback would have needed, then complete. */
    method FinishAttempt(ghost replaced: Contents) returns (r: Outcome)
      requires Valid() && verified && Activated(env, databases, journal, replaced) && artwork == Some(PackageArtwork)
      modifies this`clock, this`databases, this`journal, this`package, this`staged, this`parked
      modifies this`dropped, this`discarded, this`trace
      ensures Valid() && old(trace) <= trace && old(clock) < clock
      ensures journal.automaticRetries == old(journal.automaticRetries)
      ensures r.Ok? ==> Finished(env, Now())
      ensures old(CalmFor(5)) ==>
                && r.Ok? && clock <= old(clock) + 5 && package == (old(package) && !env.remote)
                && Previous(env.job) !in databases && parked == None && !staged
      ensures r.Err? ==> Report(env.weather(old(clock) + (if old(parked).Some? then 3 else 2))).Err?
    {
      hide Good, IsRun;
      if parked.Some? {
        var cleared := DiscardParked();
        if cleared.Cut() { return cleared; }
      }
      StagingIsGood(env, Now(), false);
      var unstaged := SetStaged(false);
      if unstaged.Cut() { return unstaged; }
      r := DropPreviousAndComplete();
    }

    /** Drop the previous database, complete the journal, remove a downloaded package. */
    method DropPreviousAndComplete() returns (r: Outcome)
      requires Valid() && verified
      modifies this`clock, this`databases, this`journal, this`package, this`dropped, this`trace
      ensures Valid() && old(trace) <= trace && old(clock) < clock
      ensures journal.automaticRetries == old(journal.automaticRetries)
      ensures Live in databases && Live in old(databases) && databases[Live] == old(databases)[Live]
      ensures r.Ok? ==> journal.phase == Completed
      ensures old(CalmFor(3)) ==>
                && r.Ok? && clock == old(clock) + 3 && Previous(env.job) !in databases
                && package == (old(package) && !env.remote)
      ensures r.Err? ==> Report(env.weather(old(clock) + 1)).Err?
    {
      hide IsRun, WritesJournal;
      var gone := DropPrevious();
      if gone.Cut() { return gone; }
      ClosingIsGood(env, Now(), Completed);
      :- WriteJournal(journal.(phase := Completed));
      var removed := RemovePackage();
      r := if removed.Cut() then removed else Ok;
    }

    /** perform_restore_inner. */
    method PerformRestoreInner() returns (r: Outcome)
      requires Valid() && Ready()
      modifies this
      ensures Valid() && old(trace) <= trace && old(clock) < clock
      ensures journal.automaticRetries == old(journal.automaticRetries)
      ensures r.Ok? ==> Finished(env, Now())
      ensures old(CalmFor(45)) && Previous(env.job) !in old(databases) ==>
                && !r.Cut() && clock <= old(clock) + 45 && Previous(env.job) !in databases
                && (Rejects(env, old(Now())) ==> !journal.retryable)
                && (r.Ok? <==> Completable(env, old(Now()), old(journal.automaticRetries)))
                && (r.Err? ==> Untouched(old(Now())) && package == old(package))
      ensures old(CalmFor(16)) && old(FreshAttempt()) && !Report(env.weather(old(clock) + 16)).Ok? ==>
                && clock == old(clock) + 17 && r == Report(env.weather(old(clock) + 16))
                && (if Happens(env.weather(old(clock) + 16)) then CutBehindSwap(old(Now()))
                    else StoppedBeforeSwap(old(Now())))
      ensures old(ArtworkCrashAhead(23)) ==>
                r.Crashed? && clock == old(clock) + 24 && CutBehindArtwork(old(Now()))
      ensures r.Ok? ==>
                && FlawlessAttempt(env, old(clock), old(Now()))
                && Completable(env, old(Now()), old(journal.automaticRetries))
      ensures !Prepared(env, old(clock), old(Now())) ==> !r.Ok? && Untouched(old(Now()))
      ensures old(CalmFor(17)) && old(FreshAttempt()) && CanInstallArtwork(old(artwork), old(parked)) ==>
                forall t: nat :: Erring(env.weather, t) && OnlyFault(env, old(clock) + 17, t, old(artwork)) ==>
                  && r.Err? && Live in old(databases) && RolledBack(old(databases)[Live], old(Now()))
                  && ArtworkBack(old(clock) + 17, t, old(artwork), old(parked))
    {
      hide Good, IsRun, Finished, Flawless, FlawlessActivation, OnlyFault, Erring, BuildSteps;
      BeginAttempt();
      r := Attempt();
    }

    /** What verification said about an earlier attempt does not count for this one. */
    ghost method BeginAttempt()
      requires Valid() && Ready()
      modifies this`verified, this`trace
      ensures Valid() && !verified && old(trace) <= trace
    {
      hide IsRun, WritesJournal, RunsScript, MovesDirectory;
      ghost var before := Now();
      verified := false;
      Record(before);
    }

    method Attempt() returns (r: Outcome)
      requires Valid() && Ready() && !verified
      modifies this`clock, this`databases, this`journal, this`package, this`staged, this`artwork, this`parked
      modifies this`verified, this`dropped, this`discarded, this`trace
      ensures Valid() && old(trace) <= trace && old(clock) < clock
      ensures journal.automaticRetries == old(journal.automaticRetries)
      ensures r.Ok? ==> Finished(env, Now())
      ensures old(CalmFor(45)) && Previous(env.job) !in old(databases) ==>
                && !r.Cut() && clock <= old(clock) + 45 && Previous(env.job) !in databases
                && (Rejects(env, old(Now())) ==> !journal.retryable)
                && (r.Ok? <==> Completable(env, old(Now()), old(journal.automaticRetries)))
                && (r.Err? ==> Untouched(old(Now())) && package == old(package))
      ensures old(CalmFor(16)) && old(FreshAttempt()) && !Report(env.weather(old(clock) + 16)).Ok? ==>
                && clock == old(clock) + 17 && r == Report(env.weather(old(clock) + 16))
                && (if Happens(env.weather(old(clock) + 16)) then CutBehindSwap(old(Now()))
                    else StoppedBeforeSwap(old(Now())))
      ensures old(ArtworkCrashAhead(23)) ==>
                r.Crashed? && clock == old(clock) + 24 && CutBehindArtwork(old(Now()))
      ensures r.Ok? ==>
                && FlawlessAttempt(env, old(clock), old(Now()))
                && Completable(env, old(Now()), old(journal.automaticRetries))
      ensures !Prepared(env, old(clock), old(Now())) ==> !r.Ok? && Untouched(old(Now()))
      ensures old(CalmFor(17)) && old(FreshAttempt()) && CanInstallArtwork(old(artwork), old(parked)) ==>
                forall t: nat :: Erring(env.weather, t) && OnlyFault(env, old(clock) + 17, t, old(artwork)) ==>
                  && r.Err? && Live in old(databases) && RolledBack(old(databases)[Live], old(Now()))
                  && ArtworkBack(old(clock) + 17, t, old(artwork), old(parked))
    {
      hide Good, IsRun, Finished, FlawlessActivation, OnlyFault, Erring;
      r := ReachSwap();
      if r.Ok? {
        r := ActivateOrRollBack(old(databases)[Live]);
      }
    }

    /** Everything up to and including the swap. */
    method ReachSwap() returns (r: Outcome)
      requires Valid() && Ready() && !verified
      modifies this`clock, this`databases, this`journal, this`staged, this`trace
      ensures Valid() && old(trace) <= trace && old(clock) < clock
      ensures journal.automaticRetries == old(journal.automaticRetries)
      ensures Live in old(databases)
      ensures r.Ok? ==>
                && Activated(env, databases, journal, old(databases)[Live])
                && staged && journal.retryable == old(journal.retryable)
      ensures r.Ok? ==>
                && clock == old(clock) + 14 + BuildSteps(env, old(databases)) && Prepared(env, old(clock), old(Now()))
                && env.weather(clock - 1) == Calm
      ensures !Prepared(env, old(clock), old(Now())) ==>
                !r.Ok? && Live in databases && databases[Live] == old(databases)[Live]
      ensures old(CalmFor(21)) && Previous(env.job) !in old(databases) ==>
                && !r.Cut() && clock <= old(clock) + 21
                && (Rejects(env, old(Now())) ==> !journal.retryable)
                && (r.Ok? <==> package && env.packageIntact(old(journal.automaticRetries))
                               && env.planHolds(old(journal.automaticRetries)))
                && (r.Err? ==>
                      Live in databases && databases[Live] == old(databases)[Live] && Previous(env.job) !in databases)
      ensures old(CalmFor(16)) && old(FreshAttempt()) ==>
                && clock == old(clock) + 17 && r == Report(env.weather(old(clock) + 16))
                && (if Happens(env.weather(old(clock) + 16)) then CutBehindSwap(old(Now()))
                    else StoppedBeforeSwap(old(Now())))
    {
      hide Good, IsRun;
      r := Ok;
      LiveAlwaysExists(env, Now());
      r := PrepareSwap();
      assert old(CalmFor(16)) && old(FreshAttempt()) ==> r.Ok? && env.weather(clock) == env.weather(old(clock) + 16);
      if r.Ok? {
        r := SwapDatabases();
      }
    }

    /** Everything before the swap. */
    method PrepareSwap() returns (r: Outcome)
      requires Valid() && Ready()
      modifies this`clock, this`databases, this`journal, this`staged, this`trace
      ensures Valid() && Ready() && old(trace) <= trace && old(clock) < clock
      ensures OnlyCandidateDiffers(old(databases))
      ensures journal.automaticRetries == old(journal.automaticRetries)
      ensures r.Ok? ==>
                && staged && journal.phase == SwappingDatabase && journal.retryable == old(journal.retryable)
                && Candidate(env.job) in databases && databases[Candidate(env.job)] == Package(env.job)
                && journal.candidate == Some(Candidate(env.job)) && journal.previous == Some(Previous(env.job))
      ensures old(CalmFor(20)) ==>
                && !r.Cut() && clock <= old(clock) + 20
                && (Rejects(env, old(Now())) ==> !journal.retryable)
                && (r.Ok? <==> package && env.packageIntact(old(journal.automaticRetries))
                               && env.planHolds(old(journal.automaticRetries)))
      ensures old(CalmFor(16)) && old(FreshAttempt()) ==> r.Ok?
      ensures r.Ok? ==>
                && clock == old(clock) + 13 + BuildSteps(env, old(databases))
                && Prepared(env, old(clock), old(Now()))
    {
      hide Good, IsRun;
      LiveAlwaysExists(env, Now());
      r := StagePackage();
      if r.Ok? {
        r := PrepareCandidate();
      }
    }

    /** Build the candidate, take the safety backup and write the checkpoint. */
    method PrepareCandidate() returns (r: Outcome)
      requires Valid() && Ready()
      modifies this`clock, this`databases, this`journal, this`trace
      ensures Valid() && Ready() && old(trace) <= trace && old(clock) < clock
      ensures OnlyCandidateDiffers(old(databases))
      ensures journal.automaticRetries == old(journal.automaticRetries)
      ensures r.Ok? ==>
                && journal.phase == SwappingDatabase && journal.retryable == old(journal.retryable)
                && Candidate(env.job) in databases && databases[Candidate(env.job)] == Package(env.job)
                && journal.candidate == Some(Candidate(env.job)) && journal.previous == Some(Previous(env.job))
      ensures old(CalmFor(13)) ==>
                && !r.Cut() && clock <= old(clock) + 13
                && (r.Ok? <==> env.planHolds(old(journal.automaticRetries)))
                && (!r.Ok? ==> !journal.retryable)
      ensures old(CalmFor(6 + BuildSteps(env, databases))) && env.planHolds(old(journal.automaticRetries)) ==> r.Ok?
      ensures r.Ok? ==>
                && env.planHolds(old(journal.automaticRetries))
                && clock == old(clock) + 6 + BuildSteps(env, old(databases))
                && Flawless(env.weather, old(clock), clock, clock)
    {
      hide Good, IsRun;
      LiveAlwaysExists(env, Now());
      r := BuildCandidate();
      if r.Ok? {
        r := CheckpointAndStop();
      }
    }

    /** A fresh attempt that would succeed but for a crash right behind its swap. */
    ghost predicate SwapCrashAhead(steps: nat)
      reads this
    {
      && CrashesAfter(env, clock, steps) && FreshAttempt()
    }

    /** A fresh attempt that would succeed but for its swap, which fails. */
    ghost predicate SwapFailureAhead(steps: nat)
      reads this
    {
      && CalmFor(steps) && env.weather(clock + steps) == FailBefore && FreshAttempt()
    }

    /** The same for a crash right behind the second of the two artwork renames. */
    ghost predicate ArtworkCrashAhead(steps: nat)
      reads this
    {
      && CrashesAfter(env, clock, steps) && FreshAttempt() && artwork.Some? && parked.None?
    }

    ghost predicate FreshAttempt()
      reads this
    {
      && Previous(env.job) !in databases && Candidate(env.job) !in databases
      && package && env.packageIntact(journal.automaticRetries) && env.planHolds(journal.automaticRetries)
    }

    /** An attempt that ended before its swap, with the package extracted. */
    ghost predicate StoppedBeforeSwap(before: Snapshot)
      reads this
    {
      && Untouched(before) && staged && Previous(env.job) !in databases && package == before.package
      && journal.retryable == before.journal.retryable
    }

    ghost predicate CutBehindSwap(before: Snapshot)
      reads this
    {
      && Live in before.databases && CutIn(SwappingDatabase, before.databases[Live], before)
      && artwork == before.artwork && parked == before.parked
    }

    ghost predicate CutBehindArtwork(before: Snapshot)
      reads this
    {
      && Live in before.databases && CutIn(RestoringArtwork, before.databases[Live], before)
      && artwork == Some(PackageArtwork) && parked == before.artwork
    }

    /** The replaced database is live again and the attempt gave nothing up. */
    ghost predicate RolledBack(replaced: Contents, before: Snapshot)
      reads this
    {
      && Live in databases && databases[Live] == replaced && Previous(env.job) !in databases
      && !verified && dropped == before.dropped && discarded == before.discarded && package == before.package
    }

    /** Unless the renames themselves were cut short at step `t`, artwork is what it was. */
    ghost predicate ArtworkBack(from: nat, t: nat, was: Option<Artwork>, wasParked: Option<Artwork>)
      reads this
    {
      && (t < from + 5 || (t == from + 5 && !Happens(env.weather(t))) ==>
            artwork == was && parked == wasParked)
      && (t >= from + 3 + InstallSteps(was) ==> artwork == (if was.Some? then was else wasParked) && parked.None?)
    }

    /** Everything after the swap: verify and finish, or put the old database back. */
    method ActivateOrRollBack(ghost replaced: Contents) returns (r: Outcome)
      requires Valid() && Activated(env, databases, journal, replaced) && !verified
      modifies this`clock, this`databases, this`journal, this`package, this`staged, this`artwork, this`parked
      modifies this`verified, this`dropped, this`discarded, this`trace
      ensures Valid() && old(trace) <= trace && old(clock) < clock
      ensures journal.automaticRetries == old(journal.automaticRetries)
      ensures r.Ok? ==> Finished(env, Now())
      ensures old(CalmFor(24)) && CanInstallArtwork(old(artwork), old(parked)) ==>
                r.Ok? && clock <= old(clock) + 24 && Previous(env.job) !in databases
      ensures old(CalmFor(24)) && !CanInstallArtwork(old(artwork), old(parked)) ==>
                && r.Err? && clock <= old(clock) + 24
                && RolledBack(replaced, old(Now())) && artwork == old(artwork) && parked == old(parked)
      ensures r.Ok? ==>
                FlawlessActivation(env, old(clock), old(artwork)) && CanInstallArtwork(old(artwork), old(parked))
      ensures CanInstallArtwork(old(artwork), old(parked)) ==>
                forall t: nat :: Erring(env.weather, t) && OnlyFault(env, old(clock), t, old(artwork)) ==>
                  r.Err? && RolledBack(replaced, old(Now())) && ArtworkBack(old(clock), t, old(artwork), old(parked))
      ensures CrashesAfter(env, old(clock), 6) && old(artwork).Some? && old(parked).None? ==>
                && r.Crashed? && clock == old(clock) + 7
                && Now() == old(Now()).(journal := old(journal).(phase := RestoringArtwork),
                                        artwork := Some(PackageArtwork), parked := old(artwork))
    {
      hide Good, IsRun, Finished, CanInstallArtwork, Happens, Activated, Flawless, FlawlessActivation, OnlyFault;
      hide StopsAtFirstFault, Erring, CrashesAfter, InstallSteps;
      var artworkActivated;
      r, artworkActivated := ActivationSteps(replaced);
      if CanInstallArtwork(old(artwork), old(parked)) {
        forall t: nat | Erring(env.weather, t) && OnlyFault(env, old(clock), t, old(artwork))
          ensures env.weather(old(clock) + 4) == Calm && clock == t + 1 && r.Err? && CalmFor(13)
        {
          StopsBehindOnlyFault(env, clock, old(clock), t, old(artwork), r);
        }
      }
      if r.Err? {
        r := GiveUpActivation(artworkActivated, replaced);
      } else if r.Ok? {
        r := FinishAttempt(replaced);
      }
    }

    /** The attempt fails whatever its rollback says. */
    method GiveUpActivation(artworkActivated: bool, ghost replaced: Contents) returns (r: Outcome)
      requires Valid() && Activated(env, databases, journal, replaced) && !verified
      requires artworkActivated && !discarded && env.originalArtwork.Some? ==> parked == env.originalArtwork
      modifies this`clock, this`databases, this`journal, this`artwork, this`parked, this`trace
      ensures Valid() && old(trace) <= trace && old(clock) < clock && !r.Ok?
      ensures journal.automaticRetries == old(journal.automaticRetries)
      ensures old(CalmFor(13)) ==>
                && r.Err? && clock <= old(clock) + 13 && RolledBack(replaced, old(Now()))
                && artwork == (if artworkActivated then old(parked) else old(artwork))
                && parked == (if artworkActivated then None else old(parked))
    {
      hide Good, IsRun, Activated;
      var back := RollBackActivation(artworkActivated, replaced);
      r := if back.Cut() then back else Err;
    }

    /** The attempt begins, but something goes wrong before its swap. */
    ghost predicate PreparationFails()
      reads this
    {
      env.weather(clock) == Calm && !Prepared(env, clock + 1, Now())
    }

    /** perform_restore: a missed deadline ends the attempt with an error. */
    method PerformRestore() returns (r: Outcome)
      requires Valid() && Ready()
      modifies this
      ensures Valid() && old(trace) <= trace && old(clock) < clock && !r.TimedOut?
      ensures journal.automaticRetries == old(journal.automaticRetries)
      ensures r.Ok? ==> Finished(env, Now())
      ensures old(CalmFor(46)) && Previous(env.job) !in old(databases) ==>
                && !r.Cut() && clock <= old(clock) + 46 && Previous(env.job) !in databases
                && (Rejects(env, old(Now())) ==> !journal.retryable)
                && (r.Ok? <==> Completable(env, old(Now()), old(journal.automaticRetries)))
                && (r.Err? ==> Untouched(old(Now())) && package == old(package))
      ensures r.Ok? ==>
                && env.weather(old(clock)) == Calm && FlawlessAttempt(env, old(clock) + 1, old(Now()))
                && Completable(env, old(Now()), old(journal.automaticRetries))
      ensures env.weather(old(clock)) != Calm ==> !r.Ok? && Now() == old(Now())
      ensures old(PreparationFails()) ==> !r.Ok? && Untouched(old(Now()))
      ensures old(CalmFor(18)) && old(FreshAttempt()) && CanInstallArtwork(old(artwork), old(parked)) ==>
                forall t: nat :: Erring(env.weather, t) && OnlyFault(env, old(clock) + 18, t, old(artwork)) ==>
                  && r.Err? && Live in old(databases) && RolledBack(old(databases)[Live], old(Now()))
                  && ArtworkBack(old(clock) + 18, t, old(artwork), old(parked))
      ensures old(SwapCrashAhead(17)) ==>
                r.Crashed? && clock == old(clock) + 18 && CutBehindSwap(old(Now()))
      ensures old(SwapFailureAhead(17)) ==>
                r.Err? && clock == old(clock) + 18 && StoppedBeforeSwap(old(Now()))
      ensures old(ArtworkCrashAhead(24)) ==>
                r.Crashed? && clock == old(clock) + 25 && CutBehindArtwork(old(Now()))
    {
      hide Good, IsRun, Finished, Prepared, FlawlessAttempt, OnlyFault, Erring, Rejects;
      r := Aside();
      if r.Ok? {
        r := PerformRestoreInner();
      }
      if r.TimedOut? {
        r := Err;
      }
    }

    /** perform_restore followed by restore_jobs::fail when it returned an error. */
    method PerformOrFail() returns (r: Outcome)
      requires Valid() && Ready()
      modifies this
      ensures Valid() && old(trace) <= trace && old(clock) < clock
      ensures journal.automaticRetries == old(journal.automaticRetries)
      ensures r.Ok? ==> Finished(env, Now())
      ensures old(CalmFor(48)) && Previous(env.job) !in old(databases) ==>
                && Previous(env.job) !in databases
                && (r.Ok? <==> Completable(env, old(Now()), old(journal.automaticRetries)))
                && (!r.Ok? ==> Untouched(old(Now())) && package == old(package))
      ensures r.Ok? ==>
                && env.weather(old(clock)) == Calm && FlawlessAttempt(env, old(clock) + 1, old(Now()))
                && Completable(env, old(Now()), old(journal.automaticRetries))
      ensures old(PreparationFails()) ==> !r.Ok? && Untouched(old(Now()))
      ensures old(SwapCrashAhead(17)) ==>
                r.Crashed? && clock == old(clock) + 18 && CutBehindSwap(old(Now()))
      ensures old(ArtworkCrashAhead(24)) ==>
                r.Crashed? && clock == old(clock) + 25 && CutBehindArtwork(old(Now()))
    {
      hide Good, IsRun, WritesJournal, Finished, Prepared, FlawlessAttempt;
      r := PerformRestore();
      if r.Err? {
        var unmark := Aside();
        if unmark.Cut() { return unmark; }
        ClosingIsGood(env, Now(), Failed);
        var failed := WriteJournal(journal.(phase := Failed));
        r := if failed.Cut() then failed else Err;
      }
    }

    /** What execute_job does after an error: fail the job and remove a downloaded package. */
    method CloseFailedJob() returns (r: Outcome)
      requires Valid()
      modifies this`clock, this`journal, this`package, this`trace
      ensures Valid() && old(trace) <= trace && old(clock) < clock && !r.Ok?
      ensures journal == if Happens(env.weather(old(clock))) then old(journal).(phase := Failed) else old(journal)
      ensures old(CalmFor(4)) ==>
                && r.Err? && clock == old(clock) + 4
                && journal.phase == Failed && package == (old(package) && !env.remote)
    {
      hide Good, IsRun, WritesJournal;
      ClosingIsGood(env, Now(), Failed);
      var failed := WriteJournal(journal.(phase := Failed));
      if failed.Cut() { return failed; }
      var unmark := Aside();
      if unmark.Cut() { return unmark; }
      var read := Aside();
      if read.Cut() { return read; }
      if read.Ok? {
        var removed := RemovePackage();
        if removed.Cut() { return removed; }
      }
      r := Err;
    }

    /** execute_job: refuses every phase but PreparingCandidate, in which nothing is parked. */
    method ExecuteJob() returns (r: Outcome)
      requires Valid()
      modifies this
      ensures Valid() && old(trace) <= trace && old(clock) <= clock
      ensures journal.automaticRetries == old(journal.automaticRetries)
      ensures old(journal.phase) != PreparingCandidate ==> Now() == old(Now()) && r.Err?
      ensures r.Ok? ==> Finished(env, Now())
      ensures old(CalmFor(50)) && old(journal.phase) == PreparingCandidate && Previous(env.job) !in old(databases) ==>
                && Previous(env.job) !in databases && (Rejects(env, old(Now())) ==> !journal.retryable)
                && (r.Ok? <==> Completable(env, old(Now()), old(journal.automaticRetries)))
                && (!r.Ok? ==> Untouched(old(Now())) && package == (old(package) && !env.remote))
      ensures r.Ok? ==>
                && env.weather(old(clock)) == Calm && FlawlessAttempt(env, old(clock) + 1, old(Now()))
                && Completable(env, old(Now()), old(journal.automaticRetries))
      ensures old(journal.phase) == PreparingCandidate && old(PreparationFails()) ==>
                !r.Ok? && Untouched(old(Now()))
      ensures old(SwapCrashAhead(17)) && old(journal.phase) == PreparingCandidate ==>
                r.Crashed? && clock == old(clock) + 18 && CutBehindSwap(old(Now()))
      ensures old(SwapFailureAhead(17)) && old(CalmAgainAt(18)) && old(journal.phase) == PreparingCandidate ==>
                && r.Err? && clock == old(clock) + 22 && Untouched(old(Now()))
                && staged && Previous(env.job) !in databases && journal.phase == Failed
                && journal.retryable == old(journal.retryable) && package == (old(package) && !env.remote)
      ensures old(ArtworkCrashAhead(24)) && old(journal.phase) == PreparingCandidate ==>
                r.Crashed? && clock == old(clock) + 25 && CutBehindArtwork(old(Now()))
    {
      hide IsRun, Prepared, FlawlessAttempt, Rejects;
      if journal.phase != PreparingCandidate {
        return Err;
      }
      r := PerformRestore();
      if r.Err? {
        r := CloseFailedJob();
      }
    }

    /** No step fails any more from `steps` steps ahead on. */
    ghost predicate CalmAgainAt(steps: nat)
      reads this
    {
      forall t :: clock + steps <= t ==> env.weather(t) == Calm
    }

    /** The recovery part of retry_interrupted_restore. */
    method RecoverPrevious() returns (r: Outcome)
      requires Valid()
      modifies this`clock, this`databases, this`trace
      ensures Valid() && old(trace) <= trace && old(clock) <= clock
      ensures r.Ok? ==> Ready() && (env.probesTruthful ==> LiveAtRetry(env, Now()))
      ensures old(CalmFor(6)) && env.probesTruthful ==>
                && r.Ok? && clock <= old(clock) + 6
                && (Previous(env.job) in old(databases) ==>
                      clock == old(clock) + 6 && Candidate(env.job) !in databases)
    {
      hide IsRun;
      if journal.previous.Some? {
        var candidate := if journal.candidate.Some? then journal.candidate.value else Candidate(env.job);
        var exists_;
        r, exists_ := ProbeOrFalse(journal.previous.value in databases);
        if r.Cut() { return; }
        if exists_ {
          r := PutPreviousBack(journal.previous.value, candidate);
          return;
        }
      }
      r := Ok;
    }

    /** Mark, stop the application, rename back, drop what had been live. */
    method PutPreviousBack(previous: Database, candidate: Database) returns (r: Outcome)
      requires Valid() && previous == Previous(env.job) && candidate == Candidate(env.job)
      requires Previous(env.job) in databases
      modifies this`clock, this`databases, this`trace
      ensures Valid() && old(trace) <= trace && old(clock) < clock
      ensures r.Ok? ==> Ready() && LiveAtRetry(env, Now())
      ensures old(CalmFor(5)) && Candidate(env.job) !in old(databases) ==>
                r.Ok? && clock == old(clock) + 5 && Candidate(env.job) !in databases
      ensures r.Err? ==> Report(env.weather(old(clock) + 2)).Err? || Candidate(env.job) in old(databases)
    {
      hide IsRun;
      var marked := Aside();
      if marked.Cut() { return marked; }
      var stopped := Aside();
      if stopped.Cut() { return stopped; }
      :- RollbackDatabases(previous, candidate);
      var gone := CandidateScript(Some(Drop(databases, candidate)));
      if gone.Cut() { return gone; }
      var unmarked := Aside();
      r := if unmarked.Cut() then unmarked else Ok;
    }

    /** Counts the retry in the journal, from where the original is live. */
    method BeginRetry() returns (r: Outcome)
      requires Valid() && Ready() && journal.automaticRetries < MAX_AUTOMATIC_RETRIES
      requires env.probesTruthful ==> LiveAtRetry(env, Now())
      modifies this`clock, this`journal, this`trace
      ensures Valid() && Ready()
      ensures clock == old(clock) + 1 && trace == old(trace) + [Now()]
      ensures journal == old(journal)
              || journal == old(journal).(phase := PreparingCandidate,
                                          automaticRetries := old(journal.automaticRetries) + 1)
      ensures r.Ok? ==> journal.automaticRetries == old(journal.automaticRetries) + 1
      ensures env.weather(old(clock)).Calm? ==> r.Ok?
    {
      hide IsRun;
      r := WriteJournal(journal.(phase := PreparingCandidate, automaticRetries := journal.automaticRetries + 1));
    }

    /** What an eligible job can count on when an agent restarts. */
    ghost predicate Retried(before: Snapshot)
      reads this
    {
      && journal.automaticRetries == before.journal.automaticRetries + 1
      && Previous(env.job) !in databases
      && (if Completable(env, before, before.journal.automaticRetries + 1) then Finished(env, Now())
          else
            && Live in databases && (!dropped ==> databases[Live] == Original)
            && artwork == before.artwork && parked == before.parked && package == before.package
            && dropped == before.dropped && discarded == before.discarded && !verified)
    }

    /** A restart that recovers an unfinished job and would succeed but for a crash right behind its swap. */
    ghost predicate RetryCrashAhead(steps: nat)
      reads this
    {
      && CrashesAfter(env, clock, steps) && env.probesTruthful && !dropped
      && Unfinished(env, Now()) && Eligible(journal, staged) && package
      && env.packageIntact(journal.automaticRetries + 1) && env.planHolds(journal.automaticRetries + 1)
    }

    /** retry_interrupted_restore: what an agent restart does with the job. */
    method RetryInterruptedRestore() returns (r: Outcome)
      requires Valid()
      modifies this
      ensures Valid() && old(trace) <= trace && old(clock) < clock
      ensures old(journal.phase) in {Completed, Queued} || !old(journal.retryable) || !old(staged)
                || old(journal.automaticRetries) >= 2 ==>
                Now() == old(Now())
      ensures env.weather(old(clock)) != Calm ==> Now() == old(Now()) && !r.Ok?
      ensures old(journal.automaticRetries) <= journal.automaticRetries <= old(journal.automaticRetries) + 1
      ensures old(CalmFor(56)) && env.probesTruthful && old(journal.phase) !in {Completed, Queued}
              && old(journal.retryable) && old(staged) && old(journal.automaticRetries) < 2 ==>
                Retried(old(Now()))
      ensures old(RetryCrashAhead(25)) ==>
                && r.Crashed? && clock == old(clock) + 26
                && journal.automaticRetries == old(journal.automaticRetries) + 1
                && CutIn(SwappingDatabase, Original, old(Now()))
    {
      hide Good, IsRun, Finished;
      r := Ok;
      :- Aside();
      if !Eligible(journal, staged) {
        return Ok;
      }
      r := RetryEligible();
    }

    /** Recover, count the retry and run the attempt. */
    method RetryEligible() returns (r: Outcome)
      requires Valid() && Eligible(journal, staged)
      modifies this
      ensures Valid() && old(trace) <= trace && old(clock) <= clock
      ensures old(journal.automaticRetries) <= journal.automaticRetries <= old(journal.automaticRetries) + 1
      ensures old(CalmFor(55)) && env.probesTruthful ==> Retried(old(Now()))
      ensures old(RetryCrashAhead(24)) ==>
                && r.Crashed? && clock == old(clock) + 25
                && journal.automaticRetries == old(journal.automaticRetries) + 1
                && CutIn(SwappingDatabase, Original, old(Now()))
    {
      hide Good, IsRun, Finished;
      r := Ok;
      r := PrepareRetry();
      if r.Ok? {
        r := PerformOrFail();
      }
    }

    method PrepareRetry() returns (r: Outcome)
      requires Valid() && journal.automaticRetries < MAX_AUTOMATIC_RETRIES
      modifies this`clock, this`databases, this`journal, this`trace
      ensures Valid() && old(trace) <= trace && old(clock) <= clock
      ensures old(journal.automaticRetries) <= journal.automaticRetries <= old(journal.automaticRetries) + 1
      ensures journal.retryable == old(journal.retryable)
      ensures r.Ok? ==> Ready() && journal.automaticRetries == old(journal.automaticRetries) + 1
      ensures old(CalmFor(7)) && env.probesTruthful ==>
                && r.Ok? && clock <= old(clock) + 7 && LiveAtRetry(env, Now())
                && (Previous(env.job) in old(databases) ==>
                      clock == old(clock) + 7 && Candidate(env.job) !in databases)
    {
      hide Good, IsRun;
      r := Ok;
      r := RecoverPrevious();
      if r.Ok? {
        r := BeginRetry();
      }
    }
  }

  // ---- Every run of a job -----------------------------------------------

  /** The API asks for the job to run, or the agent restarts. */
  datatype Command = Execute | Restart

  /**
   * Every run of one job: requests and restarts in any order, under any fault
   * schedule. The trace is a run of durable steps from the accepted job to the
   * end, so what holds of every snapshot holds wherever the process can die.
   */
  method RunJob(env: Setting, databases: Catalog, retryable: bool, commands: seq<Command>) returns (agent: Agent)
    requires Live in databases && databases[Live] == Original
    requires Candidate(env.job) !in databases && Previous(env.job) !in databases
    requires env.bystanders == databases - {Live}
    ensures fresh(agent) && agent.env == env
    ensures IsRun(env, Initial(env, databases, retryable), agent.trace, agent.Now())
    ensures forall i :: 0 <= i < |agent.trace| ==> Safe(env, agent.trace[i])
    ensures forall i :: 0 <= i < |agent.trace| ==> ArtworkKept(env, agent.trace[i]) && WriteAhead(env, agent.trace[i])
    ensures env.probesTruthful ==> forall i :: 0 <= i < |agent.trace| ==> Recoverable(env, agent.trace[i])
    ensures RetrySteps(agent.trace) <= MAX_AUTOMATIC_RETRIES
  {
    agent := new Agent(env, databases, retryable);
    for i := 0 to |commands|
      invariant agent.Valid() && agent.env == env && fresh(agent)
      invariant agent.initial == Initial(env, databases, retryable)
    {
      var outcome;
      match commands[i] {
        case Execute => outcome := agent.ExecuteJob();
        case Restart => outcome := agent.RetryInterruptedRestore();
      }
    }
    AtMostTwoRetries(env, agent.initial, agent.trace, agent.Now());
  }

  // ---- Three runs that end badly ----------------------------------------

  /** Each of three attempts dies right behind its swap. */
  function ThreeCrashes(t: nat): Fault {
    if t == 17 || t == 43 || t == 69 then CrashAfter else Calm
  }

  /** A job whose checksum and plan hold at every attempt, with truthful probes. */
  function Sound(job: nat, weather: nat -> Fault, remote: bool, artwork: Option<Artwork>, databases: Catalog): Setting {
    Setting(job, weather, true, remote, _ => true, _ => true, artwork, databases - {Live})
  }

  /**
   * A reachable dead end: the attempt and both retries crash right behind
   * their swap. The package is live, unverified; the original stays parked and
   * no later restart touches it.
   */
  method ThreeCrashesExhaustRecovery(
    job: nat, remote: bool, artwork: Option<Artwork>, databases: Catalog, later: nat) returns (agent: Agent)
    requires Live in databases && databases[Live] == Original
    requires Candidate(job) !in databases && Previous(job) !in databases
    ensures fresh(agent) && agent.Valid() && agent.env.probesTruthful
    ensures Unfinished(agent.env, agent.Now()) && !Eligible(agent.journal, agent.staged)
    ensures agent.journal.retryable && agent.journal.automaticRetries == MAX_AUTOMATIC_RETRIES
    ensures Activated(agent.env, agent.databases, agent.journal, Original)
  {
    hide Good, IsRun, Finished, Completable, Prepared, FlawlessAttempt, Rejects;
    agent := new Agent(Sound(job, ThreeCrashes, remote, artwork, databases), databases, true);
    assert agent.SwapCrashAhead(17);
    var executed := agent.ExecuteJob();
    assert agent.clock == 18 && agent.journal.automaticRetries == 0 && agent.RetryCrashAhead(25);
    var first := agent.RetryInterruptedRestore();
    assert agent.clock == 44 && agent.journal.automaticRetries == 1 && agent.RetryCrashAhead(25);
    var second := agent.RetryInterruptedRestore();
    ghost var stuck := agent.Now();
    for i := 0 to later
      invariant fresh(agent) && agent.Valid() && agent.Now() == stuck
    {
      var again := agent.RetryInterruptedRestore();
    }
  }

  /**
   * Another one: a crash right behind the second artwork rename. The original
   * database comes back, with the package's artwork installed, and although no
   * step fails any more no restart ever finishes the job.
   */
  method ParkedArtworkBlocksRetries(job: nat, remote: bool, databases: Catalog, later: nat) returns (agent: Agent)
    requires Live in databases && databases[Live] == Original
    requires Candidate(job) !in databases && Previous(job) !in databases
    ensures fresh(agent) && agent.Valid()
    ensures !agent.verified && Live in agent.databases && agent.databases[Live] == Original
    ensures agent.artwork == Some(PackageArtwork) && agent.parked == Some(OriginalArtwork)
  {
    hide Good, IsRun;
    var crash := OnlyAt(24, CrashAfter);
    agent := new Agent(Sound(job, crash, remote, Some(OriginalArtwork), databases), databases, true);
    assert agent.ArtworkCrashAhead(24);
    var executed := agent.ExecuteJob();
    assert agent.clock == 25 && !Completable(agent.env, agent.Now(), 1);
    assert agent.CalmFor(56) && Eligible(agent.journal, agent.staged);
    var recovered := agent.RetryInterruptedRestore();
    for i := 0 to later
      invariant fresh(agent) && agent.Valid() && 24 < agent.clock
      invariant agent.env == Sound(job, crash, remote, Some(OriginalArtwork), databases)
      invariant !agent.verified && !agent.dropped && Live in agent.databases && agent.databases[Live] == Original
      invariant agent.artwork == Some(PackageArtwork) && agent.parked == Some(OriginalArtwork)
    {
      var again := agent.RetryInterruptedRestore();
    }
  }

  /**
   * And a third: the swap of a downloaded package fails once. The job is
   * failed, retryable and eligible, but its package file is gone, so although
   * nothing else fails and no artwork is parked no restart ever finishes it.
   */
  method RemovedPackageBlocksRetries(job: nat, artwork: Option<Artwork>, databases: Catalog, later: nat)
    returns (agent: Agent, wasEligible: bool)
    requires Live in databases && databases[Live] == Original
    requires Candidate(job) !in databases && Previous(job) !in databases
    ensures fresh(agent) && agent.Valid()
    ensures wasEligible && !agent.verified && !agent.package
    ensures Live in agent.databases && agent.databases[Live] == Original
    ensures agent.artwork == artwork && agent.parked == None
  {
    hide Good, IsRun;
    var failure := OnlyAt(17, FailBefore);
    agent := new Agent(Sound(job, failure, true, artwork, databases), databases, true);
    var executed := agent.ExecuteJob();
    wasEligible := Eligible(agent.journal, agent.staged);
    for i := 0 to later
      invariant fresh(agent) && agent.Valid() && 17 < agent.clock
      invariant agent.env == Sound(job, failure, true, artwork, databases)
      invariant !agent.verified && !agent.dropped && !agent.package
      invariant Live in agent.databases && agent.databases[Live] == Original
      invariant agent.artwork == artwork && agent.parked == None
    {
      var again := agent.RetryInterruptedRestore();
    }
  }
}

/**
 * The durable state of one restore job of
 * apps/api/src/bin/riviamigo-restore-agent.rs, the steps that change it, and
 * what holds in every state of a run: the database catalog, the job journal,
 * the staging directory and the artwork directories.
 */
module RestoreProtocol {
  import opened Common
  import opened DatabaseCatalog
  import opened Faults

  datatype Phase =
    | Queued
    | PreparingCandidate
    | SafetyBackup
    | StoppingApplication
    | SwappingDatabase
    | RestoringSettings
    | RestoringArtwork
    | StartingApplication
    | VerifyingHealth
    | RollingBack
    | Completed
    | Failed

  datatype RollbackState = NotRequired | Available | InProgress | Succeeded

  datatype Journal = Journal(
    phase: Phase,
    retryable: bool,
    automaticRetries: nat,
    rollback: RollbackState,
    candidate: Option<Database>,
    previous: Option<Database>)

  datatype Artwork = OriginalArtwork | PackageArtwork

  /**
   * Everything that survives a crash, and three ghost facts: whether the present
   * attempt has been verified, and whether a verified attempt has given up the
   * original database and the original artwork. `package` says that the file of
   * the recovery package still exists.
   */
  datatype Snapshot = Snapshot(
    databases: Catalog,
    journal: Journal,
    package: bool,
    staged: bool,
    artwork: Option<Artwork>,
    parked: Option<Artwork>,
    verified: bool,
    dropped: bool,
    discarded: bool)

  /**
   * What is fixed for a job. `packageIntact` and `planHolds` are, attempt by
   * attempt, the outcomes of the checksum check and of the comparison with the
   * preflight plan; `remote` says that the package was downloaded for the job;
   * `probesTruthful` says that the existence probes, of databases and of
   * directories, never turn an error into "no".
   */
  datatype Setting = Setting(
    job: nat,
    weather: nat -> Fault,
    probesTruthful: bool,
    remote: bool,
    packageIntact: nat -> bool,
    planHolds: nat -> bool,
    originalArtwork: Option<Artwork>,
    bystanders: Catalog)

  const MAX_AUTOMATIC_RETRIES := 2

  // ---- Invariants -------------------------------------------------------

  /** The live name always exists, and the original is reachable until a verified attempt drops it. */
  ghost predicate Safe(env: Setting, s: Snapshot) {
    && Live in s.databases
    && s.databases - {Live, Candidate(env.job), Previous(env.job)} == env.bystanders
    && (!s.dropped ==>
          || s.databases[Live] == Original
          || (Previous(env.job) in s.databases && s.databases[Previous(env.job)] == Original))
  }

  /** Installed artwork is only ever replaced while the original is parked. */
  ghost predicate ArtworkKept(env: Setting, s: Snapshot) {
    !s.discarded && env.originalArtwork.Some? ==>
      s.artwork == env.originalArtwork || s.parked == env.originalArtwork
  }

  /** A parked database is named in the journal before it can exist, and it is the original. */
  ghost predicate WriteAhead(env: Setting, s: Snapshot) {
    Previous(env.job) in s.databases ==>
      && s.journal.previous == Some(Previous(env.job))
      && (!s.dropped ==> s.databases[Previous(env.job)] == Original)
  }

  ghost predicate Unfinished(env: Setting, s: Snapshot) {
    !s.verified && Previous(env.job) in s.databases
  }

  /** What a restart needs to bring a parked database back, apart from being allowed to retry. */
  ghost predicate Recoverable(env: Setting, s: Snapshot) {
    && (Previous(env.job) in s.databases ==>
          && Candidate(env.job) !in s.databases
          && s.journal.candidate == Some(Candidate(env.job))
          && s.journal.phase != Queued
          && s.journal.phase != PreparingCandidate)
    && (Unfinished(env, s) ==> s.staged && s.journal.phase != Completed)
  }

  ghost predicate Good(env: Setting, s: Snapshot) {
    && Safe(env, s)
    && ArtworkKept(env, s)
    && WriteAhead(env, s)
    && (env.probesTruthful ==> Recoverable(env, s))
    && (!env.remote ==> s.package)
    && s.journal.automaticRetries <= MAX_AUTOMATIC_RETRIES
    && (s.journal.candidate.Some? ==> s.journal.candidate.value == Candidate(env.job))
    && (s.journal.previous.Some? ==> s.journal.previous.value == Previous(env.job))
  }

  /** The filter that decides whether a restart retries the job. */
  predicate Eligible(journal: Journal, staged: bool) {
    && journal.phase != Completed
    && journal.phase != Queued
    && journal.retryable
    && journal.automaticRetries < MAX_AUTOMATIC_RETRIES
    && staged
  }

  /** Artwork parked by an earlier, crashed attempt blocks parking it again. */
  predicate CanInstallArtwork(artwork: Option<Artwork>, parked: Option<Artwork>) {
    artwork.None? || parked.None?
  }

  /** What a fault-free attempt needs in order to succeed. */
  ghost predicate Completable(env: Setting, s: Snapshot, attempt: nat) {
    && s.package && env.packageIntact(attempt) && env.planHolds(attempt)
    && CanInstallArtwork(s.artwork, s.parked)
  }

  ghost predicate Finished(env: Setting, s: Snapshot) {
    && s.verified
    && Live in s.databases && s.databases[Live] == Package(env.job)
    && s.artwork == Some(PackageArtwork)
    && s.journal.phase == Completed
  }

  /** Where an automatic retry starts: the original is live and nothing is parked. */
  ghost predicate LiveAtRetry(env: Setting, s: Snapshot) {
    && Live in s.databases && Previous(env.job) !in s.databases
    && (!s.dropped ==> s.databases[Live] == Original)
  }

  /** A restart finds an unfinished activation eligible exactly while it may retry, and can always roll it back. */
  lemma UnfinishedIsEligibleIff(env: Setting, s: Snapshot)
    requires Good(env, s) && env.probesTruthful && Unfinished(env, s)
    ensures Eligible(s.journal, s.staged) <==>
              s.journal.retryable && s.journal.automaticRetries < MAX_AUTOMATIC_RETRIES
    ensures RollbackScript(s.databases, Previous(env.job), Candidate(env.job)).Some?
    ensures var d := RollbackScript(s.databases, Previous(env.job), Candidate(env.job)).value;
            Live in d && Previous(env.job) !in d && (!s.dropped ==> d[Live] == Original)
  {
  }

  // ---- Durable steps ----------------------------------------------------

  /** Scripts on the candidate, the two renames either way, and the drop after verification. */
  ghost predicate CommitsScript(env: Setting, s: Snapshot, d: Catalog) {
    || d - {Candidate(env.job)} == s.databases - {Candidate(env.job)}
    || SwapScript(s.databases, Candidate(env.job), Previous(env.job)) == Some(d)
    || RollbackScript(s.databases, Previous(env.job), Candidate(env.job)) == Some(d)
    || (s.verified && d == Drop(s.databases, Previous(env.job)))
  }

  /** One rename, copy or removal of a directory. */
  ghost predicate MovesArtwork(s: Snapshot, installed: Option<Artwork>, aside: Option<Artwork>) {
    || (installed == None && aside == s.parked)
    || (s.parked == None && installed == None && aside == s.artwork)
    || (s.artwork == None && installed == Some(PackageArtwork) && aside == s.parked)
    || (s.artwork == None && installed == s.parked && aside == None)
    || (s.verified && installed == s.artwork && aside == None)
  }

  /** Retries are counted one by one, each where the original is live. */
  ghost predicate WritesJournal(env: Setting, s: Snapshot, t: Snapshot) {
    && t == s.(journal := t.journal)
    && (t.journal.automaticRetries != s.journal.automaticRetries ==>
          && t.journal.automaticRetries == s.journal.automaticRetries + 1
          && (env.probesTruthful ==> LiveAtRetry(env, t)))
  }

  ghost predicate RunsScript(env: Setting, s: Snapshot, t: Snapshot) {
    && t == s.(databases := t.databases, dropped := t.dropped)
    && CommitsScript(env, s, t.databases)
    && (t.dropped != s.dropped ==> t.dropped && s.verified)
  }

  ghost predicate MovesDirectory(s: Snapshot, t: Snapshot) {
    && t == s.(artwork := t.artwork, parked := t.parked, discarded := t.discarded)
    && MovesArtwork(s, t.artwork, t.parked)
    && (t.discarded != s.discarded ==> t.discarded && s.verified)
  }

  /** One durable step, or the ghost record that an attempt began or was verified. */
  ghost predicate DurableStep(env: Setting, s: Snapshot, t: Snapshot) {
    || t == s
    || WritesJournal(env, s, t)
    || t == s.(staged := t.staged)
    || (env.remote && t == s.(package := false))
    || RunsScript(env, s, t)
    || MovesDirectory(s, t)
    || (t == s.(verified := t.verified) && (t.verified ==> s.journal.phase == VerifyingHealth))
  }

  /** A run of durable steps through good states only. */
  ghost predicate IsRun(env: Setting, first: Snapshot, trace: seq<Snapshot>, now: Snapshot) {
    && trace != [] && trace[0] == first && trace[|trace| - 1] == now
    && (forall i :: 0 <= i < |trace| ==> Good(env, trace[i]))
    && (forall i :: 0 <= i < |trace| - 1 ==> DurableStep(env, trace[i], trace[i + 1]))
  }

  lemma RunGrows(env: Setting, first: Snapshot, trace: seq<Snapshot>, now: Snapshot, next: Snapshot)
    requires IsRun(env, first, trace, now) && Good(env, next) && DurableStep(env, now, next)
    ensures IsRun(env, first, trace + [next], next)
  {
    hide Good, DurableStep;
    var longer := trace + [next];
    forall i | 0 <= i < |longer| - 1 ensures DurableStep(env, longer[i], longer[i + 1]) {
      assert longer[i] == trace[i];
      if i < |trace| - 1 { assert longer[i + 1] == trace[i + 1]; }
    }
  }

  // ---- What holds of whole runs -----------------------------------------

  /** The steps of a run that count a retry. */
  ghost function RetrySteps(trace: seq<Snapshot>): nat {
    if |trace| < 2 then 0
    else
      RetrySteps(Init(trace))
      + (if trace[|trace| - 2].journal.automaticRetries != Last(trace).journal.automaticRetries then 1 else 0)
  }

  lemma RunShrinks(env: Setting, first: Snapshot, trace: seq<Snapshot>, now: Snapshot)
    requires IsRun(env, first, trace, now) && |trace| > 1
    ensures IsRun(env, first, Init(trace), trace[|trace| - 2])
    ensures DurableStep(env, trace[|trace| - 2], now)
  {
    hide Good, DurableStep;
    var shorter := Init(trace);
    forall i | 0 <= i < |shorter| - 1 ensures DurableStep(env, shorter[i], shorter[i + 1]) {
      assert shorter[i] == trace[i] && shorter[i + 1] == trace[i + 1];
    }
  }

  lemma StepCountsRetries(env: Setting, s: Snapshot, t: Snapshot)
    requires DurableStep(env, s, t)
    ensures t.journal.automaticRetries == s.journal.automaticRetries
            || t.journal.automaticRetries == s.journal.automaticRetries + 1
  {
  }

  /** Over any run of a job at most two automatic retries start. */
  lemma {:induction false} AtMostTwoRetries(env: Setting, first: Snapshot, trace: seq<Snapshot>, now: Snapshot)
    requires IsRun(env, first, trace, now)
    ensures RetrySteps(trace) == now.journal.automaticRetries - first.journal.automaticRetries <= MAX_AUTOMATIC_RETRIES
  {
    hide DurableStep, CommitsScript, MovesArtwork;
    if |trace| > 1 {
      RunShrinks(env, first, trace, now);
      StepCountsRetries(env, trace[|trace| - 2], now);
      AtMostTwoRetries(env, first, Init(trace), trace[|trace| - 2]);
    }
  }

  /** The original is given up only by dropping it out of a state in which the attempt is verified. */
  lemma {:induction false} OnlyVerifiedAttemptsDrop(env: Setting, first: Snapshot, trace: seq<Snapshot>, now: Snapshot)
    returns (i: nat)
    requires IsRun(env, first, trace, now) && !first.dropped && now.dropped
    ensures i < |trace| - 1 && !trace[i].dropped && trace[i].verified && trace[i + 1].dropped
  {
    var before := if |trace| > 1 then trace[|trace| - 2] else now;
    if |trace| > 1 {
      RunShrinks(env, first, trace, now);
    }
    if before.dropped {
      i := OnlyVerifiedAttemptsDrop(env, first, Init(trace), before);
    } else {
      i := |trace| - 2;
    }
  }

  // ---- Steps that keep the invariants -----------------------------------

  /** A step that only touches the candidate keeps everything while nothing is parked. */
  lemma CandidateStepIsGood(env: Setting, s: Snapshot, d: Catalog)
    requires Good(env, s) && (env.probesTruthful ==> Previous(env.job) !in s.databases)
    requires d - {Candidate(env.job)} == s.databases - {Candidate(env.job)}
    ensures Good(env, s.(databases := d))
    ensures Previous(env.job) in d <==> Previous(env.job) in s.databases
    ensures Live in d && d[Live] == s.databases[Live]
  {
    var own := {Live, Candidate(env.job), Previous(env.job)};
    assert Live in d - {Candidate(env.job)} <==> Live in d;
    assert forall k :: k != Candidate(env.job) ==>
             (k in d <==> k in d - {Candidate(env.job)}) && (k in d ==> d[k] == (d - {Candidate(env.job)})[k]);
    assert forall k :: k != Candidate(env.job) ==>
             (k in s.databases <==> k in s.databases - {Candidate(env.job)});
    assert d - own == s.databases - own;
  }

  /** Bringing the parked database back keeps every invariant and ends the activation. */
  lemma RollbackIsGood(env: Setting, s: Snapshot)
    requires Good(env, s)
    requires RollbackScript(s.databases, Previous(env.job), Candidate(env.job)).Some?
    ensures var d := RollbackScript(s.databases, Previous(env.job), Candidate(env.job)).value;
            && Good(env, s.(databases := d))
            && Previous(env.job) !in d && Live in d
            && d[Live] == s.databases[Previous(env.job)]
  {
    var d := RollbackScript(s.databases, Previous(env.job), Candidate(env.job)).value;
    var own := {Live, Candidate(env.job), Previous(env.job)};
    assert d - own == s.databases - own;
  }

  /** Every script leaves a live database. */
  lemma LiveAlwaysExists(env: Setting, s: Snapshot)
    requires Good(env, s)
    ensures Live in s.databases
  {
  }

  /** Artwork may move as long as the original stays installed or parked. */
  lemma ArtworkMoveIsGood(env: Setting, s: Snapshot, installed: Option<Artwork>, aside: Option<Artwork>)
    requires Good(env, s)
    requires !s.discarded && env.originalArtwork.Some? ==>
               installed == env.originalArtwork || aside == env.originalArtwork
    ensures Good(env, s.(artwork := installed, parked := aside))
  {
  }

  /** The staging directory may come and go while no unverified activation needs it. */
  lemma StagingIsGood(env: Setting, s: Snapshot, present: bool)
    requires Good(env, s) && (env.probesTruthful && Unfinished(env, s) ==> present)
    ensures Good(env, s.(staged := present))
  {
  }

  /** A job may be marked failed at any time, and completed once it is verified. */
  lemma ClosingIsGood(env: Setting, s: Snapshot, phase: Phase)
    requires Good(env, s) && (phase == Failed || (phase == Completed && s.verified))
    ensures Good(env, s.(journal := s.journal.(phase := phase)))
    ensures WritesJournal(env, s, s.(journal := s.journal.(phase := phase)))
  {
  }

  /** After verification the parked database can be dropped. */
  lemma DropIsGood(env: Setting, s: Snapshot)
    requires Good(env, s) && s.verified
    ensures var d := Drop(s.databases, Previous(env.job));
            && Good(env, s.(databases := d, dropped := true))
            && Live in d && d[Live] == s.databases[Live]
  {
    var d := Drop(s.databases, Previous(env.job));
    assert d - {Live, Candidate(env.job), Previous(env.job)}
        == s.databases - {Live, Candidate(env.job), Previous(env.job)};
  }
}

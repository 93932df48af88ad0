/**
 * Whole runs of the host commands of
 * apps/api/src/bin/riviamigo-restore-agent.rs: any commands in any order under
 * any fault schedule, and two runs that end badly.
 */
module HostRuns {
  import opened Common
  import opened DatabaseCatalog
  import opened Faults
  import opened HostRestore

  datatype Command = Restore | Activate | Finalize | Rollback

  /** The announced activation is neither confirmed nor undone. */
  predicate Interrupted(s: Snapshot) {
    s.file.Some? && s.file.value.activationStarted && !s.file.value.activated
  }

  ghost predicate SameJob(s: Snapshot, t: Snapshot) {
    t.latest == s.latest && t.job == s.job && t.replaced == s.replaced
  }

  /** What one command does between two states, whatever fails on the way. */
  ghost predicate CommandStep(truthful: bool, s: Snapshot, command: Command, outcome: Outcome, t: Snapshot)
    requires Live in s.databases && Live in t.databases
  {
    match command
    case Restore =>
      && t.databases[Live] == s.databases[Live]
      && (truthful && s.file.Some? ==> t == s && !outcome.Ok?)
      && (outcome.Ok? ==> t.job != s.job)
      && if t.job == s.job then t.file == s.file && t.replaced == s.replaced && t.finalizing == s.finalizing
         else t.file == Some(StateFile(t.job, false, false)) && !t.finalizing && NotSwapped(t)
    case Activate =>
      && SameJob(s, t) && t.finalizing == s.finalizing && (t.file.Some? <==> s.file.Some?)
      && (s.file.None? || s.file.value.activationStarted ==> t == s)
      && (outcome.Ok? ==> t.file.Some? && t.file.value.activated && !Interrupted(s))
      && (outcome.Ok? && !t.finalizing ==> (Swapped(t) <==> !RollbackAlreadyCommitted(t)))
    case Finalize =>
      && SameJob(s, t) && t.databases[Live] == s.databases[Live]
      && (s.file.None? || !s.file.value.activated ==> t == s && !outcome.Ok?)
      && (outcome.Ok? ==> t.file.None?)
    case Rollback =>
      && SameJob(s, t) && t.finalizing == s.finalizing
      && (s.file.None? ==> t == s && !outcome.Ok?)
      && (outcome.Ok? ==> t.file.None?)
      && (truthful && s.file.Some? && t.file.None? && !t.finalizing ==> NotSwapped(t))
  }

  /** The states between the commands of a run. */
  ghost predicate IsHistory(
    truthful: bool, states: seq<Snapshot>, commands: seq<Command>, outcomes: seq<Outcome>)
  {
    && |states| == |commands| + 1 && |outcomes| == |commands|
    && (forall i :: 0 <= i < |states| ==> Live in states[i].databases)
    && forall i :: 0 <= i < |commands| ==>
         CommandStep(truthful, states[i], commands[i], outcomes[i], states[i + 1])
  }

  /** Nothing but a rollback leaves an interrupted activation: every other command is refused and changes nothing. */
  lemma {:induction false} OnlyRollbackLeavesInterrupted(
    states: seq<Snapshot>, commands: seq<Command>, outcomes: seq<Outcome>, i: nat, j: nat)
    requires IsHistory(true, states, commands, outcomes) && i <= j <= |commands|
    requires Interrupted(states[i]) && forall k :: i <= k < j ==> commands[k] != Rollback
    ensures states[j] == states[i]
    ensures forall k :: i <= k < j ==> !outcomes[k].Ok?
    decreases j
  {
    if i < j {
      OnlyRollbackLeavesInterrupted(states, commands, outcomes, i, j - 1);
      assert CommandStep(true, states[j - 1], commands[j - 1], outcomes[j - 1], states[j]);
    }
  }

  /**
   * Unless something was finalized, a host without an open job has the database
   * it had before; so an Ok rollback has always brought back the original.
   */
  lemma {:induction false} ClosedHostKeepsLive(
    states: seq<Snapshot>, commands: seq<Command>, outcomes: seq<Outcome>, i: nat, j: nat)
    requires IsHistory(true, states, commands, outcomes) && i <= j <= |commands|
    requires states[i].file.None? && forall k :: i <= k < j ==> commands[k] != Finalize
    ensures if states[j].file.None? then states[j].databases[Live] == states[i].databases[Live]
            else !states[j].finalizing && states[j].replaced == states[i].databases[Live]
    ensures i < j && commands[j - 1] == Rollback && outcomes[j - 1].Ok? ==>
              states[j].databases[Live] == states[i].databases[Live]
    decreases j
  {
    if i < j {
      ClosedHostKeepsLive(states, commands, outcomes, i, j - 1);
      assert CommandStep(true, states[j - 1], commands[j - 1], outcomes[j - 1], states[j]);
    }
  }

  method RunCommand(host: Host, command: Command) returns (outcome: Outcome)
    requires host.Valid()
    modifies host
    ensures host.Valid() && old(host.trace) <= host.trace
    ensures Live in old(host.databases) && Live in host.databases
    ensures CommandStep(host.probesTruthful, old(host.Now()), command, outcome, host.Now())
  {
    hide IsRun;
    match command {
      case Restore => outcome := host.HostRestore();
      case Activate => outcome := host.HostActivate();
      case Finalize => outcome := host.HostFinalize();
      case Rollback => outcome := host.HostRollback();
    }
  }

  /**
   * Every order of host commands under every fault schedule, from a catalog
   * without restore databases: what holds of every state on the way, and what
   * each command did.
   */
  method RunCommands(weather: nat -> Fault, probesTruthful: bool, databases: Catalog, commands: seq<Command>)
    returns (host: Host, outcomes: seq<Outcome>, ghost states: seq<Snapshot>)
    requires Live in databases
    requires forall k: nat :: Candidate(k) !in databases && Previous(k) !in databases
    ensures fresh(host)
    ensures IsRun(Empty(databases), host.trace, host.Now())
    ensures forall i :: 0 <= i < |host.trace| ==> Safe(host.trace[i]) && Announced(host.trace[i])
    ensures IsHistory(probesTruthful, states, commands, outcomes)
    ensures states[0] == Empty(databases) && states[|commands|] == host.Now()
    ensures forall i :: 0 <= i < |states| ==> states[i] in host.trace
  {
    hide CommandStep;
    host := new Host(weather, probesTruthful, databases);
    outcomes, states := [], [host.Now()];
    for i := 0 to |commands|
      invariant fresh(host) && host.Valid() && host.probesTruthful == probesTruthful
      invariant host.initial == Empty(databases)
      invariant IsHistory(probesTruthful, states, commands[..i], outcomes)
      invariant states[0] == Empty(databases) && states[i] == host.Now()
      invariant forall k :: 0 <= k < |states| ==> states[k] in host.trace
    {
      ghost var before := host.trace;
      var outcome := RunCommand(host, commands[i]);
      InLonger(before, host.trace, states);
      outcomes, states := outcomes + [outcome], states + [host.Now()];
    }
    assert commands[..|commands|] == commands;
  }

  lemma InLonger<T>(before: seq<T>, longer: seq<T>, elements: seq<T>)
    requires before <= longer && forall k :: 0 <= k < |elements| ==> elements[k] in before
    ensures forall k :: 0 <= k < |elements| ==> elements[k] in longer
  {
    forall k | 0 <= k < |elements| ensures elements[k] in longer {
      var i :| 0 <= i < |before| && before[i] == elements[k];
      assert longer[i] == before[i];
    }
  }

  // ---- Two runs that end badly ------------------------------------------

  /**
   * A reachable dead end: a rollback cut after its rename. The original is
   * live and every later rollback fails, while activate and finalize still
   * answer Ok without touching the live database.
   */
  method CutRollbackCannotBeRepeated(databases: Catalog, later: nat)
    returns (host: Host, activated: Outcome, finalized: Outcome)
    requires Live in databases
    requires forall k: nat :: Candidate(k) !in databases && Previous(k) !in databases
    ensures fresh(host) && host.Valid()
    ensures host.trace[0] == Empty(databases)
    ensures exists i :: 0 <= i < |host.trace| && RollbackAlreadyCommitted(host.trace[i])
    ensures activated.Ok? && finalized.Ok? && host.file.None?
    ensures host.databases[Live] == databases[Live]
  {
    var crash := OnlyAt(12, CrashAfter);
    host := new Host(crash, true, databases);
    var restored := host.HostRestore();
    var swapped := host.HostActivate();
    var cut := host.HostRollback();
    assert cut.Crashed?;
    ghost var stuck, when := host.Now(), |host.trace| - 1;
    for i := 0 to later
      invariant fresh(host) && host.Valid() && host.weather == crash && host.Now() == stuck && 12 < host.clock
      invariant when < |host.trace| && host.trace[when] == stuck
    {
      var again := host.HostRollback();
      assert !again.Ok?;
    }
    activated := host.HostActivate();
    finalized := host.HostFinalize();
    assert RollbackAlreadyCommitted(host.trace[when]);
  }

  /**
   * And another, where the probe for the state file fails once and reads as
   * "no": a second restore replaces the state file of a swapped job. The
   * rollback that follows answers Ok, closes the host and leaves the first
   * package live; the original stays parked under a name no command knows.
   */
  method ErringProbeOrphansOriginal(databases: Catalog) returns (host: Host, rolledBack: Outcome)
    requires Live in databases
    requires forall k: nat :: Candidate(k) !in databases && Previous(k) !in databases
    ensures fresh(host) && host.Valid()
    ensures rolledBack.Ok? && host.file.None?
    ensures host.databases[Live] == Package(1)
    ensures Previous(1) in host.databases && host.databases[Previous(1)] == databases[Live]
    ensures host.job == 2
  {
    hide Good, IsRun;
    host := new Host(OnlyAt(11, FailBefore), false, databases);
    var restored := host.HostRestore();
    var swapped := host.HostActivate();
    assert host.job == 1 && host.clock == 11 && Swapped(host.Now()) && host.replaced == databases[Live];
    ghost var parked := host.databases;
    var replaced := host.HostRestore();
    assert host.job == 2 && host.clock == 16 && Previous(1) in parked - {Candidate(2)};
    assert host.databases[Previous(1)] == (host.databases - {Candidate(2)})[Previous(1)] == databases[Live];
    ghost var between := host.databases;
    rolledBack := host.HostRollback();
    var own := {Live, Candidate(2), Previous(2)};
    assert Previous(1) in between - own && (host.databases - own)[Previous(1)] == (between - own)[Previous(1)];
  }
}

/**
 * The host commands of apps/api/src/bin/riviamigo-restore-agent.rs:
 * host-restore, host-activate, host-finalize and host-rollback, run one at a
 * time and in any order, each of them possibly cut between any two writes.
 */
module HostRestore {
  import opened Common
  import opened DatabaseCatalog
  import opened Faults

  datatype StateFile = StateFile(job: nat, activationStarted: bool, activated: bool)

  /**
   * The durable state; `latest` numbers the jobs whose names have been taken.
   * Three facts are about the job announced last: its number, the contents that
   * were live then, and whether its finalize has begun.
   */
  datatype Snapshot = Snapshot(
    databases: Catalog,
    file: Option<StateFile>,
    latest: nat,
    job: nat,
    replaced: Contents,
    finalizing: bool)

  /** One durable step: a state-file write, a committed script, or a ghost fact about the job. */
  ghost predicate DurableStep(s: Snapshot, t: Snapshot) {
    || t == s
    || t == s.(file := t.file)
    || (t == s.(databases := t.databases) && CommitsScript(s, t.databases))
    || t == s.(latest := s.latest + 1)
    || (Live in s.databases && t == Announcing(s))
    || (s.file.Some? && s.file.value.activated && t == s.(finalizing := true))
  }

  /** The latest job is announced in the state file, whatever that held before. */
  ghost function Announcing(s: Snapshot): Snapshot
    requires Live in s.databases
  {
    Snapshot(s.databases, Some(StateFile(s.latest, false, false)), s.latest, s.latest, s.databases[Live], false)
  }

  /** The scripts of the host commands; only a finalize drops the previous database. */
  ghost predicate CommitsScript(s: Snapshot, d: Catalog) {
    || d - {Candidate(s.job)} == s.databases - {Candidate(s.job)}
    || d - {Candidate(s.latest)} == s.databases - {Candidate(s.latest)}
    || SwapScript(s.databases, Candidate(s.job), Previous(s.job)) == Some(d)
    || RollbackScript(s.databases, Previous(s.job), Candidate(s.job)) == Some(d)
    || (s.finalizing && d == Drop(s.databases, Previous(s.job)))
  }

  /** A run of durable steps through good states only. */
  ghost predicate IsRun(first: Snapshot, trace: seq<Snapshot>, now: Snapshot) {
    && trace != [] && trace[0] == first && trace[|trace| - 1] == now
    && (forall i :: 0 <= i < |trace| ==> Good(trace[i]))
    && (forall i :: 0 <= i < |trace| - 1 ==> DurableStep(trace[i], trace[i + 1]))
  }

  lemma RunGrows(first: Snapshot, trace: seq<Snapshot>, now: Snapshot, next: Snapshot)
    requires IsRun(first, trace, now) && Good(next) && DurableStep(now, next)
    ensures IsRun(first, trace + [next], next)
  {
    var longer := trace + [next];
    forall i | 0 <= i < |longer| - 1 ensures DurableStep(longer[i], longer[i + 1]) {
      assert longer[i] == trace[i];
      if i < |trace| - 1 { assert longer[i + 1] == trace[i + 1]; }
    }
  }

  /** The database that the announced job replaces stays reachable until its finalize. */
  ghost predicate Safe(s: Snapshot) {
    && Live in s.databases
    && (!s.finalizing ==>
          || s.databases[Live] == s.replaced
          || (Previous(s.job) in s.databases && s.databases[Previous(s.job)] == s.replaced))
  }

  ghost predicate NotSwapped(s: Snapshot) {
    && Live in s.databases && s.databases[Live] == s.replaced
    && Previous(s.job) !in s.databases
  }

  ghost predicate Swapped(s: Snapshot) {
    && Live in s.databases && s.databases[Live] == Package(s.job)
    && Previous(s.job) in s.databases && s.databases[Previous(s.job)] == s.replaced
    && Candidate(s.job) !in s.databases
  }

  /** A state file is written before the swap it announces. */
  ghost predicate Announced(s: Snapshot) {
    s.file.Some? ==>
      && s.file.value.job == s.job
      && (s.file.value.activated ==> s.file.value.activationStarted)
      && (s.finalizing ==> s.file.value.activated)
      && (!s.finalizing ==> NotSwapped(s) || (Swapped(s) && s.file.value.activationStarted))
      && (!s.finalizing && Candidate(s.job) in s.databases ==> s.databases[Candidate(s.job)] == Package(s.job))
  }

  ghost predicate NamesBeyondAreFree(s: Snapshot) {
    && s.job <= s.latest
    && (s.job < s.latest ==> Previous(s.latest) !in s.databases)
    && forall k: nat :: s.latest < k ==> Candidate(k) !in s.databases && Previous(k) !in s.databases
  }

  ghost predicate Good(s: Snapshot) {
    && Safe(s)
    && Announced(s)
    && NamesBeyondAreFree(s)
  }

  /** With a truthful probe, a rollback is refused by the catalog in this state only. */
  ghost predicate RollbackAlreadyCommitted(s: Snapshot) {
    s.file.Some? && s.file.value.activated && Previous(s.job) !in s.databases
  }

  lemma RollbackScriptRestores(s: Snapshot)
    requires Good(s) && s.file.Some? && !s.finalizing && Previous(s.job) in s.databases
    ensures RollbackScript(s.databases, Previous(s.job), Candidate(s.job)).Some?
    ensures var d := RollbackScript(s.databases, Previous(s.job), Candidate(s.job)).value;
            Good(s.(databases := d)) && NotSwapped(s.(databases := d))
  {
  }

  /** Dropping the candidate of an unfinished job keeps every invariant. */
  lemma DiscardIsGood(s: Snapshot)
    requires Good(s)
    ensures Good(s.(databases := Drop(s.databases, Candidate(s.job))))
    ensures Previous(s.job) in s.databases <==> Previous(s.job) in Drop(s.databases, Candidate(s.job))
    ensures NotSwapped(s) ==> NotSwapped(s.(databases := Drop(s.databases, Candidate(s.job))))
  {
  }

  /** A host on which no restore has been started. */
  ghost function Empty(databases: Catalog): Snapshot
    requires Live in databases
  {
    Snapshot(databases, None, 0, 0, databases[Live], false)
  }

  class Host {
    const weather: nat -> Fault
    const probesTruthful: bool
    ghost const initial: Snapshot
    var clock: nat
    var databases: Catalog
    var file: Option<StateFile>
    var latest: nat
    ghost var job: nat
    ghost var replaced: Contents
    ghost var finalizing: bool
    ghost var trace: seq<Snapshot>

    ghost function Now(): Snapshot
      reads this
    {
      Snapshot(databases, file, latest, job, replaced, finalizing)
    }

    /** The trace is a run of good states from the initial state to the present one. */
    ghost predicate Valid()
      reads this
    {
      Good(Now()) && IsRun(initial, trace, Now())
    }

    /** None of the next `steps` external steps fails. */
    ghost predicate CalmFor(steps: nat)
      reads this
    {
      forall t :: clock <= t < clock + steps ==> weather(t) == Calm
    }

    constructor (weather: nat -> Fault, probesTruthful: bool, databases: Catalog)
      requires Live in databases
      requires forall k: nat :: Candidate(k) !in databases && Previous(k) !in databases
      ensures Valid() && this.weather == weather && this.probesTruthful == probesTruthful
      ensures Now() == initial == Empty(databases)
      ensures clock == 0
    {
      this.weather, this.probesTruthful := weather, probesTruthful;
      this.clock, this.databases, this.file, this.latest := 0, databases, None, 0;
      this.job, this.replaced, this.finalizing := 0, databases[Live], false;
      this.initial := Empty(databases);
      this.trace := [Empty(databases)];
    }

    // ---- External steps -------------------------------------------------

    /** Appends the present state to the trace. */
    ghost method Record(before: Snapshot)
      requires IsRun(initial, trace, before) && Good(Now()) && DurableStep(before, Now())
      modifies this`trace
      ensures Valid() && trace == old(trace) + [Now()]
    {
      RunGrows(initial, trace, before, Now());
      trace := trace + [Now()];
    }

    method Aside() returns (r: Outcome)
      modifies this`clock
      ensures old(Valid()) ==> Valid()
      ensures clock == old(clock) + 1
      ensures r == Report(weather(old(clock)))
    {
      hide Good, IsRun;
      r := Report(weather(clock));
      clock := clock + 1;
    }

    method WriteFile(entry: Option<StateFile>) returns (r: Outcome)
      requires Valid() && Good(Now().(file := entry))
      modifies this`clock, this`file, this`trace
      ensures Valid() && clock == old(clock) + 1
      ensures file == if Happens(weather(old(clock))) then entry else old(file)
      ensures r == Report(weather(old(clock)))
      ensures trace == old(trace) + [Now()]
    {
      hide Good, IsRun;
      ghost var before := Now();
      if Happens(weather(clock)) {
        file := entry;
      }
      r := Report(weather(clock));
      clock := clock + 1;
      Record(before);
    }

    method RunScript(script: Option<Catalog>) returns (r: Outcome)
      requires Valid()
      requires script.Some? ==> Good(Now().(databases := script.value)) && CommitsScript(Now(), script.value)
      modifies this`clock, this`databases, this`trace
      ensures Valid() && clock == old(clock) + 1
      ensures databases == if Happens(weather(old(clock))) && script.Some? then script.value else old(databases)
      ensures r == TryReport(weather(old(clock)), script.Some?)
      ensures trace == old(trace) + [Now()]
    {
      hide Good, IsRun, CommitsScript;
      ghost var before := Now();
      var fault := weather(clock);
      if Happens(fault) && script.Some? {
        databases := script.value;
      }
      r := TryReport(fault, script.Some?);
      clock := clock + 1;
      Record(before);
    }

    /** `database_exists(..).await.unwrap_or(false)` and `try_exists(..).await.unwrap_or(false)`. */
    method ProbeOrFalse(present: bool) returns (r: Outcome, exists_: bool)
      modifies this`clock
      ensures old(Valid()) ==> Valid()
      ensures clock == old(clock) + 1
      ensures r == ProbeReport(weather(old(clock)))
      ensures exists_ == ProbeAnswer(weather(old(clock)), probesTruthful, present)
    {
      hide Good, IsRun;
      r := ProbeReport(weather(clock));
      exists_ := ProbeAnswer(weather(clock), probesTruthful, present);
      clock := clock + 1;
    }

    // ---- host-restore ---------------------------------------------------

    /** A script on the latest job's candidate, before that job swaps anything. */
    method CandidateScript(script: Option<Catalog>) returns (r: Outcome)
      requires Valid() && (job < latest || (!finalizing && NotSwapped(Now())))
      requires script.Some? ==> script.value - {Candidate(latest)} == databases - {Candidate(latest)}
      requires script.Some? && file.Some? && job == latest ==> Candidate(job) !in script.value
      modifies this`clock, this`databases, this`trace
      ensures Valid() && clock == old(clock) + 1 && trace == old(trace) + [Now()]
      ensures Live in databases && Live in old(databases) && databases[Live] == old(databases)[Live]
      ensures job == latest ==> NotSwapped(Now())
      ensures r.Ok? ==> script.Some? && databases == script.value
      ensures r == TryReport(weather(old(clock)), script.Some?)
    {
      hide IsRun;
      if script.Some? {
        assert forall k :: k != Candidate(latest) ==>
          (k in script.value <==> k in script.value - {Candidate(latest)}) &&
          (k in script.value ==> script.value[k] == (script.value - {Candidate(latest)})[k]);
        assert forall k :: k != Candidate(latest) ==> (k in databases <==> k in databases - {Candidate(latest)});
      }
      r := RunScript(script);
    }

    /** Writes the state file of the latest job. */
    method Announce() returns (r: Outcome)
      requires Valid() && job < latest
      requires Candidate(latest) in databases && databases[Candidate(latest)] == Package(latest)
      modifies this`clock, this`file, this`job, this`replaced, this`finalizing, this`trace
      ensures Valid() && clock == old(clock) + 1 && trace == old(trace) + [Now()]
      ensures r == Report(weather(old(clock)))
      ensures Live in databases
      ensures Now() == if Happens(weather(old(clock))) then Announcing(old(Now())) else old(Now())
      ensures Happens(weather(old(clock))) ==> NotSwapped(Now())
    {
      hide IsRun;
      ghost var before := Now();
      if Happens(weather(clock)) {
        file := Some(StateFile(latest, false, false));
        job, replaced, finalizing := latest, databases[Live], false;
      }
      r := Report(weather(clock));
      clock := clock + 1;
      Record(before);
    }

    /**
     * Prepares a candidate under fresh names and announces it in the state file.
     * A truthful probe refuses while an earlier job is open; one that errs lets
     * its state file be replaced.
     */
    method HostRestore() returns (r: Outcome)
      requires Valid()
      modifies this
      ensures Valid() && old(trace) <= trace && old(clock) < clock
      ensures old(file).Some? && (probesTruthful || old(CalmFor(1))) ==> Now() == old(Now()) && !r.Ok?
      ensures Live in databases && Live in old(databases) && databases[Live] == old(databases)[Live]
      ensures if job == old(job) then
                file == old(file) && replaced == old(replaced) && finalizing == old(finalizing)
              else
                && file == Some(StateFile(job, false, false))
                && replaced == databases[Live] && !finalizing && NotSwapped(Now())
      ensures r.Ok? ==>
                && job == latest == old(latest) + 1 && job != old(job)
                && Candidate(job) in databases && databases[Candidate(job)] == Package(job)
                && databases - {Candidate(job)} == old(databases) - {Candidate(job)}
      ensures old(CalmFor(5)) && old(file).None? ==> r.Ok?
      ensures ProbeErrsAhead(old(clock), old(Now())) ==> r.Ok?
      ensures r.Ok? ==> clock == old(clock) + 5 && Flawless(weather, old(clock), clock, old(clock))
    {
      r := Ok;
      hide IsRun;
      var open;
      r, open := ProbeOrFalse(file.Some?);
      if !r.Ok? { return; }
      if open {
        return Err;
      }
      :- Aside();
      ghost var before := Now();
      latest := latest + 1;
      Record(before);
      r := AnnounceCandidate();
    }

    /** The probe for the state file fails and reads as "no", and nothing else does. */
    ghost predicate ProbeErrsAhead(at: nat, s: Snapshot) {
      && !probesTruthful && s.file.Some? && weather(at) == FailBefore
      && forall t :: at < t < at + 5 ==> weather(t) == Calm
    }

    /** Load the package into the latest job's own candidate, then write the state file. */
    method AnnounceCandidate() returns (r: Outcome)
      requires Valid() && job < latest
      modifies this`clock, this`databases, this`file, this`job, this`replaced, this`finalizing, this`trace
      ensures Valid() && old(trace) <= trace && old(clock) < clock
      ensures Live in databases && Live in old(databases) && databases[Live] == old(databases)[Live]
      ensures if job == old(job) then
                file == old(file) && replaced == old(replaced) && finalizing == old(finalizing)
              else
                && job == latest && file == Some(StateFile(job, false, false))
                && replaced == databases[Live] && !finalizing && NotSwapped(Now())
      ensures r.Ok? ==>
                && job == latest
                && Candidate(job) in databases && databases[Candidate(job)] == Package(job)
                && databases - {Candidate(job)} == old(databases) - {Candidate(job)}
      ensures old(CalmFor(3)) ==> r.Ok?
      ensures r.Ok? ==> clock == old(clock) + 3 && Flawless(weather, old(clock), clock, clock)
    {
      hide Good, IsRun;
      r := LoadCandidate();
      if r.Ok? {
        r := Announce();
        if r.Err? {
          var dropped := CandidateScript(Some(Drop(databases, Candidate(latest))));
          r := if dropped.Cut() then dropped else Err;
        }
      }
    }

    /** Create the candidate and load the package; a failed load is dropped again. */
    method LoadCandidate() returns (r: Outcome)
      requires Valid() && job < latest
      modifies this`clock, this`databases, this`trace
      ensures Valid() && old(trace) <= trace && old(clock) < clock
      ensures Live in databases && Live in old(databases) && databases[Live] == old(databases)[Live]
      ensures r.Ok? ==>
                && Candidate(latest) in databases && databases[Candidate(latest)] == Package(latest)
                && databases - {Candidate(latest)} == old(databases) - {Candidate(latest)}
      ensures old(CalmFor(2)) ==> r.Ok?
      ensures r.Ok? ==> clock == old(clock) + 2 && Flawless(weather, old(clock), clock, clock)
    {
      r := Ok;
      hide Good, IsRun;
      :- CandidateScript(Some(databases[Candidate(latest) := Blank]));
      r := CandidateScript(Some(databases[Candidate(latest) := Package(latest)]));
      if r.Err? {
        var dropped := CandidateScript(Some(Drop(databases, Candidate(latest))));
        r := if dropped.Cut() then dropped else Err;
      }
    }

    // ---- host-activate --------------------------------------------------

    method SwapDatabases() returns (r: Outcome)
      requires Valid() && file.Some? && file.value.activationStarted && !finalizing && NotSwapped(Now())
      modifies this`clock, this`databases, this`trace
      ensures Valid() && clock == old(clock) + 1 && trace == old(trace) + [Now()]
      ensures r.Ok? ==> Swapped(Now())
      ensures r == TryReport(weather(old(clock)), Candidate(job) in old(databases))
      ensures if Happens(weather(old(clock))) && Candidate(job) in old(databases) then Swapped(Now())
              else databases == old(databases)
    {
      hide IsRun;
      var id := file.value.job;
      SwapCommitsIff(databases, Candidate(id), Previous(id));
      r := RunScript(SwapScript(databases, Candidate(id), Previous(id)));
    }

    /** Only the live database and those of the announced job may have changed. */
    ghost predicate OthersUnchanged(before: Catalog)
      reads this
    {
      databases - {Live, Candidate(job), Previous(job)} == before - {Live, Candidate(job), Previous(job)}
    }

    method RollbackDatabases() returns (r: Outcome)
      requires Valid() && file.Some?
      modifies this`clock, this`databases, this`trace
      ensures Valid() && clock == old(clock) + 1 && trace == old(trace) + [Now()]
      ensures OthersUnchanged(old(databases))
      ensures r.Ok? && !finalizing ==> NotSwapped(Now())
      ensures r.Ok? ==> weather(old(clock)) == Calm
      ensures Previous(job) !in old(databases) ==> !r.Ok? && databases == old(databases)
      ensures !finalizing && Previous(job) in old(databases) ==>
                && r == Report(weather(old(clock)))
                && (Happens(weather(old(clock))) ==> NotSwapped(Now()))
    {
      hide IsRun;
      if !finalizing && Previous(job) in databases {
        RollbackScriptRestores(Now());
      }
      r := RunScript(RollbackScript(databases, Previous(file.value.job), Candidate(file.value.job)));
    }

    /** The failure paths of host-activate: put the old database back, report the error. */
    method UndoActivation() returns (r: Outcome)
      requires Valid() && file.Some? && !finalizing && Swapped(Now())
      modifies this`clock, this`databases, this`trace
      ensures Valid() && old(trace) <= trace && old(clock) < clock && !r.Ok?
      ensures old(CalmFor(2)) ==> r.Err? && clock == old(clock) + 2 && NotSwapped(Now())
      ensures Happens(weather(old(clock))) ==> NotSwapped(Now())
    {
      r := Err;
      hide IsRun;
      :- RollbackDatabases();
      :- Aside();
      r := Err;
    }

    /** Step `t` is one of `steps` steps from `from` on, and nothing else fails before or soon after. */
    ghost predicate OnlyFault(from: nat, t: nat, steps: nat) {
      from <= t < from + steps && Flawless(weather, from, t + 3, t)
    }

    /** After an error at step `t` the replaced database is live, unless the swap itself took effect and erred. */
    ghost predicate UndoneAfter(t: nat, swap: nat)
      reads this
    {
      if t == swap && Happens(weather(t)) then Swapped(Now()) else NotSwapped(Now())
    }

    /**
     * Announce, swap, install artwork, confirm. Refuses an interrupted
     * activation; repeats a confirmed one as a success without looking at the
     * catalog, so it also says Ok where a rollback already renamed back.
     */
    method HostActivate() returns (r: Outcome)
      requires Valid()
      modifies this`clock, this`databases, this`file, this`trace
      ensures Valid() && old(trace) <= trace && old(clock) < clock
      ensures old(file).None? || old(file.value.activationStarted) ==> Now() == old(Now())
      ensures old(file).Some? && old(file.value.activationStarted) && !old(file.value.activated) ==> !r.Ok?
      ensures old(file).Some? ==> file.Some?
      ensures r.Ok? ==> file.Some? && file.value.activated
      ensures r.Ok? && !finalizing ==>
                && (Swapped(Now()) <==> !RollbackAlreadyCommitted(Now()))
                && databases[Live] == (if RollbackAlreadyCommitted(Now()) then replaced else Package(job))
      ensures r.Ok? ==> weather(old(clock)) == Calm
      ensures r.Ok? && !old(file.value.activationStarted) ==>
                Swapped(Now()) && clock == old(clock) + 6 && Flawless(weather, old(clock), clock, clock)
      ensures old(CalmFor(6)) && old(file).Some? && !old(file.value.activationStarted) ==>
                (r.Ok? <==> Candidate(job) in old(databases))
      ensures old(file).Some? && !old(file.value.activationStarted) && Candidate(job) in old(databases) ==>
                forall t: nat :: Erring(weather, t) && OnlyFault(old(clock), t, 6) ==>
                  r.Err? && UndoneAfter(t, old(clock) + 3)
      ensures old(CalmFor(1)) && old(file).Some? && old(file.value.activated) ==> r.Ok?
    {
      r := Ok;
      hide IsRun;
      :- Aside();
      if file.None? || file.value.activated {
        return if file.None? then Err else Ok;
      }
      if file.value.activationStarted {
        return Err;
      }
      r := AnnounceAndSwap();
    }

    /** Write the announcement, swap, install artwork, write the confirmation. */
    method AnnounceAndSwap() returns (r: Outcome)
      requires Valid() && file.Some? && !file.value.activationStarted
      modifies this`clock, this`databases, this`file, this`trace
      ensures Valid() && old(trace) <= trace && old(clock) < clock
      ensures file.Some?
      ensures r.Ok? ==>
                && file.value.activated && !finalizing && Swapped(Now())
                && clock == old(clock) + 5 && Flawless(weather, old(clock), clock, clock)
      ensures old(CalmFor(5)) ==> (r.Ok? <==> Candidate(job) in old(databases))
      ensures Candidate(job) in old(databases) ==>
                forall t: nat :: Erring(weather, t) && OnlyFault(old(clock), t, 5) ==>
                  r.Err? && UndoneAfter(t, old(clock) + 2)
    {
      r := Ok;
      hide IsRun;
      :- WriteFile(Some(file.value.(activationStarted := true)));
      :- Aside();
      :- SwapDatabases();
      r := ConfirmSwap();
    }

    /** Install artwork and write the confirmation, or swap back. */
    method ConfirmSwap() returns (r: Outcome)
      requires Valid() && !finalizing && Swapped(Now()) && file.Some? && file.value.activationStarted
      modifies this`clock, this`databases, this`file, this`trace
      ensures Valid() && old(trace) <= trace && old(clock) < clock
      ensures file.Some?
      ensures r.Ok? ==>
                && file.value.activated && Swapped(Now())
                && clock == old(clock) + 2 && Flawless(weather, old(clock), clock, clock)
      ensures old(CalmFor(2)) ==> r.Ok?
      ensures forall t: nat :: Erring(weather, t) && OnlyFault(old(clock), t, 2) ==> r.Err? && NotSwapped(Now())
    {
      hide IsRun;
      var artwork := Aside();
      if artwork.Cut() { return artwork; }
      if artwork.Err? {
        r := UndoActivation();
        return;
      }
      r := WriteFile(Some(file.value.(activated := true)));
      if r.Err? {
        r := UndoActivation();
      }
    }

    // ---- host-finalize and host-rollback --------------------------------

    /** Removes the state file; nothing else changes. */
    method CloseJob() returns (r: Outcome)
      requires Valid()
      modifies this`clock, this`file, this`trace
      ensures Valid() && old(trace) <= trace && old(clock) < clock
      ensures r.Ok? ==> file.None? && clock == old(clock) + 3
      ensures file == old(file) || file.None?
      ensures r.Ok? <==>
                !Report(weather(old(clock))).Cut() && Flawless(weather, old(clock) + 1, old(clock) + 3, old(clock))
    {
      hide IsRun;
      var unstaged := Aside();
      if unstaged.Cut() { return unstaged; }
      :- Aside();
      r := WriteFile(None);
    }

    /** Gives up the replaced database for good; needs a confirmed activation, but not that it still holds. */
    method HostFinalize() returns (r: Outcome)
      requires Valid()
      modifies this`clock, this`databases, this`file, this`finalizing, this`trace
      ensures Valid() && old(trace) <= trace
      ensures old(file).None? || !old(file.value.activated) ==> Now() == old(Now()) && !r.Ok?
      ensures databases[Live] == old(databases)[Live]
      ensures r.Ok? ==> file.None? && Previous(job) !in databases
      ensures r.Ok? && !old(finalizing) ==>
                databases[Live] == (if RollbackAlreadyCommitted(old(Now())) then replaced else Package(job))
      ensures old(file).Some? && old(file.value.activated) ==> (r.Ok? <==> Finalizes(old(clock)))
    {
      r := Ok;
      hide IsRun;
      :- Aside();
      if file.None? || !file.value.activated {
        return Err;
      }
      :- Aside();
      r := DropReplaced();
      if r.Ok? {
        r := CloseJob();
      }
    }

    /** All of a finalize works but perhaps the fourth and the fifth step, which may report an error. */
    ghost predicate Finalizes(from: nat) {
      && Flawless(weather, from, from + 3, from + 3) && Flawless(weather, from + 5, from + 7, from + 7)
      && !Report(weather(from + 3)).Cut() && !Report(weather(from + 4)).Cut()
    }

    /** From here on the replaced database is given up. */
    method DropReplaced() returns (r: Outcome)
      requires Valid() && file.Some? && file.value.activated
      modifies this`clock, this`databases, this`finalizing, this`trace
      ensures Valid() && old(trace) <= trace && old(clock) < clock
      ensures databases[Live] == old(databases)[Live]
      ensures r.Ok? ==> Previous(job) !in databases && clock == old(clock) + 2
      ensures r.Ok? <==> weather(old(clock)) == Calm && !Report(weather(old(clock) + 1)).Cut()
    {
      hide IsRun;
      ghost var before := Now();
      finalizing := true;
      Record(before);
      r := RunScript(Some(Drop(databases, Previous(file.value.job))));
      if r.Ok? {
        var cleared := Aside();
        r := if cleared.Cut() then cleared else Ok;
      }
    }

    /** The replaced database is parked, before any finalize. */
    ghost predicate SwapParked()
      reads this
    {
      !finalizing && Previous(job) in databases
    }

    /** Undo a swap if one committed, otherwise discard the candidate. */
    method UndoSwapOrDiscard() returns (r: Outcome)
      requires Valid() && file.Some?
      modifies this`clock, this`databases, this`trace
      ensures Valid() && old(trace) <= trace && old(clock) < clock <= old(clock) + 2
      ensures OthersUnchanged(old(databases))
      ensures r.Ok? && (probesTruthful || old(CalmFor(2))) && !finalizing ==> NotSwapped(Now())
      ensures old(CalmFor(2)) && !finalizing ==> (r.Ok? <==> !old(RollbackAlreadyCommitted(Now())))
      ensures RollbackAlreadyCommitted(old(Now())) && !finalizing ==> !r.Ok? && databases == old(databases)
      ensures r.Ok? && file.value.activated ==>
                clock == old(clock) + 2 && Flawless(weather, old(clock), clock, clock)
      ensures weather(old(clock)) == CrashAfter && file.value.activated && old(SwapParked()) ==>
                r.Crashed? && clock == old(clock) + 1 && NotSwapped(Now())
    {
      hide IsRun;
      var swapped := file.value.activated;
      if !swapped && file.value.activationStarted {
        var probe;
        probe, swapped := ProbeOrFalse(Previous(file.value.job) in databases);
        if probe.Cut() { return probe; }
      }
      if swapped {
        :- RollbackDatabases();
        if file.value.activated {
          :- Aside();
        }
        r := Ok;
      } else {
        DiscardIsGood(Now());
        r := RunScript(Some(Drop(databases, Candidate(file.value.job))));
      }
    }

    /** Whenever it returns Ok the replaced database is live again. */
    method HostRollback() returns (r: Outcome)
      requires Valid()
      modifies this`clock, this`databases, this`file, this`trace
      ensures Valid() && old(trace) <= trace && old(clock) < clock
      ensures old(file).None? ==> Now() == old(Now()) && !r.Ok?
      ensures OthersUnchanged(old(databases))
      ensures r.Ok? ==>
                && file.None? && weather(old(clock)) == Calm && old(clock) + 5 <= clock
                && weather(clock - 4) == Calm && Flawless(weather, clock - 2, clock, clock)
      ensures old(file).Some? && file.None? && (probesTruthful || old(CalmFor(7))) && !finalizing ==> NotSwapped(Now())
      ensures old(CalmFor(7)) && old(file).Some? && !finalizing ==>
                (r.Ok? <==> !RollbackAlreadyCommitted(old(Now())))
      ensures old(file).Some? && RollbackAlreadyCommitted(old(Now())) && !finalizing ==> Now() == old(Now()) && !r.Ok?
      ensures old(CalmFor(1)) && weather(old(clock) + 1) == CrashAfter
              && old(file).Some? && old(file.value.activated) && old(SwapParked()) ==>
                r.Crashed? && clock == old(clock) + 2 && file == old(file) && NotSwapped(Now())
    {
      r := Ok;
      hide IsRun;
      :- Aside();
      if file.None? {
        return Err;
      }
      :- UndoSwapOrDiscard();
      :- Aside();
      r := CloseJob();
    }
  }
}

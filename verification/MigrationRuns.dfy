/**
 * Any sequence of migration runs and baseline adoptions on one database, each
 * cut after any number of committed transactions: which databases end complete,
 * and when every migration has run exactly once.
 */
module MigrationRuns {
  import opened Common
  import opened MigrationLedger
  import opened MigrationCoordinator

  datatype Command = Migrate(commits: nat) | Rebaseline(commits: nat, confirm: bool, backupVerified: bool, quiet: bool)

  /** The command commits an adoption. */
  ghost predicate Adopts(catalog: seq<Migration>, describe: Schema -> string, db: Database, command: Command)
    requires catalog != []
  {
    && command.Rebaseline? && command.confirm && command.backupVerified && command.quiet
    && command.commits > 0 && Adoptable(catalog, describe, db)
  }

  /** Where one command leaves the database. */
  ghost function After(catalog: seq<Migration>, describe: Schema -> string, db: Database, command: Command): Database
    requires ValidCatalog(catalog)
  {
    match command
    case Migrate(commits) =>
      if Accepted(catalog, db) && Remaining(catalog, db) >= 0
      then Iterate(catalog, db, Least(commits, Remaining(catalog, db))) else db
    case Rebaseline(commits, _, _, _) =>
      if Adopts(catalog, describe, db, command)
      then Iterate(catalog, Adopted(catalog, db), Least(commits - 1, |catalog| - 1)) else db
  }

  ghost function Run(catalog: seq<Migration>, describe: Schema -> string, db: Database, schedule: seq<Command>)
    : Database
    requires ValidCatalog(catalog)
  {
    if schedule == [] then db
    else After(catalog, describe, Run(catalog, describe, db, Init(schedule)), Last(schedule))
  }

  lemma {:induction false} RunSnoc(
    catalog: seq<Migration>, describe: Schema -> string, db: Database, schedule: seq<Command>, command: Command)
    requires ValidCatalog(catalog)
    ensures Run(catalog, describe, db, schedule + [command])
            == After(catalog, describe, Run(catalog, describe, db, schedule), command)
  {
    assert Init(schedule + [command]) == schedule && Last(schedule + [command]) == command;
  }

  /** Accepted only while the ledger tells what ran. */
  ghost predicate Sound(catalog: seq<Migration>, db: Database)
    requires ValidCatalog(catalog)
  {
    Accepted(catalog, db) ==> Consistent(catalog, db)
  }

  /** Something ran that the ledger does not tell, and that no adoption can make good. */
  ghost predicate Spoilt(catalog: seq<Migration>, db: Database)
    requires ValidCatalog(catalog)
  {
    Accepted(catalog, db) && !Consistent(catalog, db) && MoreRan(catalog, db.schema)
  }

  /** One command: what it keeps, and what an adoption can break. */
  lemma {:induction false} CommandKeeps(
    catalog: seq<Migration>, describe: Schema -> string, db: Database, command: Command)
    requires ValidCatalog(catalog) && DescribesUsers(describe) && Stored(db)
    ensures var after := After(catalog, describe, db, command);
            && Stored(after)
            && (Accepted(catalog, db) ==> Accepted(catalog, after))
            && (MoreRan(catalog, db.schema) && Accepted(catalog, db) ==> MoreRan(catalog, after.schema))
    ensures !Adopts(catalog, describe, db, command) ==>
              var after := After(catalog, describe, db, command);
              if Accepted(catalog, db) then Consistent(catalog, after) <==> Consistent(catalog, db) else after == db
    ensures Adopts(catalog, describe, db, command) ==>
              var after := After(catalog, describe, db, command);
              && Accepted(catalog, after)
              && (Consistent(catalog, after) <==> OnlyBaselineRan(catalog, db.schema))
              && (!OnlyBaselineRan(catalog, db.schema) ==> MoreRan(catalog, after.schema))
  {
    hide Decide, Consistent, OnlyBaselineRan, Iterate, Adoptable, HasUsers, Stored;
    if Accepted(catalog, db) {
      CommitsMakeProgress(catalog, db);
    }
    match command {
      case Migrate(commits) =>
        if Accepted(catalog, db) {
          IterateStaysAccepted(catalog, db, Least(commits, Remaining(catalog, db)));
        }
      case Rebaseline(commits, _, _, _) =>
        if Adopts(catalog, describe, db, command) {
          AdoptedIsAccepted(catalog, describe, db);
          IterateStaysAccepted(catalog, Adopted(catalog, db), Least(commits - 1, |catalog| - 1));
        }
    }
  }

  /** No adoption commits where something behind the baseline has run. */
  ghost predicate NeverRewinds(
    catalog: seq<Migration>, describe: Schema -> string, db: Database, schedule: seq<Command>)
    requires ValidCatalog(catalog)
  {
    schedule != [] ==>
      var before := Run(catalog, describe, db, Init(schedule));
      && NeverRewinds(catalog, describe, db, Init(schedule))
      && (Adopts(catalog, describe, before, Last(schedule)) ==> OnlyBaselineRan(catalog, before.schema))
  }

  /** On a database whose ledger tells what ran, that can be read off the ledger. */
  lemma {:induction false} RewindShowsInLedger(catalog: seq<Migration>, describe: Schema -> string, db: Database)
    requires ValidCatalog(catalog) && Accepted(catalog, db) && Consistent(catalog, db)
    requires Adoptable(catalog, describe, db)
    ensures OnlyBaselineRan(catalog, db.schema) <==> |db.publicLedger.value| == 1
  {
    var k := AcceptedIsNearCanonical(catalog, db);
    UsableRowsAreCanonical(catalog, db.publicLedger.value, db.schema);
    assert |RowsFor(catalog[..1])| == 1;
  }

  /** Over any schedule the ledger goes on telling what ran if and only if no adoption rewinds it. */
  lemma {:induction false} SoundIffNeverRewound(
    catalog: seq<Migration>, describe: Schema -> string, db: Database, schedule: seq<Command>)
    requires ValidCatalog(catalog) && DescribesUsers(describe) && Stored(db) && Sound(catalog, db)
    ensures var last := Run(catalog, describe, db, schedule);
            && Stored(last)
            && (Accepted(catalog, db) ==> Accepted(catalog, last))
            && (Sound(catalog, last) <==> NeverRewinds(catalog, describe, db, schedule))
            && (!Sound(catalog, last) ==> Spoilt(catalog, last))
  {
    if schedule != [] {
      hide Accepted, Consistent, MoreRan, OnlyBaselineRan, Stored, Adopts, After, ValidCatalog, DescribesUsers;
      var before := Run(catalog, describe, db, Init(schedule));
      SoundIffNeverRewound(catalog, describe, db, Init(schedule));
      CommandKeeps(catalog, describe, before, Last(schedule));
    }
  }

  /** A database that the coordinator rejects is beyond every schedule exactly when it cannot be adopted. */
  lemma {:induction false} RejectedIsStuckIff(catalog: seq<Migration>, describe: Schema -> string, db: Database)
    requires ValidCatalog(catalog) && DescribesUsers(describe) && Stored(db) && !Accepted(catalog, db)
    ensures (forall schedule :: Run(catalog, describe, db, schedule) == db) <==> !Adoptable(catalog, describe, db)
  {
    if Adoptable(catalog, describe, db) {
      var adoption := Rebaseline(1, true, true, true);
      CommandKeeps(catalog, describe, db, adoption);
      RunSnoc(catalog, describe, db, [], adoption);
      assert Run(catalog, describe, db, []) == db;
      assert Run(catalog, describe, db, [] + [adoption]) != db;
    } else {
      forall schedule ensures Run(catalog, describe, db, schedule) == db {
        StaysRejected(catalog, describe, db, schedule);
      }
    }
  }

  lemma {:induction false} StaysRejected(
    catalog: seq<Migration>, describe: Schema -> string, db: Database, schedule: seq<Command>)
    requires ValidCatalog(catalog) && !Accepted(catalog, db) && !Adoptable(catalog, describe, db)
    ensures Run(catalog, describe, db, schedule) == db
  {
    if schedule != [] {
      StaysRejected(catalog, describe, db, Init(schedule));
    }
  }

  // ---- A rewind ---------------------------------------------------------

  /** An uncut adoption runs everything behind the baseline, whether or not it has run before. */
  lemma {:induction false} AdoptionRunsTheRest(catalog: seq<Migration>, describe: Schema -> string, db: Database)
    requires ValidCatalog(catalog) && DescribesUsers(describe) && Adoptable(catalog, describe, db)
    ensures var after := After(catalog, describe, db, Rebaseline(|catalog|, true, true, true));
            && Complete(catalog, after)
            && after.schema == db.schema.(done := db.schema.done + catalog[1..])
  {
    AdoptedIsAccepted(catalog, describe, db);
    IterateRunsTheRest(catalog, 1, db.schema, |catalog| - 1);
    assert catalog[..|catalog|] == catalog && catalog[1..|catalog|] == catalog[1..];
  }

  const EMPTY := Database(None, None, Applied([]))

  /** A migration run on an empty database that was cut behind its second commit. */
  lemma {:induction false} CutBehindSecond(catalog: seq<Migration>, describe: Schema -> string)
    requires ValidCatalog(catalog) && |catalog| > 2
    ensures Run(catalog, describe, EMPTY, [Migrate(2)]) == At(catalog, 2, Applied(catalog[..2]))
    ensures Accepted(catalog, EMPTY) && Consistent(catalog, EMPTY)
  {
    var baseline := At(catalog, 1, Applied(catalog[..1]));
    assert Init([Migrate(2)]) == [] && Run(catalog, describe, EMPTY, []) == EMPTY;
    assert [] + [catalog[0]] == catalog[..1];
    assert Successor(catalog, EMPTY) == baseline;
    assert HasUsers(Applied(catalog[..1])) by { assert catalog[0] in catalog[..1]; }
    FirstThenRest(catalog, EMPTY, 1);
    IterateRunsTheRest(catalog, 1, Applied(catalog[..1]), 1);
    assert catalog[..1] + catalog[1..2] == catalog[..2];
  }

  /**
   * If the second migration only writes rows, as 0002 does, the schema contract
   * is still that of the baseline, and an adoption runs the migration again.
   */
  lemma {:induction false} RewindRunsTwice(catalog: seq<Migration>, describe: Schema -> string)
    requires ValidCatalog(catalog) && DescribesUsers(describe)
    requires |catalog| > 2 && catalog[1].version == BASELINE_MIGRATION_VERSION + 1
    requires describe(Applied(catalog[..2])) == describe(Applied(catalog[..1]))
    ensures Adoptable(catalog, describe, Run(catalog, describe, EMPTY, [Migrate(2)]))
    ensures var last := Run(catalog, describe, EMPTY, [Migrate(2)] + [Rebaseline(|catalog|, true, true, true)]);
            && Complete(catalog, last)
            && last.schema == Applied(catalog[..2] + catalog[1..])
            && !RanOnce(catalog, last.schema)
  {
    hide Run, After;
    var db := At(catalog, 2, Applied(catalog[..2]));
    CutBehindSecond(catalog, describe);
    assert db.publicLedger.value == [RowsFor(catalog)[0], RowsFor(catalog)[1]];
    assert |Identities(db.publicLedger.value)| == 2;
    AdoptionRunsTheRest(catalog, describe, db);
    RunSnoc(catalog, describe, EMPTY, [Migrate(2)], Rebaseline(|catalog|, true, true, true));
  }

  // ---- The running programs ---------------------------------------------

  /** One command, cut or not. */
  method RunCommand(c: Coordinator, command: Command)
    requires ValidCatalog(c.catalog) && DescribesUsers(c.describe) && Stored(c.Contents())
    modifies c
    ensures c.Contents() == After(c.catalog, c.describe, old(c.Contents()), command)
  {
    hide Iterate, Decide, Remaining, Adoptable;
    ghost var db := c.Contents();
    c.commitsLeft := command.commits;
    match command {
      case Migrate(commits) =>
        var migrated := c.RunCurrentMigrations();
        if migrated != Rejected {
          CommitsMakeProgress(c.catalog, db);
        }
      case Rebaseline(commits, confirm, backupVerified, quiet) =>
        var adopted := c.Adopt(confirm, backupVerified, quiet);
    }
  }

  /**
   * Any schedule of commands and then one uncut migration run. An accepted
   * database always ends with the compiled catalog as its ledger, and if the
   * ledger told the truth at the start, every migration ran once exactly when no
   * adoption rewound it. A rejected database is adopted or untouched.
   */
  method Converge(c: Coordinator, schedule: seq<Command>) returns (outcome: Outcome)
    requires ValidCatalog(c.catalog) && DescribesUsers(c.describe) && Stored(c.Contents())
    modifies c
    ensures outcome != Crashed
    ensures outcome == Finished ==> Complete(c.catalog, c.Contents())
    ensures Accepted(c.catalog, old(c.Contents())) ==> outcome == Finished
    ensures outcome == Finished && Sound(c.catalog, old(c.Contents())) ==>
              (RanOnce(c.catalog, c.schema) <==> NeverRewinds(c.catalog, c.describe, old(c.Contents()), schedule))
    ensures outcome == Rejected ==>
              Decide(c.catalog, old(c.Contents())) == Reject && c.Contents() == old(c.Contents())
  {
    ghost var start := c.Contents();
    for i := 0 to |schedule|
      invariant Stored(c.Contents()) && (Accepted(c.catalog, start) ==> Accepted(c.catalog, c.Contents()))
      invariant Accepted(c.catalog, c.Contents()) || c.Contents() == start
      invariant c.Contents() == Run(c.catalog, c.describe, start, schedule[..i])
    {
      CommandKeeps(c.catalog, c.describe, c.Contents(), schedule[i]);
      assert Init(schedule[..i + 1]) == schedule[..i];
      RunCommand(c, schedule[i]);
    }
    assert schedule[..|schedule|] == schedule;
    ghost var db := c.Contents();
    if Sound(c.catalog, start) { SoundIffNeverRewound(c.catalog, c.describe, start, schedule); }
    c.commitsLeft := |c.catalog| + 1;
    outcome := c.RunCurrentMigrations();
    if outcome != Rejected {
      ghost var k := AcceptedIsNearCanonical(c.catalog, db);
      CommitsMakeProgress(c.catalog, db);
      IterateStaysAccepted(c.catalog, db, Remaining(c.catalog, db));
      CompleteRanTheCatalog(c.catalog, c.Contents());
    }
  }
}

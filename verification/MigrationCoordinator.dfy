/**
 * The migration coordinator (run_current_migrations_locked of
 * apps/api/src/db/migrations.rs), with the decision it takes, and the baseline
 * adoption tool (rebaseline_db) as updates of one database, each of which may
 * stop after any number of committed transactions.
 */
module MigrationCoordinator {
  import opened Common
  import opened MigrationLedger

  datatype Decision = Reject | Initialize | UsePublic | Relocate | DropLegacy

  datatype Outcome = Finished | Rejected | Crashed

  predicate HasUsers(schema: Schema) {
    match schema
    case Applied(done) => exists m :: m in done && m.version == BASELINE_MIGRATION_VERSION
    case Foreign(_, hasUsers, _) => hasUsers
  }

  function Extend(schema: Schema, m: Migration): Schema {
    schema.(done := schema.done + [m])
  }

  /** Every migration that ran; objects from elsewhere stand for the baseline. */
  ghost function Ran(catalog: seq<Migration>, schema: Schema): seq<Migration>
    requires catalog != []
  {
    if schema.Applied? then schema.done else [catalog[0]] + schema.done
  }

  /** The ledger reads without a failed row, validates, and its baseline is really there. */
  predicate Usable(catalog: seq<Migration>, rows: seq<Row>, schema: Schema) {
    && ReadLedger(rows).Some?
    && ValidateLedgerPrefix(catalog, Identities(rows)).None?
    && (HasUsers(schema)
        || forall m :: m in Identities(rows) ==> m.version != BASELINE_MIGRATION_VERSION)
  }

  /** The case analysis over which ledgers exist. */
  function Decide(catalog: seq<Migration>, db: Database): Decision {
    match (db.publicLedger, db.legacyLedger)
    case (None, None) => if db.schema == Applied([]) then Initialize else Reject
    case (Some(rows), None) => if Usable(catalog, rows, db.schema) then UsePublic else Reject
    case (None, Some(rows)) => if Usable(catalog, rows, db.schema) then Relocate else Reject
    case (Some(rows), Some(legacy)) =>
      if ReadLedger(legacy).None? || !Usable(catalog, rows, db.schema) then Reject
      else if legacy == [] then DropLegacy
      else if ValidateLedgerPrefix(catalog, Identities(legacy)).None? && Identities(rows) == Identities(legacy)
      then DropLegacy else Reject
  }

  ghost predicate Accepted(catalog: seq<Migration>, db: Database) {
    Stored(db) && Decide(catalog, db) != Reject
  }

  ghost predicate Complete(catalog: seq<Migration>, db: Database) {
    db.publicLedger == Some(RowsFor(catalog)) && db.legacyLedger == None
  }

  /** The ledger in force says exactly which migrations have run, and in which order. */
  ghost predicate Consistent(catalog: seq<Migration>, db: Database)
    requires catalog != []
  {
    match (db.publicLedger, db.legacyLedger)
    case (None, None) => db.schema == Applied([])
    case (Some(rows), _) => RowsFor(Ran(catalog, db.schema)) == rows
    case (None, Some(rows)) => RowsFor(Ran(catalog, db.schema)) == rows
  }

  // ---- One transaction at a time ----------------------------------------

  /** The state with the first `k` catalog entries applied and no legacy ledger. */
  ghost function At(catalog: seq<Migration>, k: nat, schema: Schema): Database
    requires k <= |catalog|
  {
    Database(Some(RowsFor(catalog[..k])), None, schema)
  }

  /** The next transaction that a coordinator starting afresh would commit. */
  ghost function NextCommit(catalog: seq<Migration>, db: Database): Option<Database> {
    match Decide(catalog, db)
    case Reject => None
    case Initialize =>
      if catalog == [] then None
      else Some(Database(Some(RowsFor(catalog[..1])), None, Extend(db.schema, catalog[0])))
    case Relocate => Some(db.(publicLedger := Some(RowsFor(Identities(db.legacyLedger.value))), legacyLedger := None))
    case DropLegacy => Some(db.(legacyLedger := None))
    case UsePublic =>
      var k := |db.publicLedger.value|;
      if k < |catalog|
      then Some(db.(publicLedger := Some(db.publicLedger.value + RowsFor([catalog[k]])),
                    schema := Extend(db.schema, catalog[k])))
      else None
  }

  ghost function Remaining(catalog: seq<Migration>, db: Database): int {
    match Decide(catalog, db)
    case Reject => 0
    case Initialize => |catalog|
    case UsePublic => |catalog| - |db.publicLedger.value|
    case Relocate => 1 + |catalog| - |db.legacyLedger.value|
    case DropLegacy => 1 + |catalog| - |db.publicLedger.value|
  }

  ghost function Successor(catalog: seq<Migration>, db: Database): Database {
    match NextCommit(catalog, db) case Some(after) => after case None => db
  }

  ghost function Repeat<T>(step: T -> T, start: T, n: nat): T {
    if n == 0 then start else step(Repeat(step, start, n - 1))
  }

  lemma {:induction false} RepeatAdds<T>(step: T -> T, start: T, m: nat, n: nat)
    ensures Repeat(step, Repeat(step, start, m), n) == Repeat(step, start, m + n)
  {
    if n != 0 { RepeatAdds(step, start, m, n - 1); }
  }

  ghost function CommitFrom(catalog: seq<Migration>): Database -> Database {
    (db: Database) => Successor(catalog, db)
  }

  /** The state after `n` commits, re-deciding before each of them. */
  ghost function Iterate(catalog: seq<Migration>, db: Database, n: nat): Database {
    Repeat(CommitFrom(catalog), db, n)
  }

  lemma RowsForSnoc(catalog: seq<Migration>, k: nat)
    requires k < |catalog|
    ensures RowsFor(catalog[..k]) + RowsFor([catalog[k]]) == RowsFor(catalog[..k + 1])
  {
  }

  /** A canonical state is decided as UsePublic and its next commit is the next catalog entry. */
  lemma CanonicalStep(catalog: seq<Migration>, k: nat, schema: Schema)
    requires ValidCatalog(catalog) && 0 < k <= |catalog| && HasUsers(schema)
    ensures Accepted(catalog, At(catalog, k, schema))
    ensures Decide(catalog, At(catalog, k, schema)) == UsePublic
    ensures Remaining(catalog, At(catalog, k, schema)) == |catalog| - k
    ensures NextCommit(catalog, At(catalog, k, schema))
            == if k < |catalog| then Some(At(catalog, k + 1, Extend(schema, catalog[k]))) else None
  {
    var rows := RowsFor(catalog[..k]);
    assert |rows| == k;
    assert forall i :: 0 <= i < k ==> rows[i] == Row(catalog[i], true);
    assert Identities(rows) == catalog[..k];
    if k < |catalog| { RowsForSnoc(catalog, k); }
  }

  /** An accepted state is canonical, or one commit away from it; its users table exists. */
  lemma AcceptedIsNearCanonical(catalog: seq<Migration>, db: Database) returns (k: nat)
    requires ValidCatalog(catalog) && Accepted(catalog, db)
    ensures 0 < k <= |catalog|
    ensures Decide(catalog, db) == UsePublic ==> db == At(catalog, k, db.schema) && HasUsers(db.schema)
    ensures Decide(catalog, db) != UsePublic ==>
              && NextCommit(catalog, db).Some?
              && NextCommit(catalog, db).value == At(catalog, k, NextCommit(catalog, db).value.schema)
              && HasUsers(NextCommit(catalog, db).value.schema)
    ensures Remaining(catalog, db)
            == |catalog| - k + (if Decide(catalog, db) == UsePublic then 0 else 1)
    ensures Decide(catalog, db) == Initialize ==>
              k == 1 && NextCommit(catalog, db).value.schema == Applied([catalog[0]])
    ensures Decide(catalog, db) == Relocate || Decide(catalog, db) == DropLegacy ==>
              NextCommit(catalog, db).value.schema == db.schema
  {
    match Decide(catalog, db) {
      case Initialize =>
        k := 1;
        assert [] + [catalog[0]] == [catalog[0]];
      case UsePublic =>
        k := |db.publicLedger.value|;
        UsableRowsAreCanonical(catalog, db.publicLedger.value, db.schema);
      case Relocate =>
        k := |db.legacyLedger.value|;
        UsableRowsAreCanonical(catalog, db.legacyLedger.value, db.schema);
      case DropLegacy =>
        k := |db.publicLedger.value|;
        UsableRowsAreCanonical(catalog, db.publicLedger.value, db.schema);
    }
  }

  lemma UsableRowsAreCanonical(catalog: seq<Migration>, rows: seq<Row>, schema: Schema)
    requires ValidCatalog(catalog) && StoredRows(rows) && Usable(catalog, rows, schema)
    ensures 0 < |rows| <= |catalog|
    ensures rows == RowsFor(catalog[..|rows|]) == RowsFor(Identities(rows))
    ensures HasUsers(schema)
  {
    StoredLedgerIsCatalogPrefix(catalog, rows);
    ValidatedLedgerIsCatalogPrefix(catalog, Identities(rows));
    assert Identities(rows)[0].version == BASELINE_MIGRATION_VERSION;
    assert Identities(rows)[0] in Identities(rows);
  }

  // ---- What is accepted, told by the tables themselves -------------------

  /** Successful rows that are exactly the first entries of the catalog, and at least one. */
  ghost predicate IsCatalogPrefix(catalog: seq<Migration>, rows: seq<Row>) {
    && 0 < |rows| <= |catalog|
    && forall i :: 0 <= i < |rows| ==>
         && rows[i].success
         && rows[i].migration.version == catalog[i].version
         && rows[i].migration.description == catalog[i].description
         && rows[i].migration.checksum == catalog[i].checksum
  }

  /** A database that the coordinator has to take up; any other it has to leave alone. */
  ghost predicate Recognized(catalog: seq<Migration>, db: Database) {
    match (db.publicLedger, db.legacyLedger)
    case (None, None) => db.schema == Applied([])
    case (Some(rows), None) => IsCatalogPrefix(catalog, rows) && HasUsers(db.schema)
    case (None, Some(rows)) => IsCatalogPrefix(catalog, rows) && HasUsers(db.schema)
    case (Some(rows), Some(legacy)) =>
      IsCatalogPrefix(catalog, rows) && HasUsers(db.schema) && (legacy == [] || legacy == rows)
  }

  lemma UsableIff(catalog: seq<Migration>, rows: seq<Row>, schema: Schema)
    requires ValidCatalog(catalog) && StoredRows(rows)
    ensures Usable(catalog, rows, schema) <==> IsCatalogPrefix(catalog, rows) && HasUsers(schema)
  {
    if Usable(catalog, rows, schema) {
      UsableRowsAreCanonical(catalog, rows, schema);
      assert forall i :: 0 <= i < |rows| ==> rows[i] == RowsFor(catalog[..|rows|])[i];
    }
    if IsCatalogPrefix(catalog, rows) && HasUsers(schema) {
      assert forall i :: 0 <= i < |rows| ==> Matches(Identities(rows)[i], catalog[i]);
    }
  }

  lemma SameRows(rows: seq<Row>, legacy: seq<Row>)
    requires ReadLedger(rows).Some? && ReadLedger(legacy).Some?
    ensures Identities(rows) == Identities(legacy) <==> rows == legacy
  {
    if Identities(rows) == Identities(legacy) {
      assert |rows| == |Identities(rows)| == |legacy|;
      forall i | 0 <= i < |rows| ensures rows[i] == legacy[i] {
        assert Identities(rows)[i] == Identities(legacy)[i];
        assert rows[i].success && legacy[i].success;
      }
    }
  }

  /** The coordinator accepts exactly the recognized databases. */
  lemma AcceptedIff(catalog: seq<Migration>, db: Database)
    requires ValidCatalog(catalog) && Stored(db)
    ensures Decide(catalog, db) != Reject <==> Recognized(catalog, db)
  {
    hide Usable, IsCatalogPrefix, HasUsers, StoredRows, ValidateLedgerPrefix;
    if db.publicLedger.Some? { UsableIff(catalog, db.publicLedger.value, db.schema); }
    if db.legacyLedger.Some? { UsableIff(catalog, db.legacyLedger.value, db.schema); }
    if db.publicLedger.Some? && db.legacyLedger.Some? {
      BothLedgersIff(catalog, db.publicLedger.value, db.legacyLedger.value, db.schema);
    }
  }

  /** Beside a usable public ledger a legacy one passes exactly when it is empty or the same. */
  lemma BothLedgersIff(catalog: seq<Migration>, rows: seq<Row>, legacy: seq<Row>, schema: Schema)
    requires ValidCatalog(catalog) && StoredRows(rows) && StoredRows(legacy)
    ensures (&& ReadLedger(legacy).Some? && Usable(catalog, rows, schema)
             && (legacy == []
                 || (&& ValidateLedgerPrefix(catalog, Identities(legacy)).None?
                     && Identities(rows) == Identities(legacy))))
            <==> Usable(catalog, rows, schema) && (legacy == [] || legacy == rows)
  {
    if Usable(catalog, rows, schema) && ReadLedger(legacy).Some? {
      SameRows(rows, legacy);
    }
  }

  /** Every commit keeps the state acceptable and brings completion one step nearer. */
  lemma CommitsMakeProgress(catalog: seq<Migration>, db: Database)
    requires ValidCatalog(catalog) && Accepted(catalog, db)
    ensures 0 <= Remaining(catalog, db)
    ensures NextCommit(catalog, db).None? <==> Remaining(catalog, db) == 0
    ensures NextCommit(catalog, db).Some? ==>
              && Accepted(catalog, NextCommit(catalog, db).value)
              && Remaining(catalog, NextCommit(catalog, db).value) == Remaining(catalog, db) - 1
    ensures Remaining(catalog, db) == 0 ==> Complete(catalog, db)
  {
    var k := AcceptedIsNearCanonical(catalog, db);
    if Decide(catalog, db) == UsePublic {
      CanonicalStep(catalog, k, db.schema);
      assert catalog[..|catalog|] == catalog;
      if k < |catalog| {
        CanonicalStep(catalog, k + 1, Extend(db.schema, catalog[k]));
      }
    } else {
      CanonicalStep(catalog, k, NextCommit(catalog, db).value.schema);
    }
  }

  lemma RanSnoc(catalog: seq<Migration>, schema: Schema, m: Migration)
    requires catalog != []
    ensures Ran(catalog, Extend(schema, m)) == Ran(catalog, schema) + [m]
    ensures RowsFor(Ran(catalog, Extend(schema, m))) == RowsFor(Ran(catalog, schema)) + RowsFor([m])
  {
  }

  lemma SameLast<T>(s: seq<T>, t: seq<T>, x: seq<T>)
    ensures s + x == t + x <==> s == t
  {
    if s + x == t + x {
      assert |s| == |t|;
      assert s == (s + x)[..|s|] && t == (t + x)[..|t|];
    }
  }

  /** No commit runs a migration twice or records one that did not run, and none hides that this happened before. */
  lemma CommitsKeepConsistency(catalog: seq<Migration>, db: Database)
    requires ValidCatalog(catalog) && Accepted(catalog, db)
    ensures Consistent(catalog, Successor(catalog, db)) <==> Consistent(catalog, db)
  {
    var k := AcceptedIsNearCanonical(catalog, db);
    match Decide(catalog, db) {
      case UsePublic =>
        if k < |catalog| {
          RanSnoc(catalog, db.schema, catalog[k]);
          SameLast(RowsFor(Ran(catalog, db.schema)), db.publicLedger.value, RowsFor([catalog[k]]));
        }
      case Initialize => assert catalog[..1] == [catalog[0]] == [] + [catalog[0]];
      case Relocate => UsableRowsAreCanonical(catalog, db.legacyLedger.value, db.schema);
      case DropLegacy =>
    }
  }

  /** Only the baseline has run so far. */
  ghost predicate OnlyBaselineRan(catalog: seq<Migration>, schema: Schema)
    requires catalog != []
  {
    RowsFor(Ran(catalog, schema)) == RowsFor(catalog[..1])
  }

  /** A schema with users on which something else than the baseline ran. */
  ghost predicate MoreRan(catalog: seq<Migration>, schema: Schema)
    requires catalog != []
  {
    HasUsers(schema) && !OnlyBaselineRan(catalog, schema)
  }

  /** What ran is never forgotten. */
  lemma CommitsKeepHistory(catalog: seq<Migration>, db: Database)
    requires ValidCatalog(catalog) && Accepted(catalog, db)
    ensures MoreRan(catalog, db.schema) ==> MoreRan(catalog, Successor(catalog, db).schema)
  {
    var k := AcceptedIsNearCanonical(catalog, db);
    if Decide(catalog, db) == UsePublic && k < |catalog| {
      RanSnoc(catalog, db.schema, catalog[k]);
      assert Ran(catalog, db.schema) != [];
      assert |RowsFor(Ran(catalog, Extend(db.schema, catalog[k])))| >= 2;
    }
  }

  /** Crashing after any number of commits leaves an accepted state, as consistent as it was. */
  lemma {:induction false} IterateStaysAccepted(catalog: seq<Migration>, db: Database, n: nat)
    requires ValidCatalog(catalog) && Accepted(catalog, db)
    ensures var after := Iterate(catalog, db, n);
            && Accepted(catalog, after)
            && Remaining(catalog, after) == (if n <= Remaining(catalog, db) then Remaining(catalog, db) - n else 0)
            && (Consistent(catalog, after) <==> Consistent(catalog, db))
            && (MoreRan(catalog, db.schema) ==> MoreRan(catalog, after.schema))
  {
    hide NextCommit, Accepted, Remaining, Consistent, ValidCatalog, MoreRan;
    CommitsMakeProgress(catalog, db);
    if n != 0 {
      var before := Iterate(catalog, db, n - 1);
      IterateStaysAccepted(catalog, db, n - 1);
      CommitsMakeProgress(catalog, before);
      CommitsKeepConsistency(catalog, before);
      CommitsKeepHistory(catalog, before);
    }
  }

  /** Behind a canonical prefix the commits run the rest of the catalog, one entry each. */
  lemma {:induction false} IterateRunsTheRest(catalog: seq<Migration>, k: nat, schema: Schema, n: nat)
    requires ValidCatalog(catalog) && 0 < k && k + n <= |catalog| && HasUsers(schema)
    ensures var after := schema.(done := schema.done + catalog[k..k + n]);
            Iterate(catalog, At(catalog, k, schema), n) == At(catalog, k + n, after) && HasUsers(after)
  {
    hide NextCommit, Decide, ValidCatalog;
    if n == 0 {
      assert schema.done + catalog[k..k] == schema.done;
    } else {
      IterateRunsTheRest(catalog, k, schema, n - 1);
      CanonicalStep(catalog, k + n - 1, schema.(done := schema.done + catalog[k..k + n - 1]));
      assert schema.done + catalog[k..k + n - 1] + [catalog[k + n - 1]] == schema.done + catalog[k..k + n];
    }
  }

  /** Every migration of the catalog ran exactly once, in order. */
  ghost predicate RanOnce(catalog: seq<Migration>, schema: Schema)
    requires catalog != []
  {
    var ran := Ran(catalog, schema);
    |ran| == |catalog| && forall i :: 0 <= i < |catalog| ==> Matches(ran[i], catalog[i])
  }

  /** A complete database has run exactly the catalog if and only if it is consistent. */
  lemma CompleteRanTheCatalog(catalog: seq<Migration>, db: Database)
    requires ValidCatalog(catalog) && Complete(catalog, db)
    ensures Consistent(catalog, db) <==> RanOnce(catalog, db.schema)
  {
    var rows, ran := RowsFor(catalog), Ran(catalog, db.schema);
    assert |rows| == |catalog| && |RowsFor(ran)| == |ran|;
    if RowsFor(ran) == rows {
      forall i | 0 <= i < |catalog| ensures Matches(ran[i], catalog[i]) {
        assert RowsFor(ran)[i] == rows[i];
      }
    }
  }

  // ---- Baseline adoption ------------------------------------------------

  /** Non-empty, successful, and contiguous from a positive version on. */
  predicate LedgerVerifies(rows: seq<Row>) {
    && rows != []
    && (forall i :: 0 <= i < |rows| ==> rows[i].success)
    && rows[0].migration.version >= 1
    && forall i :: 0 < i < |rows| ==> rows[i].migration.version == rows[i - 1].migration.version + 1
  }

  /** verify_existing_ledger: exactly one ledger, and that one verifies. */
  predicate ExistingLedgerVerifies(db: Database) {
    && (db.publicLedger.Some? <==> db.legacyLedger.None?)
    && LedgerVerifies(if db.publicLedger.Some? then db.publicLedger.value else db.legacyLedger.value)
  }

  /** is_adopted: the public ledger already equals the compiled catalog. */
  predicate IsAdopted(catalog: seq<Migration>, db: Database) {
    db.publicLedger.Some? && Identities(db.publicLedger.value) == catalog
  }

  /**
   * `describe` is schema_contract_description on the application's own objects.
   * It lists tables, so it tells whether there is a users table, but neither
   * rows nor which migrations made them.
   */
  ghost predicate DescribesUsers(describe: Schema -> string) {
    forall s, t :: describe(s) == describe(t) ==> HasUsers(s) == HasUsers(t)
  }

  /** The whole contract: a legacy ledger is one more table of schema riviamigo. */
  function LiveContract(describe: Schema -> string, db: Database): (string, bool) {
    (describe(db.schema), db.legacyLedger.Some?)
  }

  /** The contract of a scratch database with the baseline alone. */
  function BaselineContract(catalog: seq<Migration>, describe: Schema -> string): (string, bool)
    requires catalog != []
  {
    (describe(Applied(catalog[..1])), false)
  }

  /** What adoption checks, apart from the operator's confirmation and evidence. */
  predicate Adoptable(catalog: seq<Migration>, describe: Schema -> string, db: Database)
    requires catalog != []
  {
    && !IsAdopted(catalog, db)
    && ExistingLedgerVerifies(db)
    && LiveContract(describe, db) == BaselineContract(catalog, describe)
  }

  /** Successful rows with consecutive versions, the first of them at least one. */
  ghost predicate IsContiguous(rows: seq<Row>) {
    && rows != [] && rows[0].migration.version >= 1
    && forall i :: 0 <= i < |rows| ==>
         rows[i].success && rows[i].migration.version == rows[0].migration.version + i
  }

  /** What can be adopted, told by the tables themselves: a contiguous public ledger on the baseline's contract. */
  lemma AdoptableIff(catalog: seq<Migration>, describe: Schema -> string, db: Database)
    requires catalog != []
    ensures Adoptable(catalog, describe, db) <==>
              && db.legacyLedger.None? && db.publicLedger.Some? && IsContiguous(db.publicLedger.value)
              && describe(db.schema) == describe(Applied([catalog[0]]))
              && var rows := db.publicLedger.value;
                 |rows| != |catalog| || exists i :: 0 <= i < |rows| && rows[i].migration != catalog[i]
  {
    hide IsContiguous, LedgerVerifies;
    assert catalog[..1] == [catalog[0]];
    if db.publicLedger.Some? {
      SameIdentitiesIff(db.publicLedger.value, catalog);
      VerifiesIffContiguous(db.publicLedger.value);
    }
  }

  lemma VerifiesIffContiguous(rows: seq<Row>)
    ensures LedgerVerifies(rows) <==> IsContiguous(rows)
  {
    if LedgerVerifies(rows) {
      forall i | 0 <= i < |rows| ensures rows[i].migration.version == rows[0].migration.version + i {
        VersionAt(rows, i);
      }
    }
  }

  lemma SameIdentitiesIff(rows: seq<Row>, catalog: seq<Migration>)
    ensures Identities(rows) != catalog
            <==> |rows| != |catalog| || exists i :: 0 <= i < |rows| && rows[i].migration != catalog[i]
  {
    if Identities(rows) == catalog {
      assert forall i :: 0 <= i < |rows| ==> rows[i].migration == Identities(rows)[i];
    } else if |rows| == |catalog| {
      assert exists i :: 0 <= i < |rows| && Identities(rows)[i] != catalog[i];
    }
  }

  lemma {:induction false} VersionAt(rows: seq<Row>, i: nat)
    requires i < |rows| && LedgerVerifies(rows)
    ensures rows[i].migration.version == rows[0].migration.version + i
  {
    if i > 0 {
      VersionAt(rows, i - 1);
    }
  }

  /** What the adoption transaction commits. */
  ghost function Adopted(catalog: seq<Migration>, db: Database): Database
    requires catalog != []
  {
    Database(Some(RowsFor(catalog[..1])), None, db.schema)
  }

  /** From the adoption's commit on, the coordinator can finish the job. */
  lemma {:induction false} AdoptedIsAccepted(catalog: seq<Migration>, describe: Schema -> string, db: Database)
    requires ValidCatalog(catalog) && DescribesUsers(describe) && Adoptable(catalog, describe, db)
    ensures HasUsers(db.schema)
    ensures Accepted(catalog, Adopted(catalog, db))
    ensures Consistent(catalog, Adopted(catalog, db)) <==> OnlyBaselineRan(catalog, db.schema)
    ensures Decide(catalog, Adopted(catalog, db)) == UsePublic
    ensures Remaining(catalog, Adopted(catalog, db)) == |catalog| - 1
  {
    assert catalog[..1][0] in catalog[..1];
    assert HasUsers(Applied(catalog[..1]));
    CanonicalStep(catalog, 1, db.schema);
  }

  /** A database whose only ledger is the legacy one is never adopted: its ledger table shows in the contract. */
  lemma {:induction false} LegacyLedgerIsNeverAdopted(catalog: seq<Migration>, describe: Schema -> string, db: Database)
    requires catalog != [] && Adoptable(catalog, describe, db)
    ensures db.publicLedger.Some? && db.legacyLedger.None?
  {
  }

  // ---- The running programs ---------------------------------------------

  function Least(a: nat, b: int): int { if a <= b then a else b }

  class Coordinator {
    const catalog: seq<Migration>
    const describe: Schema -> string
    var publicLedger: Option<seq<Row>>
    var legacyLedger: Option<seq<Row>>
    var schema: Schema
    /** How many more transactions commit before the process dies. */
    var commitsLeft: nat

    ghost function Contents(): Database
      reads this
    {
      Database(publicLedger, legacyLedger, schema)
    }

    constructor (catalog: seq<Migration>, describe: Schema -> string, db: Database)
      ensures this.catalog == catalog && this.describe == describe && Contents() == db
    {
      this.catalog, this.describe := catalog, describe;
      publicLedger, legacyLedger, schema := db.publicLedger, db.legacyLedger, db.schema;
      commitsLeft := 0;
    }

    /** replace_ledger_in_transaction; visible only once the caller commits. */
    method ReplaceLedger(source: seq<Migration>)
      modifies this`publicLedger, this`legacyLedger
      ensures publicLedger == Some(RowsFor(source)) && legacyLedger == None
    {
      legacyLedger := None;
      publicLedger := Some([]);
      assert source[..0] == [] && RowsFor([]) == [];
      for i := 0 to |source|
        invariant publicLedger == Some(RowsFor(source[..i])) && legacyLedger == None
      {
        var inserted := Row(source[i].(checksum := Canonical(source[i].checksum)), true);
        publicLedger := Some(publicLedger.value + [inserted]);
        assert RowsFor(source[..i]) + [inserted] == RowsFor(source[..i + 1]);
      }
      assert source[..|source|] == source;
    }

    /** One migration and its ledger row, in one transaction. */
    method ApplyOne(m: Migration, ghost k: nat)
      requires ValidCatalog(catalog) && 0 < k < |catalog| && m == catalog[k] && HasUsers(schema)
      requires Contents() == At(catalog, k, schema) && 0 < commitsLeft
      modifies this
      ensures Contents() == Successor(catalog, old(Contents())) == At(catalog, k + 1, schema)
      ensures HasUsers(schema) && commitsLeft == old(commitsLeft) - 1
    {
      CanonicalStep(catalog, k, schema);
      var row := Row(m.(checksum := Canonical(m.checksum)), true);
      assert RowsFor([m]) == [row];
      RowsForSnoc(catalog, k);
      publicLedger := Some(publicLedger.value + [row]);
      schema := Extend(schema, m);
      commitsLeft := commitsLeft - 1;
    }

    /** restore_ledger: accepts exactly the compiled prefixes, whatever case their checksums use. */
    method RestoreLedger(source: seq<Migration>) returns (fault: Option<LedgerFault>)
      requires ValidCatalog(catalog)
      modifies this`publicLedger, this`legacyLedger
      ensures fault.None? <==> source != [] && MatchesPrefix(catalog, source)
      ensures fault.None? ==>
                publicLedger == Some(RowsFor(catalog[..|source|])) && legacyLedger == None
      ensures fault.Some? ==> publicLedger == old(publicLedger) && legacyLedger == old(legacyLedger)
    {
      fault := ValidateLedgerPrefix(catalog, source);
      if fault.None? {
        ReplaceLedger(source);
        ValidatedLedgerIsCatalogPrefix(catalog, source);
      }
    }

    /** MIGRATOR.run: every catalog entry whose version is not recorded, one transaction each. */
    method ApplyPending(ghost k: nat) returns (outcome: Outcome)
      requires ValidCatalog(catalog) && 0 < k <= |catalog| && HasUsers(schema)
      requires Contents() == At(catalog, k, schema)
      modifies this
      ensures Contents() == Iterate(catalog, old(Contents()), Least(old(commitsLeft), |catalog| - k))
      ensures outcome == if old(commitsLeft) >= |catalog| - k then Finished else Crashed
      ensures outcome == Finished ==> Complete(catalog, Contents())
    {
      hide NextCommit, Decide;
      var pending := Pending(catalog, Identities(publicLedger.value));
      assert Identities(RowsFor(catalog[..k])) == catalog[..k];
      PendingIsSuffix(catalog, k);
      for i := 0 to |pending|
        invariant pending == catalog[k..] && HasUsers(schema)
        invariant commitsLeft == old(commitsLeft) - i
        invariant Contents() == At(catalog, k + i, schema)
        invariant Contents() == Iterate(catalog, old(Contents()), i)
      {
        if commitsLeft == 0 {
          return Crashed;
        }
        ApplyOne(pending[i], k + i);
      }
      assert catalog[..|catalog|] == catalog;
      outcome := Finished;
    }

    /** The transaction that brings an accepted database to one public ledger. */
    method CommitDecision(decision: Decision)
      requires ValidCatalog(catalog) && Accepted(catalog, Contents()) && 0 < commitsLeft
      requires decision == Decide(catalog, Contents()) && decision != UsePublic
      modifies this
      ensures Contents() == Successor(catalog, old(Contents()))
      ensures commitsLeft == old(commitsLeft) - 1
    {
      match decision {
        case Initialize =>
          schema := Extend(schema, catalog[0]);
          ReplaceLedger([catalog[0]]);
          assert catalog[..1] == [catalog[0]];
        case Relocate => ReplaceLedger(Identities(legacyLedger.value));
        case DropLegacy => legacyLedger := None;
      }
      commitsLeft := commitsLeft - 1;
    }

    /** run_current_migrations_locked. */
    method RunCurrentMigrations() returns (outcome: Outcome)
      requires ValidCatalog(catalog) && Stored(Contents())
      modifies this
      ensures outcome == Rejected <==> Decide(catalog, old(Contents())) == Reject
      ensures outcome == Rejected <==> !Recognized(catalog, old(Contents()))
      ensures outcome == Rejected ==> Contents() == old(Contents())
      ensures outcome != Rejected ==>
                Contents() == Iterate(catalog, old(Contents()),
                                      Least(old(commitsLeft), Remaining(catalog, old(Contents()))))
      ensures outcome == Finished ==> Complete(catalog, Contents())
      ensures outcome == Crashed ==> old(commitsLeft) < Remaining(catalog, old(Contents()))
    {
      hide Recognized;
      ghost var db := Contents();
      var decision := Decide(catalog, Database(publicLedger, legacyLedger, schema));
      AcceptedIff(catalog, db);
      if decision == Reject {
        return Rejected;
      }
      ghost var k := AcceptedIsNearCanonical(catalog, db);
      if decision == UsePublic {
        outcome := ApplyPending(k);
        return;
      }
      if commitsLeft == 0 {
        return Crashed;
      }
      CommitDecision(decision);
      FirstThenRest(catalog, db, Least(commitsLeft, |catalog| - k));
      outcome := ApplyPending(k);
    }

    ghost predicate Adopts(confirm: bool, backupVerified: bool, quiet: bool)
      requires catalog != []
      reads this
    {
      confirm && backupVerified && quiet && commitsLeft > 0 && Adoptable(catalog, describe, Contents())
    }

    /** rebaseline_db: adopt the baseline, then run the migrations added after it. */
    method Adopt(confirm: bool, backupVerified: bool, quiet: bool) returns (outcome: Outcome)
      requires ValidCatalog(catalog) && DescribesUsers(describe)
      modifies this
      ensures !old(Adopts(confirm, backupVerified, quiet)) ==> Contents() == old(Contents())
      ensures outcome == Rejected <==>
                && !IsAdopted(catalog, old(Contents()))
                && !(Adoptable(catalog, describe, old(Contents())) && quiet && (confirm ==> backupVerified))
      ensures old(Adopts(confirm, backupVerified, quiet)) ==>
                && Contents() == Iterate(catalog, Adopted(catalog, old(Contents())),
                                         Least(old(commitsLeft) - 1, |catalog| - 1))
                && (outcome == Finished ==> Complete(catalog, Contents()))
                && (outcome == Finished <==> old(commitsLeft) >= |catalog|)
    {
      ghost var db := Contents();
      var seen := Database(publicLedger, legacyLedger, schema);
      if IsAdopted(catalog, seen) {
        return Finished;
      }
      if !ExistingLedgerVerifies(seen) || !quiet
         || LiveContract(describe, seen) != BaselineContract(catalog, describe) {
        return Rejected;
      }
      if !confirm {
        return Finished;
      }
      if !backupVerified {
        return Rejected;
      }
      if commitsLeft == 0 {
        return Crashed;
      }
      AdoptedIsAccepted(catalog, describe, db);
      // By LegacyLedgerIsNeverAdopted there is no legacy ledger to move or drop here.
      publicLedger := Some([Row(catalog[0], true)]);
      assert RowsFor(catalog[..1]) == [Row(catalog[0], true)];
      commitsLeft := commitsLeft - 1;
      outcome := ApplyPending(1);
    }
  }

  // ---- Convergence ------------------------------------------------------

  /** Where a series of interrupted runs leaves the database. */
  ghost function AfterCrashes(catalog: seq<Migration>, db: Database, crashes: seq<nat>): Database
    decreases |crashes|
  {
    if crashes == [] then db
    else AfterCrashes(catalog, Iterate(catalog, db, crashes[0]), crashes[1..])
  }

  /** However often it was interrupted, an uncut run ends in the state an uninterrupted run reaches. */
  lemma {:induction false} CrashesDoNotMatter(catalog: seq<Migration>, db: Database, crashes: seq<nat>)
    requires ValidCatalog(catalog) && Accepted(catalog, db)
    ensures var last := AfterCrashes(catalog, db, crashes);
            && Accepted(catalog, last)
            && 0 <= Remaining(catalog, last) && 0 <= Remaining(catalog, db)
            && Iterate(catalog, last, Remaining(catalog, last)) == Iterate(catalog, db, Remaining(catalog, db))
            && Complete(catalog, Iterate(catalog, last, Remaining(catalog, last)))
    decreases |crashes|
  {
    if crashes == [] {
      CommitsMakeProgress(catalog, db);
      IterateStaysAccepted(catalog, db, Remaining(catalog, db));
      CommitsMakeProgress(catalog, Iterate(catalog, db, Remaining(catalog, db)));
    } else {
      ResumingReachesTheSameEnd(catalog, db, crashes[0]);
      CrashesDoNotMatter(catalog, Iterate(catalog, db, crashes[0]), crashes[1..]);
    }
  }

  lemma IterateSplits(catalog: seq<Migration>, db: Database, n: nat, total: nat)
    requires n <= total
    ensures Iterate(catalog, Iterate(catalog, db, n), total - n) == Iterate(catalog, db, total)
    ensures Iterate(catalog, Iterate(catalog, db, n), 0) == Iterate(catalog, db, n)
  {
    hide CommitFrom;
    RepeatAdds(CommitFrom(catalog), db, n, total - n);
  }

  lemma ResumingReachesTheSameEnd(catalog: seq<Migration>, db: Database, n: nat)
    requires ValidCatalog(catalog) && Accepted(catalog, db)
    ensures var next := Iterate(catalog, db, n);
            && Accepted(catalog, next) && 0 <= Remaining(catalog, next) && 0 <= Remaining(catalog, db)
            && Iterate(catalog, next, Remaining(catalog, next)) == Iterate(catalog, db, Remaining(catalog, db))
  {
    hide Iterate, Accepted, Remaining, ValidCatalog;
    CommitsMakeProgress(catalog, db);
    IterateStaysAccepted(catalog, db, n);
    var left := Remaining(catalog, db);
    if n <= left {
      IterateSplits(catalog, db, n, left);
    } else {
      ExtraCommitsChangeNothing(catalog, db, n);
      IterateSplits(catalog, db, n, n);
    }
  }

  lemma FirstThenRest(catalog: seq<Migration>, db: Database, rest: nat)
    ensures Iterate(catalog, Successor(catalog, db), rest) == Iterate(catalog, db, rest + 1)
  {
    assert Repeat(CommitFrom(catalog), db, 1) == CommitFrom(catalog)(Repeat(CommitFrom(catalog), db, 0));
    RepeatAdds(CommitFrom(catalog), db, 1, rest);
  }

  lemma {:induction false} ExtraCommitsChangeNothing(catalog: seq<Migration>, db: Database, n: nat)
    requires ValidCatalog(catalog) && Accepted(catalog, db)
    requires 0 <= Remaining(catalog, db) <= n
    ensures Iterate(catalog, db, n) == Iterate(catalog, db, Remaining(catalog, db))
  {
    hide NextCommit, Accepted, Remaining, ValidCatalog;
    if n > Remaining(catalog, db) {
      ExtraCommitsChangeNothing(catalog, db, n - 1);
      IterateStaysAccepted(catalog, db, n - 1);
      CommitsMakeProgress(catalog, Iterate(catalog, db, n - 1));
    }
  }
}

/**
 * Migration ledgers of apps/api/src/db/migrations.rs: how they are read,
 * validated against the compiled catalog and written.
 */
module MigrationLedger {
  import opened Common

  const BASELINE_MIGRATION_VERSION := 1

  datatype Migration = Migration(version: int, description: string, checksum: string)

  datatype Row = Row(migration: Migration, success: bool)

  /**
   * What has run, in order: on an empty database, or on objects that came from
   * somewhere else, with or without a users table.
   */
  datatype Schema = Applied(done: seq<Migration>) | Foreign(objects: string, hasUsers: bool, done: seq<Migration>)

  datatype Database = Database(
    publicLedger: Option<seq<Row>>,
    legacyLedger: Option<seq<Row>>,
    schema: Schema)

  // ---- The compiled catalog ---------------------------------------------

  function LowerChar(c: char): char {
    if 'A' <= c <= 'Z' then ((c as int) - ('A' as int) + ('a' as int)) as char else c
  }

  /** Decoding a hexadecimal checksum and encoding it again. */
  function Canonical(checksum: string): string {
    seq(|checksum|, i requires 0 <= i < |checksum| => LowerChar(checksum[i]))
  }

  ghost predicate ValidCatalog(catalog: seq<Migration>) {
    && catalog != []
    && catalog[0].version == BASELINE_MIGRATION_VERSION
    && (forall i, j :: 0 <= i < j < |catalog| ==> catalog[i].version < catalog[j].version)
    && (forall i :: 0 <= i < |catalog| ==> Canonical(catalog[i].checksum) == catalog[i].checksum)
  }

  /** Checksums are stored as bytes, so reading one back gives its canonical text. */
  ghost predicate StoredRows(rows: seq<Row>) {
    forall i :: 0 <= i < |rows| ==> Canonical(rows[i].migration.checksum) == rows[i].migration.checksum
  }

  ghost predicate Stored(db: Database) {
    && (db.publicLedger.Some? ==> StoredRows(db.publicLedger.value))
    && (db.legacyLedger.Some? ==> StoredRows(db.legacyLedger.value))
  }

  // ---- Ledger validation ------------------------------------------------

  datatype LedgerFault =
    | Empty
    | TooLong
    | VersionDiffers(at: nat)
    | DescriptionDiffers(at: nat)
    | ChecksumDiffers(at: nat)
    | Incomplete

  predicate Matches(actual: Migration, expected: Migration) {
    && actual.version == expected.version
    && actual.description == expected.description
    && Canonical(actual.checksum) == Canonical(expected.checksum)
  }

  /** The same character, or the same ASCII letter written large and small. */
  predicate SameLetter(c: char, d: char) {
    || c == d
    || ('A' <= c <= 'Z' && d as int == c as int + 32)
    || ('A' <= d <= 'Z' && c as int == d as int + 32)
  }

  /** Checksums are compared letter by letter, large or small, and stored in small letters. */
  lemma MatchesIff(actual: Migration, expected: Migration)
    ensures Matches(actual, expected) <==>
              && actual.version == expected.version && actual.description == expected.description
              && |actual.checksum| == |expected.checksum|
              && forall i :: 0 <= i < |actual.checksum| ==> SameLetter(actual.checksum[i], expected.checksum[i])
    ensures |Canonical(actual.checksum)| == |actual.checksum|
    ensures forall i :: 0 <= i < |actual.checksum| ==>
              var c := Canonical(actual.checksum)[i]; SameLetter(actual.checksum[i], c) && !('A' <= c <= 'Z')
  {
    var a, e := actual.checksum, expected.checksum;
    forall i | 0 <= i < |a| && i < |e|
      ensures Canonical(a)[i] == Canonical(e)[i] <==> SameLetter(a[i], e[i])
    {
      LowerIffSameLetter(a[i], e[i]);
    }
    if Canonical(a) == Canonical(e) {
      assert |a| == |Canonical(a)| == |e|;
    }
  }

  lemma LowerIffSameLetter(c: char, d: char)
    ensures LowerChar(c) == LowerChar(d) <==> SameLetter(c, d)
  {
    assert LowerChar(c) == c || LowerChar(c) as int == c as int + 32;
    assert LowerChar(d) == d || LowerChar(d) as int == d as int + 32;
  }

  predicate MatchesPrefix(catalog: seq<Migration>, ledger: seq<Migration>) {
    |ledger| <= |catalog| && forall i :: 0 <= i < |ledger| ==> Matches(ledger[i], catalog[i])
  }

  function FirstFault(catalog: seq<Migration>, ledger: seq<Migration>, at: nat): (r: Option<LedgerFault>)
    requires at <= |ledger| <= |catalog|
    requires MatchesPrefix(catalog, ledger[..at])
    ensures r.None? <==> MatchesPrefix(catalog, ledger)
    ensures r.Some? ==>
              && (r.value.VersionDiffers? || r.value.DescriptionDiffers? || r.value.ChecksumDiffers?)
              && r.value.at < |ledger|
              && MatchesPrefix(catalog, ledger[..r.value.at])
              && !Matches(ledger[r.value.at], catalog[r.value.at])
              && (r.value.VersionDiffers? <==> ledger[r.value.at].version != catalog[r.value.at].version)
    decreases |ledger| - at
  {
    if at == |ledger| then
      assert ledger[..at] == ledger;
      None
    else if ledger[at].version != catalog[at].version then Some(VersionDiffers(at))
    else if ledger[at].description != catalog[at].description then Some(DescriptionDiffers(at))
    else if Canonical(ledger[at].checksum) != Canonical(catalog[at].checksum) then Some(ChecksumDiffers(at))
    else
      assert ledger[..at + 1] == ledger[..at] + [ledger[at]];
      FirstFault(catalog, ledger, at + 1)
  }

  function ValidateLedgerPrefix(catalog: seq<Migration>, ledger: seq<Migration>): (r: Option<LedgerFault>)
    ensures r.None? <==> ledger != [] && MatchesPrefix(catalog, ledger)
  {
    if ledger == [] then Some(Empty)
    else if |ledger| > |catalog| then Some(TooLong)
    else FirstFault(catalog, ledger, 0)
  }

  function ValidateCompleteLedger(catalog: seq<Migration>, ledger: seq<Migration>): (r: Option<LedgerFault>)
    ensures r.None? <==> ledger != [] && MatchesPrefix(catalog, ledger) && |ledger| == |catalog|
  {
    var prefix := ValidateLedgerPrefix(catalog, ledger);
    if prefix.Some? then prefix else if |ledger| != |catalog| then Some(Incomplete) else None
  }

  // ---- Reading and writing ledgers --------------------------------------

  /** The identities of a ledger, or None when it records a failed migration. */
  function ReadLedger(rows: seq<Row>): (r: Option<seq<Migration>>)
    ensures r.None? <==> exists i :: 0 <= i < |rows| && !rows[i].success
  {
    if exists i :: 0 <= i < |rows| && !rows[i].success then None else Some(Identities(rows))
  }

  function Identities(rows: seq<Row>): seq<Migration> {
    seq(|rows|, i requires 0 <= i < |rows| => rows[i].migration)
  }

  /** The rows written for a ledger: checksums decoded, every row successful. */
  function RowsFor(ledger: seq<Migration>): seq<Row> {
    seq(|ledger|, i requires 0 <= i < |ledger| =>
          Row(ledger[i].(checksum := Canonical(ledger[i].checksum)), true))
  }

  /** A validated ledger, once written, is an exact prefix of the compiled catalog. */
  lemma ValidatedLedgerIsCatalogPrefix(catalog: seq<Migration>, ledger: seq<Migration>)
    requires ValidCatalog(catalog) && ValidateLedgerPrefix(catalog, ledger).None?
    ensures RowsFor(ledger) == RowsFor(catalog[..|ledger|])
    ensures Identities(RowsFor(ledger)) == catalog[..|ledger|]
  {
  }

  lemma StoredLedgerIsCatalogPrefix(catalog: seq<Migration>, rows: seq<Row>)
    requires ValidCatalog(catalog) && StoredRows(rows)
    requires ReadLedger(rows).Some? && ValidateLedgerPrefix(catalog, Identities(rows)).None?
    ensures rows != [] && |rows| <= |catalog| && rows == RowsFor(catalog[..|rows|])
  {
    assert forall i :: 0 <= i < |rows| ==> Matches(Identities(rows)[i], catalog[i]);
  }

  /** The catalog entries whose version the ledger does not contain. */
  function Pending(catalog: seq<Migration>, ledger: seq<Migration>): seq<Migration> {
    Filter(catalog, NotIn(ledger))
  }

  function NotIn(ledger: seq<Migration>): Migration -> bool {
    var applied := set m | m in ledger :: m.version;
    (m: Migration) => m.version !in applied
  }

  /** Versions increase, so an entry is pending exactly from the end of the prefix on. */
  lemma PendingFrom(catalog: seq<Migration>, n: nat, i: nat)
    requires ValidCatalog(catalog) && n <= |catalog| && i < |catalog|
    ensures NotIn(catalog[..n])(catalog[i]) <==> n <= i
  {
    if i < n { assert catalog[i] in catalog[..n]; }
  }

  /** Behind a validated prefix the pending list is exactly the rest of the catalog. */
  lemma {:induction false} PendingIsSuffix(catalog: seq<Migration>, n: nat)
    requires ValidCatalog(catalog) && n <= |catalog|
    ensures Pending(catalog, catalog[..n]) == catalog[n..]
  {
    hide Filter;
    var p := NotIn(catalog[..n]);
    forall i | 0 <= i < |catalog| ensures p(catalog[i]) <==> n <= i {
      PendingFrom(catalog, n, i);
    }
    assert catalog == catalog[..n] + catalog[n..];
    FilterConcat(catalog[..n], catalog[n..], p);
    FilterNone(catalog[..n], p);
    FilterAll(catalog[n..], p);
  }

  lemma {:induction false} FilterNone<T(!new)>(s: seq<T>, p: T -> bool)
    requires forall i :: 0 <= i < |s| ==> !p(s[i])
    ensures Filter(s, p) == []
  {
    if s != [] { FilterNone(s[1..], p); }
  }

  lemma {:induction false} FilterAll<T(!new)>(s: seq<T>, p: T -> bool)
    requires forall i :: 0 <= i < |s| ==> p(s[i])
    ensures Filter(s, p) == s
  {
    if s != [] { FilterAll(s[1..], p); }
  }
}

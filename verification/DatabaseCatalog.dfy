/**
 * The PostgreSQL catalog as a map from database names to contents, and the
 * scripts the restore agent runs against it. One script is one transaction,
 * so a script whose second rename fails leaves the catalog as it was.
 */
module DatabaseCatalog {
  import opened Common

  /** `Candidate(j)` is riviamigo_restore_<j>, `Previous(j)` is riviamigo_previous_<j>. */
  datatype Database = Live | Candidate(job: nat) | Previous(job: nat) | Other(name: string)

  datatype Contents = Original | Blank | Package(job: nat)

  type Catalog = map<Database, Contents>

  function Rename(c: Catalog, from: Database, to: Database): Option<Catalog> {
    if from in c && to !in c then Some((c - {from})[to := c[from]]) else None
  }

  function SwapScript(c: Catalog, candidate: Database, previous: Database): Option<Catalog> {
    match Rename(c, Live, previous)
    case None => None
    case Some(d) => Rename(d, candidate, Live)
  }

  function RollbackScript(c: Catalog, previous: Database, failed: Database): Option<Catalog> {
    match Rename(c, Live, failed)
    case None => None
    case Some(d) => Rename(d, previous, Live)
  }

  /** DROP DATABASE IF EXISTS. */
  function Drop(c: Catalog, db: Database): Catalog {
    c - {db}
  }

  /** The swap commits exactly when both sources exist and the parking name is free. */
  lemma SwapCommitsIff(c: Catalog, candidate: Database, previous: Database)
    requires candidate != Live && previous != Live && candidate != previous
    ensures SwapScript(c, candidate, previous).Some?
            <==> Live in c && candidate in c && previous !in c
    ensures SwapScript(c, candidate, previous).Some? ==>
              var d := SwapScript(c, candidate, previous).value;
              && Live in d && d[Live] == c[candidate]
              && previous in d && d[previous] == c[Live]
              && candidate !in d
              && d - {Live, candidate, previous} == c - {Live, candidate, previous}
  {
  }

  /** Swapping and rolling back are inverse, in both orders. */
  lemma SwapAndRollbackAreInverse(c: Catalog, d: Catalog, candidate: Database, previous: Database)
    requires candidate != Live && previous != Live && candidate != previous
    ensures SwapScript(c, candidate, previous) == Some(d)
            <==> RollbackScript(d, previous, candidate) == Some(c)
  {
    if SwapScript(c, candidate, previous) == Some(d) {
      assert RollbackScript(d, previous, candidate).value == c;
    }
    if RollbackScript(d, previous, candidate) == Some(c) {
      assert SwapScript(c, candidate, previous).value == d;
    }
  }
}

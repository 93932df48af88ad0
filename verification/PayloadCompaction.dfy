/**
 * Bounded duplicate removal from apps/api/src/bin/compact_charge_payloads.rs.
 * Tables are maps from row ids to rows; one run is one transaction.
 */
module PayloadCompaction {
  import opened Common

  type Id = nat

  /** The identity key: its digest covers the vehicle and everything in `semantics`. */
  datatype Key = Key(vehicle: nat, semantics: string)

  datatype Payload = Payload(key: Key, capturedAt: int, linked: bool, fingerprinted: bool)

  type Rows = map<Id, Payload>

  datatype AliasRef = AliasRef(payload: Id, capturedAt: int)

  datatype Store = Store(rows: Rows, aliases: map<string, AliasRef>, identities: map<string, Id>)

  // ---- The queries ------------------------------------------------------

  function InScope(rows: Rows, vehicle: Option<nat>): (r: set<Id>)
    ensures r <= rows.Keys
  {
    set id | id in rows && (vehicle.None? || rows[id].key.vehicle == vehicle.value)
  }

  function KeysOf(rows: Rows, ids: set<Id>): set<Key>
    requires ids <= rows.Keys
  {
    set id | id in ids :: rows[id].key
  }

  /** Rows beyond the first of each identity key. */
  function DuplicateCount(rows: Rows, vehicle: Option<nat>): int {
    |InScope(rows, vehicle)| - |KeysOf(rows, InScope(rows, vehicle))|
  }

  function Group(rows: Rows, vehicle: Option<nat>, key: Key): (r: set<Id>)
    ensures r <= InScope(rows, vehicle)
  {
    set id | id in InScope(rows, vehicle) && rows[id].key == key
  }

  /** Linked rows first, then the oldest, then the smallest id. */
  predicate KeptBefore(rows: Rows, a: Id, b: Id)
    requires a in rows && b in rows
  {
    || (rows[a].linked && !rows[b].linked)
    || (rows[a].linked == rows[b].linked
        && (rows[a].capturedAt < rows[b].capturedAt || (rows[a].capturedAt == rows[b].capturedAt && a <= b)))
  }

  predicate CapturedBefore(rows: Rows, a: Id, b: Id)
    requires a in rows && b in rows
  {
    rows[a].capturedAt < rows[b].capturedAt || (rows[a].capturedAt == rows[b].capturedAt && a <= b)
  }

  predicate KeptFirst(rows: Rows, ids: set<Id>, m: Id)
    requires ids <= rows.Keys
  {
    m in ids && forall x :: x in ids ==> KeptBefore(rows, m, x)
  }

  lemma KeptFirstOfMore(rows: Rows, ids: set<Id>, m: Id, x: Id)
    requires ids <= rows.Keys && x in rows && KeptFirst(rows, ids, m)
    ensures KeptFirst(rows, ids + {x}, m) || KeptFirst(rows, ids + {x}, x)
  {
    if !KeptBefore(rows, m, x) {
      forall y | y in ids ensures KeptBefore(rows, x, y) {
        assert KeptBefore(rows, m, y);
      }
    }
  }

  lemma {:induction false} SomeRowIsKeptFirst(rows: Rows, ids: set<Id>)
    requires ids != {} && ids <= rows.Keys
    ensures exists m :: KeptFirst(rows, ids, m)
  {
    var x :| x in ids;
    if ids == {x} {
      assert KeptFirst(rows, ids, x);
    } else {
      var others := ids - {x};
      SomeRowIsKeptFirst(rows, others);
      var m :| KeptFirst(rows, others, m);
      KeptFirstOfMore(rows, others, m, x);
      assert others + {x} == ids;
    }
  }

  predicate CapturedFirst(rows: Rows, ids: set<Id>, m: Id)
    requires ids <= rows.Keys
  {
    m in ids && forall x :: x in ids ==> CapturedBefore(rows, m, x)
  }

  lemma CapturedFirstOfMore(rows: Rows, ids: set<Id>, m: Id, x: Id)
    requires ids <= rows.Keys && x in rows && CapturedFirst(rows, ids, m)
    ensures CapturedFirst(rows, ids + {x}, m) || CapturedFirst(rows, ids + {x}, x)
  {
    if !CapturedBefore(rows, m, x) {
      forall y | y in ids ensures CapturedBefore(rows, x, y) {
        assert CapturedBefore(rows, m, y);
      }
    }
  }

  lemma {:induction false} SomeRowIsCapturedFirst(rows: Rows, ids: set<Id>)
    requires ids != {} && ids <= rows.Keys
    ensures exists m :: CapturedFirst(rows, ids, m)
  {
    var x :| x in ids;
    if ids == {x} {
      assert CapturedFirst(rows, ids, x);
    } else {
      var others := ids - {x};
      SomeRowIsCapturedFirst(rows, others);
      var m :| CapturedFirst(rows, others, m);
      CapturedFirstOfMore(rows, others, m, x);
      assert others + {x} == ids;
    }
  }

  /** FIRST_VALUE over the group in keeper order. */
  function First(rows: Rows, ids: set<Id>): (m: Id)
    requires ids != {} && ids <= rows.Keys
    ensures m in ids && forall x :: x in ids ==> KeptBefore(rows, m, x)
  {
    SomeRowIsKeptFirst(rows, ids);
    var m :| KeptFirst(rows, ids, m);
    m
  }

  function Keeper(rows: Rows, vehicle: Option<nat>, id: Id): (m: Id)
    requires id in InScope(rows, vehicle)
    ensures m in InScope(rows, vehicle) && rows[m].key == rows[id].key
  {
    assert id in Group(rows, vehicle, rows[id].key);
    First(rows, Group(rows, vehicle, rows[id].key))
  }

  /** ORDER BY captured_at, id LIMIT n. */
  function Earliest(rows: Rows, ids: set<Id>, n: nat): (r: set<Id>)
    requires ids <= rows.Keys
    ensures r <= ids && |r| == (if n < |ids| then n else |ids|)
    ensures forall x, y :: x in r && y in ids - r ==> CapturedBefore(rows, x, y)
  {
    if n == 0 || ids == {} then {}
    else
      SomeRowIsCapturedFirst(rows, ids);
      var m :| CapturedFirst(rows, ids, m);
      {m} + Earliest(rows, ids - {m}, n - 1)
  }

  function NonKeepers(rows: Rows, vehicle: Option<nat>): (r: set<Id>)
    ensures r <= InScope(rows, vehicle)
  {
    set id | id in InScope(rows, vehicle) && Keeper(rows, vehicle, id) != id
  }

  function Victims(rows: Rows, vehicle: Option<nat>, batch: nat): (r: set<Id>)
    ensures r <= NonKeepers(rows, vehicle)
  {
    Earliest(rows, NonKeepers(rows, vehicle), batch)
  }

  /** What repointing does to one alias and to one canonical id. */
  function RepointedAlias(rows: Rows, vehicle: Option<nat>, victims: set<Id>, ref: AliasRef): AliasRef
    requires victims <= InScope(rows, vehicle)
  {
    if ref.payload !in victims then ref
    else var k := Keeper(rows, vehicle, ref.payload); AliasRef(k, rows[k].capturedAt)
  }

  function RepointedId(rows: Rows, vehicle: Option<nat>, victims: set<Id>, id: Id): Id
    requires victims <= InScope(rows, vehicle)
  {
    if id in victims then Keeper(rows, vehicle, id) else id
  }

  /** The tables after references to the victims were repointed and the victims deleted. */
  function Repointed(s: Store, vehicle: Option<nat>, victims: set<Id>): Store
    requires victims <= InScope(s.rows, vehicle)
  {
    Store(
      s.rows - victims,
      map a | a in s.aliases :: RepointedAlias(s.rows, vehicle, victims, s.aliases[a]),
      map i | i in s.identities :: RepointedId(s.rows, vehicle, victims, s.identities[i]))
  }

  function Compacted(s: Store, vehicle: Option<nat>, batch: nat): Store {
    Repointed(s, vehicle, Victims(s.rows, vehicle, batch))
  }

  // ---- Counting ---------------------------------------------------------

  ghost function AnyKey(keys: set<Key>): (k: Key)
    requires keys != {}
    ensures k in keys
  {
    var k :| k in keys; k
  }

  /** COUNT(*) - 1 summed over the groups, as the report query computes it. */
  ghost function GroupExcess(rows: Rows, vehicle: Option<nat>, keys: set<Key>): int {
    if keys == {} then 0
    else
      var k := AnyKey(keys);
      |Group(rows, vehicle, k)| - 1 + GroupExcess(rows, vehicle, keys - {k})
  }

  ghost function RowsWithKeys(rows: Rows, vehicle: Option<nat>, keys: set<Key>): set<Id> {
    set id | id in InScope(rows, vehicle) && rows[id].key in keys
  }

  lemma {:induction false} GroupExcessCounts(rows: Rows, vehicle: Option<nat>, keys: set<Key>)
    ensures GroupExcess(rows, vehicle, keys)
            == |RowsWithKeys(rows, vehicle, keys)| - |keys|
  {
    var all := RowsWithKeys(rows, vehicle, keys);
    if keys == {} {
      assert all == {};
    } else {
      var k := AnyKey(keys);
      GroupExcessCounts(rows, vehicle, keys - {k});
      var rest := RowsWithKeys(rows, vehicle, keys - {k});
      assert all == Group(rows, vehicle, k) + rest;
      assert Group(rows, vehicle, k) !! rest;
    }
  }

  /** The reported number is the sum over identity groups of their size minus one. */
  lemma DuplicateCountIsGroupExcess(rows: Rows, vehicle: Option<nat>)
    ensures DuplicateCount(rows, vehicle)
            == GroupExcess(rows, vehicle, KeysOf(rows, InScope(rows, vehicle)))
  {
    var keys := KeysOf(rows, InScope(rows, vehicle));
    GroupExcessCounts(rows, vehicle, keys);
    assert RowsWithKeys(rows, vehicle, keys) == InScope(rows, vehicle);
  }

  lemma {:induction false} DistinctKeysCount(rows: Rows, ids: set<Id>)
    requires ids <= rows.Keys
    requires forall x, y :: x in ids && y in ids && rows[x].key == rows[y].key ==> x == y
    ensures |KeysOf(rows, ids)| == |ids|
  {
    if ids != {} {
      var x :| x in ids;
      DistinctKeysCount(rows, ids - {x});
      assert KeysOf(rows, ids) == KeysOf(rows, ids - {x}) + {rows[x].key};
      assert rows[x].key !in KeysOf(rows, ids - {x});
    }
  }

  /** There is exactly one keeper per key, so the duplicates are the other rows. */
  lemma NonKeepersAreTheDuplicates(rows: Rows, vehicle: Option<nat>)
    ensures |NonKeepers(rows, vehicle)| == DuplicateCount(rows, vehicle)
  {
    var scope := InScope(rows, vehicle);
    var keepers := scope - NonKeepers(rows, vehicle);
    forall x, y | x in keepers && y in keepers && rows[x].key == rows[y].key
      ensures x == y
    {
      assert Keeper(rows, vehicle, x) == x && Keeper(rows, vehicle, y) == y;
    }
    DistinctKeysCount(rows, keepers);
    forall k | k in KeysOf(rows, scope)
      ensures k in KeysOf(rows, keepers)
    {
      var id :| id in scope && rows[id].key == k;
      KeeperIsItsOwnKeeper(rows, vehicle, id);
    }
    assert KeysOf(rows, keepers) == KeysOf(rows, scope);
    assert |scope| == |keepers| + |NonKeepers(rows, vehicle)| by {
      assert scope == keepers + NonKeepers(rows, vehicle);
    }
  }

  lemma KeeperIsItsOwnKeeper(rows: Rows, vehicle: Option<nat>, id: Id)
    requires id in InScope(rows, vehicle)
    ensures Keeper(rows, vehicle, Keeper(rows, vehicle, id)) == Keeper(rows, vehicle, id)
    ensures Keeper(rows, vehicle, id) !in NonKeepers(rows, vehicle)
  {
  }

  // ---- What one batch does ----------------------------------------------

  lemma ScopeShrinksByVictims(s: Store, vehicle: Option<nat>, batch: nat)
    ensures var after := Compacted(s, vehicle, batch).rows;
            && InScope(after, vehicle) == InScope(s.rows, vehicle) - Victims(s.rows, vehicle, batch)
            && after.Keys == s.rows.Keys - Victims(s.rows, vehicle, batch)
            && forall id :: id in InScope(s.rows, vehicle) ==> Keeper(s.rows, vehicle, id) in InScope(after, vehicle)
  {
    forall id | id in InScope(s.rows, vehicle)
      ensures Keeper(s.rows, vehicle, id) !in Victims(s.rows, vehicle, batch)
    {
      KeeperIsItsOwnKeeper(s.rows, vehicle, id);
    }
  }

  /** The first of a group stays the first as long as it is there. */
  lemma FirstOfFewer(rows: Rows, after: Rows, ids: set<Id>, fewer: set<Id>)
    requires ids != {} && ids <= rows.Keys && fewer <= ids && fewer <= after.Keys
    requires forall x :: x in fewer ==> after[x] == rows[x]
    requires First(rows, ids) in fewer
    ensures First(after, fewer) == First(rows, ids)
  {
    assert KeptBefore(rows, First(rows, ids), First(after, fewer));
    assert KeptBefore(after, First(after, fewer), First(rows, ids));
  }

  /** Every key keeps its keeper, and the keeper stays the one that was chosen. */
  lemma KeepersSurvive(s: Store, vehicle: Option<nat>, batch: nat)
    ensures var after := Compacted(s, vehicle, batch).rows;
            && (forall id :: id in InScope(s.rows, vehicle) ==> Keeper(s.rows, vehicle, id) in InScope(after, vehicle))
            && (forall id :: id in InScope(after, vehicle) ==>
                  id in InScope(s.rows, vehicle) && Keeper(after, vehicle, id) == Keeper(s.rows, vehicle, id))
  {
    var rows := s.rows;
    var victims := Victims(rows, vehicle, batch);
    var after := Compacted(s, vehicle, batch).rows;
    ScopeShrinksByVictims(s, vehicle, batch);
    forall id | id in InScope(after, vehicle)
      ensures Keeper(after, vehicle, id) == Keeper(rows, vehicle, id)
    {
      var k := Keeper(rows, vehicle, id);
      assert Group(after, vehicle, rows[id].key) == Group(rows, vehicle, rows[id].key) - victims;
      FirstOfFewer(rows, after, Group(rows, vehicle, rows[id].key), Group(after, vehicle, rows[id].key));
    }
  }

  /** A batch removes rows but never an identity key. */
  lemma KeysSurvive(s: Store, vehicle: Option<nat>, batch: nat)
    ensures var after := Compacted(s, vehicle, batch).rows;
            && KeysOf(after, after.Keys) == KeysOf(s.rows, s.rows.Keys)
            && KeysOf(after, InScope(after, vehicle)) == KeysOf(s.rows, InScope(s.rows, vehicle))
  {
    var rows := s.rows;
    var after := Compacted(s, vehicle, batch).rows;
    ScopeShrinksByVictims(s, vehicle, batch);
    forall id | id in rows
      ensures rows[id].key in KeysOf(after, after.Keys)
      ensures id in InScope(rows, vehicle) ==> rows[id].key in KeysOf(after, InScope(after, vehicle))
    {
      if id in InScope(rows, vehicle) {
        var k := Keeper(rows, vehicle, id);
        assert k in after && after[k].key == rows[id].key;
      } else {
        assert id in after && after[id].key == rows[id].key;
      }
    }
  }

  /** Duplicates fall by the batch, or to zero when fewer are left. */
  lemma BatchRemovesDuplicates(s: Store, vehicle: Option<nat>, batch: nat)
    ensures var d := DuplicateCount(s.rows, vehicle);
            && 0 <= d
            && |Victims(s.rows, vehicle, batch)| == (if batch < d then batch else d)
            && DuplicateCount(Compacted(s, vehicle, batch).rows, vehicle) == LeftAfterBatch(d, batch)
            && |Compacted(s, vehicle, batch).rows| == |s.rows| - |Victims(s.rows, vehicle, batch)|
  {
    hide Keeper, KeysOf, Compacted, KeptBefore;
    var victims := Victims(s.rows, vehicle, batch);
    NonKeepersAreTheDuplicates(s.rows, vehicle);
    KeysSurvive(s, vehicle, batch);
    ScopeShrinksByVictims(s, vehicle, batch);
    assert |InScope(s.rows, vehicle) - victims| == |InScope(s.rows, vehicle)| - |victims|;
    assert |s.rows.Keys - victims| == |s.rows.Keys| - |victims|;
    assert |Compacted(s, vehicle, batch).rows| == |Compacted(s, vehicle, batch).rows.Keys| && |s.rows| == |s.rows.Keys|;
  }

  /** What compaction promises about references and keys, from one store to a later one. */
  ghost predicate Preserves(s: Store, t: Store) {
    && KeysOf(t.rows, t.rows.Keys) == KeysOf(s.rows, s.rows.Keys)
    && t.aliases.Keys == s.aliases.Keys && t.identities.Keys == s.identities.Keys
    && (forall a :: a in s.aliases && s.aliases[a].payload in s.rows ==>
          && t.aliases[a].payload in t.rows
          && t.rows[t.aliases[a].payload].key == s.rows[s.aliases[a].payload].key
          && (s.rows[s.aliases[a].payload].capturedAt == s.aliases[a].capturedAt ==>
                t.rows[t.aliases[a].payload].capturedAt == t.aliases[a].capturedAt))
    && (forall i :: i in s.identities && s.identities[i] in s.rows ==>
          && t.identities[i] in t.rows
          && t.rows[t.identities[i]].key == s.rows[s.identities[i]].key)
  }

  /** A reference that was live stays live, on a row with the same identity key. */
  lemma ReferencesStayLive(s: Store, vehicle: Option<nat>, batch: nat)
    ensures Preserves(s, Compacted(s, vehicle, batch))
  {
    ScopeShrinksByVictims(s, vehicle, batch);
    KeysSurvive(s, vehicle, batch);
  }

  ghost predicate OneRowPerKey(rows: Rows, vehicle: Option<nat>) {
    forall x, y :: x in InScope(rows, vehicle) && y in InScope(rows, vehicle) && rows[x].key == rows[y].key ==> x == y
  }

  /** No duplicates are counted exactly when every key has one row. */
  lemma NoDuplicatesIffOneRowPerKey(rows: Rows, vehicle: Option<nat>)
    ensures DuplicateCount(rows, vehicle) == 0 <==> OneRowPerKey(rows, vehicle)
  {
    NonKeepersAreTheDuplicates(rows, vehicle);
    if DuplicateCount(rows, vehicle) == 0 {
      assert NonKeepers(rows, vehicle) == {};
      forall x, y | x in InScope(rows, vehicle) && y in InScope(rows, vehicle) && rows[x].key == rows[y].key
        ensures x == y
      {
        assert x !in NonKeepers(rows, vehicle) && y !in NonKeepers(rows, vehicle);
      }
    }
    if OneRowPerKey(rows, vehicle) {
      DistinctKeysCount(rows, InScope(rows, vehicle));
    }
  }

  ghost function Repeated(s: Store, vehicle: Option<nat>, batch: nat, runs: nat): Store
    decreases runs
  {
    if runs == 0 then s else Repeated(Compacted(s, vehicle, batch), vehicle, batch, runs - 1)
  }

  lemma PreservesIsTransitive(s: Store, t: Store, u: Store)
    requires Preserves(s, t) && Preserves(t, u)
    ensures Preserves(s, u)
  {
  }

  lemma {:induction false} RepeatedRunsPreserve(s: Store, vehicle: Option<nat>, batch: nat, runs: nat)
    ensures Preserves(s, Repeated(s, vehicle, batch, runs))
    decreases runs
  {
    if runs != 0 {
      var next := Compacted(s, vehicle, batch);
      ReferencesStayLive(s, vehicle, batch);
      RepeatedRunsPreserve(next, vehicle, batch, runs - 1);
      PreservesIsTransitive(s, next, Repeated(next, vehicle, batch, runs - 1));
    }
  }

  function LeftAfterBatch(duplicates: int, batch: nat): int {
    if batch < duplicates then duplicates - batch else 0
  }

  function LeftAfter(duplicates: int, batch: nat, runs: nat): int
    decreases runs
  {
    if runs == 0 then duplicates else LeftAfter(LeftAfterBatch(duplicates, batch), batch, runs - 1)
  }

  lemma {:induction false} LeftAfterIsClosedForm(duplicates: nat, batch: nat, runs: nat)
    ensures LeftAfter(duplicates, batch, runs)
            == (if runs * batch < duplicates then duplicates - runs * batch else 0)
    decreases runs
  {
    if runs != 0 {
      LeftAfterIsClosedForm(LeftAfterBatch(duplicates, batch), batch, runs - 1);
      assert runs * batch == (runs - 1) * batch + batch;
    }
  }

  lemma BatchLeaves(s: Store, vehicle: Option<nat>, batch: nat)
    ensures DuplicateCount(Compacted(s, vehicle, batch).rows, vehicle)
            == LeftAfterBatch(DuplicateCount(s.rows, vehicle), batch)
  {
    BatchRemovesDuplicates(s, vehicle, batch);
  }

  lemma {:induction false} RepeatedRunsCount(s: Store, vehicle: Option<nat>, batch: nat, runs: nat)
    ensures DuplicateCount(Repeated(s, vehicle, batch, runs).rows, vehicle)
            == LeftAfter(DuplicateCount(s.rows, vehicle), batch, runs)
    decreases runs
  {
    hide DuplicateCount, Compacted, LeftAfterBatch;
    if runs != 0 {
      BatchLeaves(s, vehicle, batch);
      RepeatedRunsCount(Compacted(s, vehicle, batch), vehicle, batch, runs - 1);
    }
  }

  /** `runs` batches remove `runs * batch` duplicates while that many are left. */
  lemma RepeatedRunsRemove(s: Store, vehicle: Option<nat>, batch: nat, runs: nat)
    ensures var d := DuplicateCount(s.rows, vehicle);
            && 0 <= d
            && DuplicateCount(Repeated(s, vehicle, batch, runs).rows, vehicle)
               == (if runs * batch < d then d - runs * batch else 0)
  {
    NonKeepersAreTheDuplicates(s.rows, vehicle);
    RepeatedRunsCount(s, vehicle, batch, runs);
    LeftAfterIsClosedForm(DuplicateCount(s.rows, vehicle), batch, runs);
  }

  /** So enough runs, and only those, leave one row per key. */
  lemma RepeatedRunsFinish(s: Store, vehicle: Option<nat>, batch: nat, runs: nat)
    ensures DuplicateCount(s.rows, vehicle) <= runs * batch
            <==> OneRowPerKey(Repeated(s, vehicle, batch, runs).rows, vehicle)
  {
    RepeatedRunsRemove(s, vehicle, batch, runs);
    NoDuplicatesIffOneRowPerKey(Repeated(s, vehicle, batch, runs).rows, vehicle);
  }

  // ---- Which rows go and which stay -------------------------------------

  /**
   * The keeper of a row, told by the rows themselves: it has the row's key, is
   * linked whenever some row with that key in scope is, and among the rows as
   * linked as itself none was captured earlier, or at the same time under a
   * smaller id.
   */
  lemma KeeperIsBest(rows: Rows, vehicle: Option<nat>, id: Id)
    requires id in rows && (vehicle.None? || rows[id].key.vehicle == vehicle.value)
    ensures var k := Keeper(rows, vehicle, id);
            && k in rows && rows[k].key == rows[id].key
            && forall x :: x in rows && rows[x].key == rows[id].key ==>
                 && (rows[x].linked ==> rows[k].linked)
                 && (rows[x].linked == rows[k].linked ==>
                       rows[k].capturedAt < rows[x].capturedAt || (rows[k].capturedAt == rows[x].capturedAt && k <= x))
  {
    var k := Keeper(rows, vehicle, id);
    forall x | x in rows && rows[x].key == rows[id].key
      ensures KeptBefore(rows, k, x)
    {
      assert x in Group(rows, vehicle, rows[id].key);
    }
  }

  /**
   * A batch deletes only rows in scope that are not their own keeper, and none
   * of those it leaves was captured before one it deletes.
   */
  lemma VictimsAreEarliest(rows: Rows, vehicle: Option<nat>, batch: nat)
    ensures var victims := Victims(rows, vehicle, batch);
            && (forall v :: v in victims ==>
                  v in rows && (vehicle.None? || rows[v].key.vehicle == vehicle.value) && Keeper(rows, vehicle, v) != v)
            && forall v, w :: v in victims && w in NonKeepers(rows, vehicle) && w !in victims ==>
                 rows[v].capturedAt < rows[w].capturedAt || (rows[v].capturedAt == rows[w].capturedAt && v < w)
  {
    hide Keeper;
    var victims := Victims(rows, vehicle, batch);
    forall v, w | v in victims && w in NonKeepers(rows, vehicle) && w !in victims
      ensures rows[v].capturedAt < rows[w].capturedAt || (rows[v].capturedAt == rows[w].capturedAt && v < w)
    {
      assert w in NonKeepers(rows, vehicle) - victims && CapturedBefore(rows, v, w);
    }
  }

  /** Whatever is not deleted stays as it is, references to it included; rows of other vehicles stay anyway. */
  lemma TheRestIsUntouched(s: Store, vehicle: Option<nat>, batch: nat)
    ensures var after, victims := Compacted(s, vehicle, batch), Victims(s.rows, vehicle, batch);
            && (forall id :: id in after.rows <==> id in s.rows && id !in victims)
            && (forall id :: id in after.rows ==> after.rows[id] == s.rows[id])
            && (forall id :: id in s.rows && vehicle.Some? && s.rows[id].key.vehicle != vehicle.value ==>
                  id in after.rows)
            && (forall a :: a in s.aliases && s.aliases[a].payload !in victims ==>
                  a in after.aliases && after.aliases[a] == s.aliases[a])
            && (forall i :: i in s.identities && s.identities[i] !in victims ==>
                  i in after.identities && after.identities[i] == s.identities[i])
            && after.aliases.Keys == s.aliases.Keys && after.identities.Keys == s.identities.Keys
  {
  }

  /** References to a deleted row move to its keeper, with the keeper's time. */
  lemma ReferencesMoveToKeeper(s: Store, vehicle: Option<nat>, batch: nat)
    ensures var after, victims := Compacted(s, vehicle, batch), Victims(s.rows, vehicle, batch);
            && (forall a :: a in s.aliases && s.aliases[a].payload in victims ==>
                  var k := Keeper(s.rows, vehicle, s.aliases[a].payload);
                  k in after.rows && after.aliases[a] == AliasRef(k, s.rows[k].capturedAt))
            && (forall i :: i in s.identities && s.identities[i] in victims ==>
                  var k := Keeper(s.rows, vehicle, s.identities[i]);
                  k in after.rows && after.identities[i] == k)
  {
    ScopeShrinksByVictims(s, vehicle, batch);
  }

  /** Every key that had a linked row still has one. */
  ghost predicate LinksSurvive(rows: Rows, after: Rows) {
    forall id :: id in rows && rows[id].linked ==>
      exists x :: x in after && after[x].key == rows[id].key && after[x].linked
  }

  lemma BatchKeepsLinks(s: Store, vehicle: Option<nat>, batch: nat)
    ensures LinksSurvive(s.rows, Compacted(s, vehicle, batch).rows)
  {
    var after := Compacted(s, vehicle, batch).rows;
    ScopeShrinksByVictims(s, vehicle, batch);
    TheRestIsUntouched(s, vehicle, batch);
    forall id | id in s.rows && s.rows[id].linked
      ensures exists x :: x in after && after[x].key == s.rows[id].key && after[x].linked
    {
      if id !in after {
        KeeperIsBest(s.rows, vehicle, id);
        assert Keeper(s.rows, vehicle, id) in after;
      }
    }
  }

  lemma LinksSurviveNothing(rows: Rows)
    ensures LinksSurvive(rows, rows)
  {
  }

  lemma LinksGoOnSurviving(rows: Rows, next: Rows, last: Rows)
    requires LinksSurvive(rows, next) && LinksSurvive(next, last)
    ensures LinksSurvive(rows, last)
  {
    forall id | id in rows && rows[id].linked
      ensures exists x :: x in last && last[x].key == rows[id].key && last[x].linked
    {
      var x :| x in next && next[x].key == rows[id].key && next[x].linked;
      var y :| y in last && last[y].key == next[x].key && last[y].linked;
    }
  }

  lemma {:induction false} RepeatedRunsKeepLinks(s: Store, vehicle: Option<nat>, batch: nat, runs: nat)
    ensures LinksSurvive(s.rows, Repeated(s, vehicle, batch, runs).rows)
    decreases runs
  {
    hide LinksSurvive, Compacted;
    if runs == 0 {
      LinksSurviveNothing(s.rows);
    } else {
      var next := Compacted(s, vehicle, batch);
      BatchKeepsLinks(s, vehicle, batch);
      RepeatedRunsKeepLinks(next, vehicle, batch, runs - 1);
      LinksGoOnSurviving(s.rows, next.rows, Repeated(next, vehicle, batch, runs - 1).rows);
    }
  }

  lemma KeeperOutlivesBatch(s: Store, vehicle: Option<nat>, batch: nat, id: Id)
    requires id in InScope(s.rows, vehicle)
    ensures var k, after := Keeper(s.rows, vehicle, id), Compacted(s, vehicle, batch).rows;
            k in InScope(after, vehicle) && after[k] == s.rows[k] && Keeper(after, vehicle, k) == k
  {
    KeepersSurvive(s, vehicle, batch);
    TheRestIsUntouched(s, vehicle, batch);
    KeeperIsItsOwnKeeper(s.rows, vehicle, id);
  }

  /** However many runs it takes, the row left of each key is the one that was its keeper at the start. */
  lemma {:induction false} RepeatedRunsKeepKeepers(s: Store, vehicle: Option<nat>, batch: nat, runs: nat, id: Id)
    requires id in InScope(s.rows, vehicle)
    ensures var k, last := Keeper(s.rows, vehicle, id), Repeated(s, vehicle, batch, runs).rows;
            && k in InScope(last, vehicle) && last[k] == s.rows[k]
            && (OneRowPerKey(last, vehicle) ==>
                  forall x :: x in InScope(last, vehicle) && last[x].key == s.rows[id].key ==> x == k)
    decreases runs
  {
    hide Keeper, Compacted, InScope;
    if runs != 0 {
      KeeperOutlivesBatch(s, vehicle, batch, id);
      RepeatedRunsKeepKeepers(Compacted(s, vehicle, batch), vehicle, batch, runs - 1, Keeper(s.rows, vehicle, id));
    }
  }

  // ---- The program ------------------------------------------------------

  function Min(a: int, b: int): int { if a < b then a else b }

  datatype Result = Reported(duplicates: int) | Removed(rows: int, moreRemain: bool) | Unsafe | Busy

  class Storage {
    var rows: Rows
    var aliases: map<string, AliasRef>
    var identities: map<string, Id>

    ghost function Contents(): Store
      reads this
    {
      Store(rows, aliases, identities)
    }

    constructor (s: Store)
      ensures Contents() == s
    {
      rows, aliases, identities := s.rows, s.aliases, s.identities;
    }

    /** The data-modifying statement, which sees the tables as they were before it. */
    method RepointAndDelete(vehicle: Option<nat>, victims: set<Id>)
      requires victims <= InScope(rows, vehicle)
      modifies this
      ensures Contents() == Repointed(old(Contents()), vehicle, victims)
    {
      aliases := map a | a in aliases :: RepointedAlias(rows, vehicle, victims, aliases[a]);
      identities := map i | i in identities :: RepointedId(rows, vehicle, victims, identities[i]);
      rows := rows - victims;
    }

    method Compact(vehicle: Option<nat>, apply: bool, batch: nat, lockFree: bool) returns (r: Result)
      requires 1 <= batch <= 50000
      modifies this
      ensures !r.Removed? ==> Contents() == old(Contents())
      ensures r.Removed? ==>
                && Contents() == Compacted(old(Contents()), vehicle, batch)
                && |rows| == |old(rows)| - r.rows
                && LinksSurvive(old(rows), rows)
                && (r.moreRemain <==> DuplicateCount(rows, vehicle) > 0)
      ensures r.Removed? <==> apply && lockFree
                              && forall id :: id in InScope(old(rows), vehicle) ==> old(rows)[id].fingerprinted
      ensures r.Removed? ==> r.rows == Min(batch, DuplicateCount(old(rows), vehicle))
      ensures r.Reported? <==> !apply
      ensures r.Unsafe? <==> apply && exists id :: id in InScope(old(rows), vehicle) && !old(rows)[id].fingerprinted
      ensures r.Reported? ==> r.duplicates == DuplicateCount(rows, vehicle)
    {
      var duplicates := DuplicateCount(rows, vehicle);
      if !apply {
        return Reported(duplicates);
      }
      if exists id :: id in InScope(rows, vehicle) && !rows[id].fingerprinted {
        return Unsafe;
      }
      if !lockFree {
        return Busy;
      }
      ghost var before := Contents();
      var victims := Victims(rows, vehicle, batch);
      RepointAndDelete(vehicle, victims);
      BatchRemovesDuplicates(before, vehicle, batch);
      BatchKeepsLinks(before, vehicle, batch);
      r := Removed(|victims|, |victims| == batch && duplicates > batch);
    }
  }
}

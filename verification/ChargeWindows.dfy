/**
 * Sessionization of charging evidence, written in SQL as LAG, a gap flag and a
 * running sum: once for a single vehicle (rebuild_vehicle_history.rs) and once
 * for all vehicles with partitions (repair_charge_sessions_from_telemetry.rs).
 * `rows` is the telemetry in the order of its timestamps, in milliseconds.
 */
module ChargeWindows {
  import opened Common

  const GAP := 7200000

  datatype Row = Row(
    vehicle: nat,
    ts: int,
    chargerState: Option<string>,
    chargerStatus: Option<string>,
    timeToEndOfChargeMin: Option<int>)

  predicate IsEvidence(r: Row) {
    || r.chargerState == Some("charging")
    || r.chargerStatus == Some("chrgr_sts_connected_charging")
    || (r.timeToEndOfChargeMin.Some? && r.timeToEndOfChargeMin.value > 0)
  }

  // ---- The single-vehicle query -----------------------------------------

  /** CASE WHEN prev_ts IS NULL OR ts - prev_ts > interval '2 hours' THEN 1 ELSE 0. */
  function GapFlag(previous: Option<int>, ts: int): nat {
    if previous.None? || ts - previous.value > GAP then 1 else 0
  }

  /** LAG(ts) OVER (ORDER BY ts). */
  function Lag(evidence: seq<Row>, i: nat): Option<int>
    requires i <= |evidence|
  {
    if i == 0 then None else Some(evidence[i - 1].ts)
  }

  function NewSegment(evidence: seq<Row>, i: nat): nat
    requires i < |evidence|
  {
    GapFlag(Lag(evidence, i), evidence[i].ts)
  }

  /** The flags of the first `n` rows whose time is at most `ts`, summed. */
  function SumUpTo(evidence: seq<Row>, n: nat, ts: int): nat
    requires n <= |evidence|
  {
    if n == 0 then 0
    else SumUpTo(evidence, n - 1, ts) + (if evidence[n - 1].ts <= ts then NewSegment(evidence, n - 1) else 0)
  }

  /** SUM(new_segment) OVER (ORDER BY ts): rows with the same time are peers and share the sum. */
  function SegmentId(evidence: seq<Row>, i: nat): nat
    requires i < |evidence|
  {
    SumUpTo(evidence, |evidence|, evidence[i].ts)
  }

  /** GROUP BY segment_id: the rows of one segment, in order. */
  function Segment(evidence: seq<Row>, id: nat, n: nat): seq<Row>
    requires n <= |evidence|
  {
    if n == 0 then []
    else Segment(evidence, id, n - 1) + (if SegmentId(evidence, n - 1) == id then [evidence[n - 1]] else [])
  }

  // ---- The sequential reference -----------------------------------------

  /** Split wherever two consecutive rows are more than two hours apart. */
  function Split(evidence: seq<Row>): (chunks: seq<seq<Row>>)
    ensures evidence != [] ==> chunks != [] && Last(chunks) != [] && Last(Last(chunks)) == Last(evidence)
    ensures forall k :: 0 <= k < |chunks| ==> chunks[k] != []
  {
    if evidence == [] then []
    else
      var r := Last(evidence);
      var earlier := Split(Init(evidence));
      if earlier == [] || r.ts - Last(Init(evidence)).ts > GAP then earlier + [[r]]
      else Init(earlier) + [Last(earlier) + [r]]
  }

  function Flatten(chunks: seq<seq<Row>>): seq<Row> {
    if chunks == [] then [] else Flatten(Init(chunks)) + Last(chunks)
  }

  ghost predicate InOrder(evidence: seq<Row>) {
    forall i, j :: 0 <= i <= j < |evidence| ==> evidence[i].ts <= evidence[j].ts
  }

  // ---- The query is the sequential split --------------------------------

  /** With rows in order a range sum is a prefix sum: later peers carry no flag. */
  lemma {:induction false} PeersAddNothing(evidence: seq<Row>, i: nat, n: nat)
    requires InOrder(evidence) && i < n <= |evidence|
    ensures SumUpTo(evidence, n, evidence[i].ts) == SumUpTo(evidence, i + 1, evidence[i].ts)
  {
    if n > i + 1 {
      PeersAddNothing(evidence, i, n - 1);
    }
  }

  /** The sum over a prefix does not depend on what follows, nor on a bound above all of it. */
  lemma {:induction false} PrefixSum(evidence: seq<Row>, i: nat, n: nat)
    requires InOrder(evidence) && n <= i < |evidence|
    ensures SumUpTo(evidence, n, evidence[i].ts) == |Split(evidence[..n])|
  {
    if n == 0 {
      assert evidence[..0] == [];
    } else {
      PrefixSum(evidence, i, n - 1);
      assert Init(evidence[..n]) == evidence[..n - 1];
    }
  }

  /** A row's segment id is the number of chunks up to and including its own. */
  lemma SegmentIdCountsChunks(evidence: seq<Row>, i: nat)
    requires InOrder(evidence) && i < |evidence|
    ensures SegmentId(evidence, i) == |Split(evidence[..i + 1])|
  {
    PeersAddNothing(evidence, i, |evidence|);
    PrefixSum(evidence, i, i);
    assert Init(evidence[..i + 1]) == evidence[..i];
  }

  /** The chunk with an id, counted from one. */
  function ChunkAt(chunks: seq<seq<Row>>, id: nat): seq<Row> {
    if 1 <= id <= |chunks| then chunks[id - 1] else []
  }

  /** One more row starts a chunk or ends the last one. */
  predicate GrowsBy(chunks: seq<seq<Row>>, grown: seq<seq<Row>>, r: Row) {
    || grown == chunks + [[r]]
    || (chunks != [] && grown == Init(chunks) + [Last(chunks) + [r]])
  }

  lemma SplitGrows(evidence: seq<Row>, i: nat)
    requires i < |evidence|
    ensures GrowsBy(Split(evidence[..i]), Split(evidence[..i + 1]), evidence[i])
  {
    assert Init(evidence[..i + 1]) == evidence[..i] && Last(evidence[..i + 1]) == evidence[i];
  }

  lemma GrownChunk(chunks: seq<seq<Row>>, grown: seq<seq<Row>>, r: Row, id: nat)
    requires GrowsBy(chunks, grown, r)
    ensures ChunkAt(grown, id) == ChunkAt(chunks, id) + (if id == |grown| then [r] else [])
  {
  }

  lemma {:induction false} SegmentsAreChunksUpTo(evidence: seq<Row>, id: nat, n: nat)
    requires InOrder(evidence) && n <= |evidence|
    ensures Segment(evidence, id, n)
            == ChunkAt(Split(evidence[..n]), id)
  {
    if n == 0 {
      assert evidence[..0] == [];
    } else {
      SegmentsAreChunksUpTo(evidence, id, n - 1);
      SegmentIdCountsChunks(evidence, n - 1);
      SplitGrows(evidence, n - 1);
      GrownChunk(Split(evidence[..n - 1]), Split(evidence[..n]), evidence[n - 1], id);
    }
  }

  /** Grouping by the running sum of gap flags is sequential splitting at the gaps. */
  lemma SegmentsAreChunks(evidence: seq<Row>, id: nat)
    requires InOrder(evidence)
    ensures Segment(evidence, id, |evidence|)
            == ChunkAt(Split(evidence), id)
  {
    SegmentsAreChunksUpTo(evidence, id, |evidence|);
    assert evidence[..|evidence|] == evidence;
  }

  // ---- Windows ----------------------------------------------------------

  datatype Window = Window(startedAt: int, endedAt: int)

  function MinTs(rows: seq<Row>): (t: int)
    requires rows != []
    ensures (exists i :: 0 <= i < |rows| && rows[i].ts == t) && forall i :: 0 <= i < |rows| ==> t <= rows[i].ts
  {
    if |rows| == 1 || Last(rows).ts < MinTs(Init(rows)) then
      assert |rows| == 1 ==> rows[0] == Last(rows);
      Last(rows).ts
    else MinTs(Init(rows))
  }

  function MaxTs(rows: seq<Row>): (t: int)
    requires rows != []
    ensures (exists i :: 0 <= i < |rows| && rows[i].ts == t) && forall i :: 0 <= i < |rows| ==> rows[i].ts <= t
  {
    if |rows| == 1 || Last(rows).ts > MaxTs(Init(rows)) then
      assert |rows| == 1 ==> rows[0] == Last(rows);
      Last(rows).ts
    else MaxTs(Init(rows))
  }

  function WindowOf(segment: seq<Row>): Window
    requires segment != []
  {
    Window(MinTs(segment), MaxTs(segment))
  }

  lemma {:induction false} ChunksPartition(evidence: seq<Row>)
    ensures Flatten(Split(evidence)) == evidence
  {
    if evidence != [] {
      var r, earlier := Last(evidence), Split(Init(evidence));
      ChunksPartition(Init(evidence));
      assert evidence == Init(evidence) + [r];
      if earlier == [] || r.ts - Last(Init(evidence)).ts > GAP {
        assert Init(earlier + [[r]]) == earlier;
      } else {
        var grown := Init(earlier) + [Last(earlier) + [r]];
        assert Init(grown) == Init(earlier) && Last(grown) == Last(earlier) + [r];
      }
    }
  }

  ghost predicate NonEmpty(chunks: seq<seq<Row>>) {
    forall k :: 0 <= k < |chunks| ==> chunks[k] != []
  }

  ghost predicate ChunksFarApart(chunks: seq<seq<Row>>)
    requires NonEmpty(chunks)
  {
    forall i, j :: 0 <= i < j < |chunks| ==> chunks[j][0].ts - Last(chunks[i]).ts > GAP
  }

  ghost predicate EndBy(chunks: seq<seq<Row>>, ts: int) {
    forall k :: 0 <= k < |chunks| ==> InOrder(chunks[k]) && (chunks[k] != [] ==> Last(chunks[k]).ts <= ts)
  }

  lemma InOrderSnoc(chunk: seq<Row>, r: Row)
    requires InOrder(chunk) && (chunk != [] ==> Last(chunk).ts <= r.ts)
    ensures InOrder(chunk + [r])
  {
  }

  lemma {:induction false} ChunksStayInOrder(evidence: seq<Row>)
    requires InOrder(evidence)
    ensures evidence != [] ==> EndBy(Split(evidence), Last(evidence).ts)
  {
    if evidence != [] {
      var init, r := Init(evidence), Last(evidence);
      ChunksStayInOrder(init);
      if init != [] {
        assert Last(init).ts <= r.ts;
        InOrderSnoc(Last(Split(init)), r);
      }
    }
  }

  lemma {:induction false} SplitIsFarApart(evidence: seq<Row>)
    requires InOrder(evidence)
    ensures ChunksFarApart(Split(evidence))
  {
    if evidence != [] {
      SplitIsFarApart(Init(evidence));
      ChunksStayInOrder(Init(evidence));
    }
  }

  /** No chunk contains a gap of its own. */
  lemma {:induction false} ChunksHaveNoGap(evidence: seq<Row>)
    ensures forall k, a :: 0 <= k < |Split(evidence)| && 0 <= a < |Split(evidence)[k]| - 1 ==>
              Split(evidence)[k][a + 1].ts - Split(evidence)[k][a].ts <= 2 * 60 * 60 * 1000
  {
    if evidence != [] {
      ChunksHaveNoGap(Init(evidence));
    }
  }

  lemma WindowOfChunk(chunk: seq<Row>)
    requires chunk != [] && InOrder(chunk)
    ensures WindowOf(chunk) == Window(chunk[0].ts, Last(chunk).ts)
  {
  }

  /** Windows are more than two hours apart, in order of their segment ids. */
  lemma WindowsAreFarApart(evidence: seq<Row>, i: nat, j: nat)
    requires InOrder(evidence) && 1 <= i < j <= |Split(evidence)|
    ensures var before, after := Segment(evidence, i, |evidence|), Segment(evidence, j, |evidence|);
            && before != [] && after != []
            && WindowOf(after).startedAt - WindowOf(before).endedAt > 2 * 60 * 60 * 1000
  {
    SegmentsAreChunks(evidence, i);
    SegmentsAreChunks(evidence, j);
    SplitIsFarApart(evidence);
    ChunksStayInOrder(evidence);
    WindowOfChunk(Split(evidence)[i - 1]);
    WindowOfChunk(Split(evidence)[j - 1]);
  }

  // ---- The partitioned query --------------------------------------------

  /** LAG(ts) OVER (PARTITION BY vehicle ORDER BY ts), before row `n`. */
  function PartitionLag(evidence: seq<Row>, n: nat, vehicle: nat): Option<int>
    requires n <= |evidence|
  {
    if n == 0 then None
    else if evidence[n - 1].vehicle == vehicle then Some(evidence[n - 1].ts)
    else PartitionLag(evidence, n - 1, vehicle)
  }

  function PartitionSumUpTo(evidence: seq<Row>, n: nat, vehicle: nat, ts: int): nat
    requires n <= |evidence|
  {
    if n == 0 then 0
    else
      PartitionSumUpTo(evidence, n - 1, vehicle, ts)
      + (if evidence[n - 1].vehicle == vehicle && evidence[n - 1].ts <= ts
         then GapFlag(PartitionLag(evidence, n - 1, vehicle), evidence[n - 1].ts) else 0)
  }

  /** SUM(new_segment) OVER (PARTITION BY vehicle ORDER BY ts). */
  function PartitionSegmentId(evidence: seq<Row>, i: nat): nat
    requires i < |evidence|
  {
    PartitionSumUpTo(evidence, |evidence|, evidence[i].vehicle, evidence[i].ts)
  }

  /** GROUP BY vehicle, segment_id. */
  function PartitionSegment(evidence: seq<Row>, vehicle: nat, id: nat, n: nat): seq<Row>
    requires n <= |evidence|
  {
    if n == 0 then []
    else
      PartitionSegment(evidence, vehicle, id, n - 1)
      + (if evidence[n - 1].vehicle == vehicle && PartitionSegmentId(evidence, n - 1) == id
         then [evidence[n - 1]] else [])
  }

  /** The rows of one vehicle among the first `n`. */
  function Mine(evidence: seq<Row>, n: nat, vehicle: nat): (r: seq<Row>)
    requires n <= |evidence|
    ensures |r| <= n
  {
    if n == 0 then []
    else Mine(evidence, n - 1, vehicle) + (if evidence[n - 1].vehicle == vehicle then [evidence[n - 1]] else [])
  }

  /** A sum over a prefix sees only that prefix. */
  lemma {:induction false} SumOfPrefix(evidence: seq<Row>, more: seq<Row>, n: nat, ts: int)
    requires n <= |evidence|
    ensures SumUpTo(evidence + more, n, ts) == SumUpTo(evidence, n, ts)
  {
    if n != 0 { SumOfPrefix(evidence, more, n - 1, ts); }
  }

  lemma {:induction false} PartitionLagIsLag(evidence: seq<Row>, n: nat, vehicle: nat)
    requires n <= |evidence|
    ensures PartitionLag(evidence, n, vehicle) == Lag(Mine(evidence, n, vehicle), |Mine(evidence, n, vehicle)|)
  {
    if n != 0 { PartitionLagIsLag(evidence, n - 1, vehicle); }
  }

  lemma {:induction false} PartitionSumIsSum(evidence: seq<Row>, n: nat, vehicle: nat, ts: int)
    requires n <= |evidence|
    ensures PartitionSumUpTo(evidence, n, vehicle, ts)
            == SumUpTo(Mine(evidence, n, vehicle), |Mine(evidence, n, vehicle)|, ts)
  {
    if n != 0 {
      PartitionSumIsSum(evidence, n - 1, vehicle, ts);
      PartitionLagIsLag(evidence, n - 1, vehicle);
      var mine := Mine(evidence, n - 1, vehicle);
      if evidence[n - 1].vehicle == vehicle {
        var grown := mine + [evidence[n - 1]];
        SumOfPrefix(mine, [evidence[n - 1]], |mine|, ts);
        assert Lag(grown, |mine|) == Lag(mine, |mine|);
        assert NewSegment(grown, |mine|) == GapFlag(PartitionLag(evidence, n - 1, vehicle), evidence[n - 1].ts);
        assert SumUpTo(grown, |grown|, ts)
            == SumUpTo(grown, |mine|, ts) + (if grown[|mine|].ts <= ts then NewSegment(grown, |mine|) else 0);
      } else {
        assert mine + [] == mine;
      }
    }
  }

  lemma {:induction false} MineIsPrefix(evidence: seq<Row>, n: nat, m: nat, vehicle: nat)
    requires n <= m <= |evidence|
    ensures Mine(evidence, n, vehicle) <= Mine(evidence, m, vehicle)
  {
    if n < m { MineIsPrefix(evidence, n, m - 1, vehicle); }
  }

  lemma {:induction false} PartitionSegmentsUpTo(evidence: seq<Row>, vehicle: nat, id: nat, n: nat)
    requires n <= |evidence|
    ensures var mine := Mine(evidence, |evidence|, vehicle);
            && |Mine(evidence, n, vehicle)| <= |mine|
            && PartitionSegment(evidence, vehicle, id, n) == Segment(mine, id, |Mine(evidence, n, vehicle)|)
  {
    var mine := Mine(evidence, |evidence|, vehicle);
    MineIsPrefix(evidence, n, |evidence|, vehicle);
    if n != 0 {
      PartitionSegmentsUpTo(evidence, vehicle, id, n - 1);
      if evidence[n - 1].vehicle == vehicle {
        PartitionSumIsSum(evidence, |evidence|, vehicle, evidence[n - 1].ts);
        var k := |Mine(evidence, n - 1, vehicle)|;
        assert mine[k] == Mine(evidence, n, vehicle)[k] == evidence[n - 1];
      }
    }
  }

  function EvidenceFor(vehicle: nat): Row -> bool {
    (r: Row) => IsEvidence(r) && r.vehicle == vehicle
  }

  /** A row lies in a window of a vehicle exactly when it is the vehicle's and shows charging in one of three ways. */
  lemma RowIsInWindowIff(telemetry: seq<Row>, vehicle: nat, r: Row)
    ensures r in Flatten(Split(Filter(telemetry, EvidenceFor(vehicle)))) <==>
            && r in telemetry && r.vehicle == vehicle
            && (|| r.chargerState == Some("charging")
                || r.chargerStatus == Some("chrgr_sts_connected_charging")
                || (r.timeToEndOfChargeMin.Some? && 1 <= r.timeToEndOfChargeMin.value))
  {
    ChunksPartition(Filter(telemetry, EvidenceFor(vehicle)));
  }

  lemma MineOfSnoc(evidence: seq<Row>, r: Row, vehicle: nat)
    ensures Mine(evidence + [r], |evidence| + 1, vehicle)
            == Mine(evidence, |evidence|, vehicle) + (if r.vehicle == vehicle then [r] else [])
  {
    MineOfPrefix(evidence, [r], |evidence|, vehicle);
  }

  lemma MineOfOneMore(telemetry: seq<Row>, r: Row, vehicle: nat)
    ensures var before, after := Filter(telemetry, IsEvidence), Filter(telemetry + [r], IsEvidence);
            Mine(after, |after|, vehicle)
            == Mine(before, |before|, vehicle) + (if IsEvidence(r) && r.vehicle == vehicle then [r] else [])
  {
    FilterSnoc(telemetry, r, IsEvidence);
    MineOfSnoc(Filter(telemetry, IsEvidence), r, vehicle);
  }

  lemma {:induction false} MineIsVehicleEvidence(telemetry: seq<Row>, vehicle: nat)
    ensures var evidence := Filter(telemetry, IsEvidence);
            Mine(evidence, |evidence|, vehicle) == Filter(telemetry, EvidenceFor(vehicle))
  {
    if telemetry != [] {
      var init, r := Init(telemetry), Last(telemetry);
      MineIsVehicleEvidence(init, vehicle);
      assert telemetry == init + [r];
      MineOfOneMore(init, r, vehicle);
      FilterSnoc(init, r, EvidenceFor(vehicle));
    }
  }

  lemma {:induction false} MineOfPrefix(evidence: seq<Row>, more: seq<Row>, n: nat, vehicle: nat)
    requires n <= |evidence|
    ensures Mine(evidence + more, n, vehicle) == Mine(evidence, n, vehicle)
  {
    if n != 0 { MineOfPrefix(evidence, more, n - 1, vehicle); }
  }

  /** Restricted to one vehicle, the all-vehicles query is the single-vehicle query. */
  lemma PartitionedQueryIsPerVehicle(telemetry: seq<Row>, vehicle: nat, id: nat)
    ensures var all := Filter(telemetry, IsEvidence);
            var single := Filter(telemetry, EvidenceFor(vehicle));
            PartitionSegment(all, vehicle, id, |all|) == Segment(single, id, |single|)
  {
    var all := Filter(telemetry, IsEvidence);
    PartitionSegmentsUpTo(all, vehicle, id, |all|);
    MineIsVehicleEvidence(telemetry, vehicle);
  }
}

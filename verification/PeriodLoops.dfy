/**
 * When the batch loop of backfill_state_periods.rs, which reads null power
 * states as "unknown", and the streaming loop of rebuild_vehicle_history.rs,
 * whose query skips them, write the same periods.
 */
module PeriodLoops {
  import opened Common
  import opened StatePeriods

  ghost predicate TimesIncrease(rows: seq<Row>) {
    forall i, j :: 0 <= i < j < |rows| ==> rows[i].ts < rows[j].ts
  }

  /** The rows the streaming query selects. */
  function Kept(rows: seq<Row>): seq<Row> {
    Filter(rows, HasState)
  }

  /** What the batch loop writes for `rows`; for the kept rows, what the streaming loop writes. */
  function Periods(rows: seq<Row>): (periods: seq<Period>)
    ensures rows != [] ==> periods != [] && Last(periods).endedAt == Last(rows).ts
  {
    Encode(Samples(rows))
  }

  predicate ReadsUnknown(row: Row) {
    NormalizeState(row.powerState) == "unknown"
  }

  /**
   * A null row lies between rows with a state; the nearest on either side read
   * as unknown and are at most 600 whole seconds apart.
   */
  predicate Bridged(rows: seq<Row>, k: nat)
    requires k < |rows|
  {
    var before, after := Kept(rows[..k]), Kept(rows[k + 1..]);
    && before != [] && after != []
    && ReadsUnknown(Last(before)) && ReadsUnknown(after[0])
    && WholeSeconds(after[0].ts - Last(before).ts) <= MAX_GAP_SECS
  }

  ghost predicate NullsAreBridged(rows: seq<Row>) {
    forall k :: 0 <= k < |rows| && !HasState(rows[k]) ==> Bridged(rows, k)
  }

  // ---- Filtering --------------------------------------------------------

  lemma KeptPrefix(rows: seq<Row>, i: nat)
    requires i < |rows|
    ensures Kept(rows[..i + 1]) == if HasState(rows[i]) then Kept(rows[..i]) + [rows[i]] else Kept(rows[..i])
  {
    assert rows[..i + 1] == rows[..i] + [rows[i]];
    FilterSnoc(rows[..i], rows[i], HasState);
  }

  lemma KeptWithout(rows: seq<Row>, k: nat)
    requires k < |rows| && !HasState(rows[k])
    ensures Kept(rows) == Kept(rows[..k]) + Kept(rows[k + 1..])
  {
    assert rows == rows[..k + 1] + rows[k + 1..];
    FilterConcat(rows[..k + 1], rows[k + 1..], HasState);
    KeptPrefix(rows, k);
  }

  lemma {:induction false} KeptIncreases(rows: seq<Row>)
    requires TimesIncrease(rows)
    ensures TimesIncrease(Kept(rows))
  {
    if rows != [] {
      var rest := Kept(rows[1..]);
      KeptIncreases(rows[1..]);
      forall j | 0 <= j < |rest| ensures rows[0].ts < rest[j].ts {
        assert rest[j] in rows[1..];
      }
      assert Kept(rows) == (if HasState(rows[0]) then [rows[0]] else []) + rest;
    }
  }

  // ---- Encoding one more row --------------------------------------------

  function AsSample(row: Row): Sample {
    Sample(row.ts, NormalizeState(row.powerState))
  }

  /** The same periods with the last one lasting until `t`. */
  function Stretched(periods: seq<Period>, t: int): seq<Period>
    requires periods != []
  {
    Init(periods) + [Last(periods).(endedAt := t)]
  }

  lemma PeriodsSnoc(rows: seq<Row>, row: Row)
    ensures rows == [] ==> Periods(rows + [row]) == [Period(AsSample(row).state, row.ts, row.ts)]
    ensures rows != [] ==>
              Periods(rows + [row]) ==
              if Breaks(AsSample(Last(rows)), AsSample(row))
              then Periods(rows) + [Period(AsSample(row).state, row.ts, row.ts)]
              else Stretched(Periods(rows), row.ts)
  {
    hide Encode, NormalizeState;
    var samples := Samples(rows + [row]);
    EncodeStep(samples, |rows|);
    assert samples[..|rows|] == Samples(rows) && samples[..|rows| + 1] == samples;
  }

  lemma StretchedTwice(periods: seq<Period>, t: int, u: int)
    requires periods != []
    ensures Stretched(Stretched(periods, t), u) == Stretched(periods, u)
    ensures Last(periods).endedAt == t ==> Stretched(periods, t) == periods
  {
  }

  lemma ShorterSpan(from: int, to: int, first: int, last: int)
    requires first <= from <= to <= last
    ensures WholeSeconds(to - from) <= WholeSeconds(last - first)
  {
  }

  // ---- Bridged nulls are invisible --------------------------------------

  /** Behind `i` rows: the batch loop holds what the streaming loop holds, stretched to the last row. */
  ghost predicate InStep(rows: seq<Row>, i: nat) {
    && 0 < i <= |rows|
    && var kept, row := Kept(rows[..i]), rows[i - 1];
       && kept != []
       && Periods(rows[..i]) == Stretched(Periods(kept), row.ts)
       && Last(kept).ts <= row.ts
       && (if HasState(row) then Last(kept) == row else ReadsUnknown(Last(kept)))
  }

  lemma NullReadsUnknown(row: Row)
    requires !HasState(row)
    ensures ReadsUnknown(row)
  {
  }

  lemma FirstKept(rows: seq<Row>)
    requires rows != [] && HasState(rows[0])
    ensures Kept(rows) != [] && Kept(rows)[0] == rows[0]
  {
  }

  /** Between the two ends of a bridge no period breaks. */
  lemma NoBreakInside(before: Row, row: Row, first: Row, last: Row)
    requires ReadsUnknown(before) && ReadsUnknown(row)
    requires first.ts <= before.ts <= row.ts <= last.ts && WholeSeconds(last.ts - first.ts) <= MAX_GAP_SECS
    ensures !Breaks(AsSample(before), AsSample(row))
  {
    ShorterSpan(before.ts, row.ts, first.ts, last.ts);
  }

  /** One more row that does not break the period open behind `rows`. */
  lemma OneMoreStretches(rows: seq<Row>, i: nat)
    requires 0 < i < |rows| && !Breaks(AsSample(rows[i - 1]), AsSample(rows[i]))
    ensures Periods(rows[..i + 1]) == Stretched(Periods(rows[..i]), rows[i].ts)
  {
    assert rows[..i + 1] == rows[..i] + [rows[i]];
    PeriodsSnoc(rows[..i], rows[i]);
  }

  /** A null row stretches the open period. */
  lemma NullStaysInStep(rows: seq<Row>, i: nat)
    requires TimesIncrease(rows) && i < |rows| && InStep(rows, i) && !HasState(rows[i]) && Bridged(rows, i)
    ensures InStep(rows, i + 1)
  {
    hide Periods, Kept, Stretched, NormalizeState, WholeSeconds, Breaks, ReadsUnknown;
    var kept, after := Kept(rows[..i]), Kept(rows[i + 1..]);
    FirstIsElement(after);
    TimesAround(rows, i);
    NullReadsUnknown(rows[i]);
    if !HasState(rows[i - 1]) { NullReadsUnknown(rows[i - 1]); }
    NoBreakInside(rows[i - 1], rows[i], Last(kept), after[0]);
    OneMoreStretches(rows, i);
    StretchedTwice(Periods(kept), rows[i - 1].ts, rows[i].ts);
    KeptPrefix(rows, i);
  }

  /** A row with a state right behind another one. */
  lemma StateStaysInStep(rows: seq<Row>, i: nat)
    requires 0 < i < |rows| && InStep(rows, i) && HasState(rows[i]) && HasState(rows[i - 1])
    ensures InStep(rows, i + 1)
  {
    hide Kept, Stretched, NormalizeState, WholeSeconds, Breaks, ReadsUnknown;
    var kept := Kept(rows[..i]);
    StretchedTwice(Periods(kept), rows[i - 1].ts, rows[i].ts);
    assert rows[..i + 1] == rows[..i] + [rows[i]];
    PeriodsSnoc(rows[..i], rows[i]);
    PeriodsSnoc(kept, rows[i]);
    KeptPrefix(rows, i);
    StretchedTwice(Periods(kept + [rows[i]]), rows[i].ts, rows[i].ts);
  }

  /** A row with a state behind nulls. */
  lemma BridgeStaysInStep(rows: seq<Row>, i: nat)
    requires TimesIncrease(rows) && 0 < i < |rows| && InStep(rows, i)
    requires HasState(rows[i]) && !HasState(rows[i - 1]) && Bridged(rows, i - 1)
    ensures InStep(rows, i + 1)
  {
    hide Periods, Kept, Stretched, NormalizeState, WholeSeconds, Breaks, ReadsUnknown;
    var kept := Kept(rows[..i]);
    KeptPrefix(rows, i - 1);
    FirstKept(rows[i..]);
    NullReadsUnknown(rows[i - 1]);
    NoBreakInside(rows[i - 1], rows[i], Last(kept), rows[i]);
    NoBreakInside(Last(kept), rows[i], Last(kept), rows[i]);
    OneMoreStretches(rows, i);
    PeriodsSnoc(kept, rows[i]);
    StretchedTwice(Periods(kept), rows[i - 1].ts, rows[i].ts);
    KeptPrefix(rows, i);
    StretchedTwice(Periods(kept), rows[i].ts, rows[i].ts);
  }

  lemma EndsAreNotBridged(rows: seq<Row>)
    requires rows != []
    ensures !Bridged(rows, 0) && !Bridged(rows, |rows| - 1)
  {
    assert rows[..0] == [] && rows[|rows|..] == [];
  }

  lemma FirstIsInStep(rows: seq<Row>)
    requires rows != [] && HasState(rows[0])
    ensures InStep(rows, 1)
  {
    hide Periods, Kept, Stretched, NormalizeState, WholeSeconds, Breaks, ReadsUnknown;
    var only := [rows[0]];
    assert rows[..1] == only == [] + only;
    FirstKept(only);
    KeptIsShorter(only);
    assert Kept(only) == only;
    PeriodsSnoc([], rows[0]);
    StretchedTwice(Periods(only), rows[0].ts, rows[0].ts);
  }

  lemma KeptIsShorter(rows: seq<Row>)
    ensures |Kept(rows)| <= |rows|
  {
  }

  lemma {:induction false} BridgedStaysInStep(rows: seq<Row>, i: nat)
    requires TimesIncrease(rows) && NullsAreBridged(rows) && 0 < i <= |rows|
    ensures InStep(rows, i)
  {
    hide InStep, Bridged;
    if i == 1 {
      EndsAreNotBridged(rows);
      FirstIsInStep(rows);
    } else {
      BridgedStaysInStep(rows, i - 1);
      if !HasState(rows[i - 1]) {
        NullStaysInStep(rows, i - 1);
      } else if HasState(rows[i - 2]) {
        StateStaysInStep(rows, i - 1);
      } else {
        BridgeStaysInStep(rows, i - 1);
      }
    }
  }

  lemma BridgedLoopsAgree(rows: seq<Row>)
    requires TimesIncrease(rows) && NullsAreBridged(rows)
    ensures Periods(rows) == Periods(Kept(rows))
  {
    if rows != [] {
      var n := |rows|;
      EndsAreNotBridged(rows);
      BridgedStaysInStep(rows, n);
      assert rows[..n] == rows;
      StretchedTwice(Periods(Kept(rows)), rows[n - 1].ts, rows[n - 1].ts);
    }
  }

  // ---- Any other null shows ---------------------------------------------

  lemma OnlyOnePeriodContains(periods: seq<Period>, i: nat, s: Sample)
    requires OrderedAndDisjoint(periods) && HeldBySome(periods, s)
    requires i < |periods| && Contains(periods[i], s.ts)
    ensures periods[i].state == s.state
  {
    StateAtOnlyContaining(periods, i, s.ts);
    LookupFindsSample(periods, s);
  }

  lemma NeighboursInOnePeriod(periods: seq<Period>, samples: seq<Sample>, i: nat, m: nat)
    requires OrderedAndDisjoint(periods) && Covers(periods, samples) && Gapless(periods, samples)
    requires i < |periods| && m + 1 < |samples|
    requires Contains(periods[i], samples[m].ts) && Contains(periods[i], samples[m + 1].ts)
    ensures samples[m].state == samples[m + 1].state == periods[i].state
    ensures WholeSeconds(samples[m + 1].ts - samples[m].ts) <= MAX_GAP_SECS
  {
    OnlyOnePeriodContains(periods, i, samples[m]);
    OnlyOnePeriodContains(periods, i, samples[m + 1]);
  }

  /** A sample of the kept rows at a time before that of row `k` is one of the rows before it. */
  lemma KeptBefore(rows: seq<Row>, k: nat, s: Sample)
    requires TimesIncrease(rows) && k < |rows| && !HasState(rows[k])
    requires s in Samples(Kept(rows)) && s.ts != rows[k].ts
    ensures s.ts < rows[k].ts ==> s in Samples(Kept(rows[..k]))
    ensures s.ts > rows[k].ts ==> s in Samples(Kept(rows[k + 1..]))
  {
    var before, after := Kept(rows[..k]), Kept(rows[k + 1..]);
    KeptWithout(rows, k);
    assert Samples(Kept(rows)) == Samples(before) + Samples(after);
    TimesAround(rows, k);
  }

  lemma TimesAround(rows: seq<Row>, k: nat)
    requires TimesIncrease(rows) && k < |rows|
    ensures forall row :: row in Kept(rows[..k]) ==> row.ts < rows[k].ts
    ensures forall row :: row in Kept(rows[k + 1..]) ==> rows[k].ts < row.ts
  {
    forall row | row in Kept(rows[..k]) ensures row.ts < rows[k].ts {
      assert row in rows[..k];
    }
    forall row | row in Kept(rows[k + 1..]) ensures rows[k].ts < row.ts {
      assert row in rows[k + 1..];
    }
  }

  /** The period of a null row begins before it and ends behind it, at rows with a state. */
  lemma NullInsideItsPeriod(rows: seq<Row>, k: nat, i: nat)
    requires TimesIncrease(rows) && k < |rows| && !HasState(rows[k])
    requires EndsAreSamples(Periods(rows), Samples(Kept(rows)))
    requires i < |Periods(rows)| && Contains(Periods(rows)[i], rows[k].ts)
    ensures Kept(rows[..k]) != [] && Kept(rows[k + 1..]) != []
    ensures Contains(Periods(rows)[i], Last(Kept(rows[..k])).ts)
    ensures Contains(Periods(rows)[i], Kept(rows[k + 1..])[0].ts)
  {
    hide Periods, Kept, NormalizeState;
    var p, before, after := Periods(rows)[i], Kept(rows[..k]), Kept(rows[k + 1..]);
    var first, last := Sample(p.startedAt, p.state), Sample(p.endedAt, p.state);
    NullTimeIsNotKept(rows, k);
    KeptBefore(rows, k, first);
    KeptBefore(rows, k, last);
    TimesAround(rows, k);
    var x :| 0 <= x < |before| && Samples(before)[x] == first;
    var y :| 0 <= y < |after| && Samples(after)[y] == last;
    PartsIncrease(rows, k);
    assert before[x].ts <= Last(before).ts && after[0].ts <= after[y].ts;
    LastIsElement(before);
    FirstIsElement(after);
  }

  lemma LastIsElement<T>(s: seq<T>)
    ensures s == [] || Last(s) in s
  {
  }

  lemma NullTimeIsNotKept(rows: seq<Row>, k: nat)
    requires TimesIncrease(rows) && k < |rows| && !HasState(rows[k])
    ensures forall s :: s in Samples(Kept(rows)) ==> s.ts != rows[k].ts
  {
    forall s | s in Samples(Kept(rows)) ensures s.ts != rows[k].ts {
      var x :| 0 <= x < |Kept(rows)| && Samples(Kept(rows))[x] == s;
      assert Kept(rows)[x] in rows && HasState(Kept(rows)[x]);
    }
  }

  lemma PartsIncrease(rows: seq<Row>, k: nat)
    requires TimesIncrease(rows) && k < |rows|
    ensures TimesIncrease(Kept(rows[..k])) && TimesIncrease(Kept(rows[k + 1..]))
  {
    KeptIncreases(rows[..k]);
    KeptIncreases(rows[k + 1..]);
  }

  lemma AgreementBridges(rows: seq<Row>, k: nat)
    requires TimesIncrease(rows) && k < |rows| && !HasState(rows[k])
    requires Periods(rows) == Periods(Kept(rows))
    ensures Bridged(rows, k)
  {
    hide Periods, Kept, Filter, NormalizeState, WholeSeconds, OrderedAndDisjoint, EndsAreSamples, Covers, Gapless,
         Contains;
    var before, after, kept := Kept(rows[..k]), Kept(rows[k + 1..]), Kept(rows);
    PeriodsOfBoth(rows);
    var i := PeriodOfNull(rows, k);
    NullInsideItsPeriod(rows, k, i);
    KeptWithout(rows, k);
    var m := |before| - 1;
    assert kept[m] == Last(before) && kept[m + 1] == after[0];
    NeighboursInOnePeriod(Periods(rows), Samples(kept), i, m);
  }

  lemma PeriodsOfBoth(rows: seq<Row>)
    requires TimesIncrease(rows) && Periods(rows) == Periods(Kept(rows))
    ensures OrderedAndDisjoint(Periods(rows))
    ensures Covers(Periods(rows), Samples(rows)) && Covers(Periods(rows), Samples(Kept(rows)))
    ensures EndsAreSamples(Periods(rows), Samples(Kept(rows))) && Gapless(Periods(rows), Samples(Kept(rows)))
  {
    KeptIncreases(rows);
    assert Increasing(Samples(rows)) && Increasing(Samples(Kept(rows)));
    EncodingIsOrdered(Samples(rows));
    EncodingCovers(Samples(rows));
    EncodingCovers(Samples(Kept(rows)));
    EncodingEndsAreSamples(Samples(Kept(rows)));
    EncodingIsGapless(Samples(Kept(rows)));
  }

  lemma PeriodOfNull(rows: seq<Row>, k: nat) returns (i: nat)
    requires k < |rows| && !HasState(rows[k]) && Covers(Periods(rows), Samples(rows))
    ensures i < |Periods(rows)| && Contains(Periods(rows)[i], rows[k].ts) && Periods(rows)[i].state == "unknown"
  {
    var periods, s := Periods(rows), Samples(rows)[k];
    assert HeldBySome(periods, s);
    i :| 0 <= i < |periods| && Contains(periods[i], s.ts) && periods[i].state == s.state;
  }

  // ---- The exact condition ----------------------------------------------

  /** Both loops write the same periods exactly when every null row is bridged. */
  lemma LoopsAgreeIff(rows: seq<Row>)
    requires TimesIncrease(rows)
    ensures Encode(Samples(rows)) == Encode(Samples(Filter(rows, HasState))) <==> NullsAreBridged(rows)
  {
    if NullsAreBridged(rows) {
      BridgedLoopsAgree(rows);
    }
    if Periods(rows) == Periods(Kept(rows)) {
      forall k | 0 <= k < |rows| && !HasState(rows[k]) ensures Bridged(rows, k) {
        AgreementBridges(rows, k);
      }
    }
  }

  /** On rows that all carry a state they agree whatever the times are. */
  lemma LoopsAgreeWithoutNulls(rows: seq<Row>)
    requires forall i :: 0 <= i < |rows| ==> HasState(rows[i])
    ensures Encode(Samples(rows)) == Encode(Samples(Filter(rows, HasState)))
  {
    NothingToFilter(rows);
  }

  lemma {:induction false} NothingToFilter(rows: seq<Row>)
    requires forall i :: 0 <= i < |rows| ==> HasState(rows[i])
    ensures Filter(rows, HasState) == rows
  {
    if rows != [] { NothingToFilter(rows[1..]); }
  }

  /** One null between two equal known states is enough to make them differ. */
  lemma LoopsDisagreeOnNulls()
    ensures var rows := [Row(0, Some("sleep")), Row(1000, None), Row(2000, Some("sleep"))];
            Encode(Samples(rows)) != Encode(Samples(Filter(rows, HasState)))
  {
    var rows := [Row(0, Some("sleep")), Row(1000, None), Row(2000, Some("sleep"))];
    SleepIsKnown();
    assert rows[..1] == [rows[0]];
    assert Kept([rows[0]]) == [rows[0]] by { assert [rows[0]][1..] == []; }
    assert !Bridged(rows, 1);
    LoopsAgreeIff(rows);
  }

  lemma SleepIsKnown()
    ensures NormalizeState(Some("sleep")) == "sleep"
  {
    assert TrimRight(TrimLeft("sleep")) == "sleep";
    assert Lowercase("sleep") == "sleep";
  }
}

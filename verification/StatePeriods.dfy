/**
 * Run-length encoding of power states, written twice in the source: the batch
 * loop of backfill_state_periods.rs and the streaming loop of
 * rebuild_vehicle_history.rs. Times are whole milliseconds.
 */
module StatePeriods {
  import opened Common

  const MAX_GAP_SECS := 600

  datatype Row = Row(ts: int, powerState: Option<string>)

  datatype Sample = Sample(ts: int, state: string)

  datatype Period = Period(state: string, startedAt: int, endedAt: int)

  // ---- Normalisation ----------------------------------------------------

  /** The characters with Unicode property White_Space. */
  predicate IsWhitespace(c: char) {
    var n := c as int;
    || 0x09 <= n <= 0x0D
    || n in {0x20, 0x85, 0xA0, 0x1680, 0x2028, 0x2029, 0x202F, 0x205F, 0x3000}
    || 0x2000 <= n <= 0x200A
  }

  function TrimLeft(s: string): string {
    if s != "" && IsWhitespace(s[0]) then TrimLeft(s[1..]) else s
  }

  function TrimRight(s: string): string {
    if s != "" && IsWhitespace(s[|s| - 1]) then TrimRight(s[..|s| - 1]) else s
  }

  function Lowercase(s: string): string {
    seq(|s|, i requires 0 <= i < |s| =>
          if 'A' <= s[i] <= 'Z' then ((s[i] as int) - ('A' as int) + ('a' as int)) as char else s[i])
  }

  const KNOWN_STATES: set<string> := {"drive", "charging", "ready", "sleep", "offline", "updating"}

  function NormalizeState(powerState: Option<string>): (state: string)
    ensures state in KNOWN_STATES + {"unknown"}
  {
    if powerState.None? then "unknown"
    else
      var s := Lowercase(TrimRight(TrimLeft(powerState.value)));
      if s == "go" then "drive" else if s in KNOWN_STATES then s else "unknown"
  }

  lemma TrimmedStays(s: string)
    requires s != "" ==> !IsWhitespace(s[0]) && !IsWhitespace(s[|s| - 1])
    ensures TrimRight(TrimLeft(s)) == s
  {
  }

  /** A normal state is its own normal form. */
  lemma NormalizeIsIdempotent(powerState: Option<string>)
    ensures NormalizeState(Some(NormalizeState(powerState))) == NormalizeState(powerState)
  {
    var s := NormalizeState(powerState);
    TrimmedStays(s);
    assert Lowercase(s) == s;
  }

  /** The word is the name, but for ASCII letters written large. */
  ghost predicate Spells(word: string, name: string) {
    && |word| == |name|
    && forall i :: 0 <= i < |word| ==>
         word[i] == name[i] || ('A' <= word[i] <= 'Z' && word[i] as int + 32 == name[i] as int)
  }

  ghost predicate IsBlank(s: string, from: nat, to: nat) {
    forall i :: from <= i < to && i < |s| ==> IsWhitespace(s[i])
  }

  /** A name in small letters, between blanks and in any case. */
  ghost predicate Reads(text: string, name: string) {
    exists i, j :: 0 <= i <= j <= |text| && IsBlank(text, 0, i) && IsBlank(text, j, |text|) && Spells(text[i..j], name)
  }

  lemma {:induction false} TrimLeftIsSuffix(s: string) returns (i: nat)
    ensures i <= |s| && IsBlank(s, 0, i) && TrimLeft(s) == s[i..]
    ensures i < |s| ==> !IsWhitespace(s[i])
  {
    i := 0;
    if s != "" && IsWhitespace(s[0]) {
      var k := TrimLeftIsSuffix(s[1..]);
      i := k + 1;
    }
  }

  lemma {:induction false} TrimRightIsPrefix(s: string) returns (j: nat)
    ensures j <= |s| && IsBlank(s, j, |s|) && TrimRight(s) == s[..j]
    ensures j > 0 ==> !IsWhitespace(s[j - 1])
  {
    j := |s|;
    if s != "" && IsWhitespace(s[|s| - 1]) {
      j := TrimRightIsPrefix(s[..|s| - 1]);
    }
  }

  /** Small letters only. */
  ghost predicate IsName(name: string) {
    name != "" && forall i :: 0 <= i < |name| ==> 'a' <= name[i] <= 'z'
  }

  lemma LowercaseIffSpells(word: string, name: string)
    requires IsName(name)
    ensures Lowercase(word) == name <==> Spells(word, name)
  {
    if Lowercase(word) == name {
      assert forall i :: 0 <= i < |word| ==> Lowercase(word)[i] == name[i];
    }
  }

  lemma TrimmedIffReads(text: string, name: string)
    requires IsName(name)
    ensures Lowercase(TrimRight(TrimLeft(text))) == name <==> Reads(text, name)
  {
    var i := TrimLeftIsSuffix(text);
    var k := TrimRightIsPrefix(text[i..]);
    LowercaseIffSpells(TrimRight(TrimLeft(text)), name);
    assert text[i..][..k] == text[i..i + k];
    forall p | i + k <= p < |text| ensures IsWhitespace(text[p]) {
      assert text[p] == text[i..][p - i];
    }
    forall a, b | 0 <= a <= b <= |text| && IsBlank(text, 0, a) && IsBlank(text, b, |text|) && Spells(text[a..b], name)
      ensures a == i && b == i + k
    {
      var word := text[a..b];
      assert !IsWhitespace(word[0]) && !IsWhitespace(word[|word| - 1]);
      assert text[a] == word[0] && text[b - 1] == word[|word| - 1];
    }
  }

  /** A power state is known exactly when it reads as one of seven words; "go" is another word for driving. */
  lemma NormalizeStateIff(powerState: Option<string>, state: string)
    requires state in {"drive", "charging", "ready", "sleep", "offline", "updating"}
    ensures NormalizeState(powerState) == state <==>
            powerState.Some? && (Reads(powerState.value, state) || (state == "drive" && Reads(powerState.value, "go")))
  {
    if powerState.Some? {
      TrimmedIffReads(powerState.value, state);
      TrimmedIffReads(powerState.value, "go");
    }
  }

  function Samples(rows: seq<Row>): seq<Sample> {
    seq(|rows|, i requires 0 <= i < |rows| => Sample(rows[i].ts, NormalizeState(rows[i].powerState)))
  }

  // ---- The encoding -----------------------------------------------------

  /** A new period begins between two consecutive samples. */
  predicate Breaks(before: Sample, after: Sample) {
    after.state != before.state || WholeSeconds(after.ts - before.ts) > MAX_GAP_SECS
  }

  /** The periods of a sample sequence, adding one sample at a time. */
  function Encode(samples: seq<Sample>): (periods: seq<Period>)
    ensures samples != [] ==> periods != [] && Last(periods).endedAt == Last(samples).ts
                              && Last(periods).state == Last(samples).state
  {
    if samples == [] then []
    else
      var s := Last(samples);
      var earlier := Encode(Init(samples));
      if earlier == [] || Breaks(Last(Init(samples)), s) then earlier + [Period(s.state, s.ts, s.ts)]
      else Init(earlier) + [Last(earlier).(endedAt := s.ts)]
  }

  lemma EncodeStep(samples: seq<Sample>, i: nat)
    requires i < |samples|
    ensures i == 0 ==> Encode(samples[..1]) == [Period(samples[0].state, samples[0].ts, samples[0].ts)]
    ensures i > 0 ==>
              var earlier, s := Encode(samples[..i]), samples[i];
              Encode(samples[..i + 1]) ==
              if Breaks(samples[i - 1], s) then earlier + [Period(s.state, s.ts, s.ts)]
              else Init(earlier) + [Last(earlier).(endedAt := s.ts)]
  {
    assert Init(samples[..i + 1]) == samples[..i];
  }

  // ---- The two loops ----------------------------------------------------

  /** Between two rows: the closed periods and the one still open encode the rows so far. */
  ghost predicate Encoded(samples: seq<Sample>, i: nat, closed: seq<Period>, current: Period) {
    && 0 < i <= |samples|
    && current.state == samples[i - 1].state && current.endedAt == samples[i - 1].ts
    && closed + [current] == Encode(samples[..i])
  }

  lemma EncodedFirst(samples: seq<Sample>)
    requires samples != []
    ensures Encoded(samples, 1, [], Period(samples[0].state, samples[0].ts, samples[0].ts))
  {
    EncodeStep(samples, 0);
  }

  lemma EncodedNext(samples: seq<Sample>, i: nat, closed: seq<Period>, current: Period)
    requires Encoded(samples, i, closed, current) && i < |samples|
    ensures var s := samples[i];
            if s.state != current.state || WholeSeconds(s.ts - current.endedAt) > MAX_GAP_SECS
            then Encoded(samples, i + 1, closed + [current], Period(s.state, s.ts, s.ts))
            else Encoded(samples, i + 1, closed, current.(endedAt := s.ts))
  {
    EncodeStep(samples, i);
    assert Init(closed + [current]) == closed;
  }

  lemma EncodedAll(samples: seq<Sample>, closed: seq<Period>, current: Period)
    requires samples != [] && Encoded(samples, |samples|, closed, current)
    ensures closed + [current] == Encode(samples)
  {
    assert samples[..|samples|] == samples;
  }

  /** process_vehicle: collect the periods, then insert them. */
  method BackfillVehicle(rows: seq<Row>) returns (periods: seq<Period>)
    ensures periods == Encode(Samples(rows))
  {
    hide Encoded;
    periods := [];
    if rows == [] {
      return;
    }
    var currentState := NormalizeState(rows[0].powerState);
    var periodStart, prevTs := rows[0].ts, rows[0].ts;
    ghost var samples := Samples(rows);
    EncodedFirst(samples);
    for i := 1 to |rows|
      invariant Encoded(samples, i, periods, Period(currentState, periodStart, prevTs))
    {
      var state := NormalizeState(rows[i].powerState);
      var gapSecs := WholeSeconds(rows[i].ts - prevTs);
      EncodedNext(samples, i, periods, Period(currentState, periodStart, prevTs));
      if state != currentState || gapSecs > MAX_GAP_SECS {
        periods := periods + [Period(currentState, periodStart, prevTs)];
        periodStart := rows[i].ts;
        currentState := state;
      }
      prevTs := rows[i].ts;
    }
    EncodedAll(samples, periods, Period(currentState, periodStart, prevTs));
    periods := periods + [Period(currentState, periodStart, prevTs)];
  }

  predicate HasState(row: Row) { row.powerState.Some? }

  /** Inserting one period; a reversed one is skipped. */
  function Insert(table: seq<Period>, p: Period): seq<Period> {
    if p.endedAt < p.startedAt then table else table + [p]
  }

  /** backfill_state_periods_for_vehicle: insert each period as soon as it closes. */
  method RebuildVehicle(rows: seq<Row>) returns (table: seq<Period>, inserted: nat)
    requires InTimeOrder(rows)
    ensures table == Encode(Samples(Filter(rows, HasState)))
    ensures inserted == |table|
  {
    hide Encoded;
    table, inserted := [], 0;
    var stream := Filter(rows, HasState);
    FilterKeepsOrder(rows);
    if stream == [] {
      return;
    }
    var currentState := NormalizeState(stream[0].powerState);
    var periodStart, prevTs := stream[0].ts, stream[0].ts;
    ghost var samples := Samples(stream);
    EncodedFirst(samples);
    for i := 1 to |stream|
      invariant Encoded(samples, i, table, Period(currentState, periodStart, prevTs))
      invariant periodStart <= prevTs == stream[i - 1].ts
      invariant inserted == |table|
    {
      var state := NormalizeState(stream[i].powerState);
      EncodedNext(samples, i, table, Period(currentState, periodStart, prevTs));
      if state != currentState || WholeSeconds(stream[i].ts - prevTs) > MAX_GAP_SECS {
        table := Insert(table, Period(currentState, periodStart, prevTs));
        inserted := inserted + 1;
        periodStart := stream[i].ts;
        currentState := state;
      }
      prevTs := stream[i].ts;
    }
    EncodedAll(samples, table, Period(currentState, periodStart, prevTs));
    table := Insert(table, Period(currentState, periodStart, prevTs));
    inserted := inserted + 1;
  }

  ghost predicate InTimeOrder(rows: seq<Row>) {
    forall i, j :: 0 <= i < j < |rows| ==> rows[i].ts <= rows[j].ts
  }

  lemma {:induction false} FilterKeepsOrder(rows: seq<Row>)
    requires InTimeOrder(rows)
    ensures InTimeOrder(Filter(rows, HasState))
  {
    if rows != [] {
      var rest := Filter(rows[1..], HasState);
      FilterKeepsOrder(rows[1..]);
      forall j | 0 <= j < |rest|
        ensures rows[0].ts <= rest[j].ts
      {
        assert rest[j] in rows[1..];
        var k :| 0 <= k < |rows[1..]| && rows[1..][k] == rest[j];
        assert rows[k + 1] == rest[j];
      }
      if HasState(rows[0]) {
        assert Filter(rows, HasState) == [rows[0]] + rest;
      } else {
        assert Filter(rows, HasState) == rest;
      }
    }
  }

  // ---- What the encoding means ------------------------------------------

  ghost predicate Increasing(samples: seq<Sample>) {
    forall i, j :: 0 <= i < j < |samples| ==> samples[i].ts < samples[j].ts
  }

  ghost predicate Contains(p: Period, t: int) { p.startedAt <= t <= p.endedAt }

  ghost predicate OrderedAndDisjoint(periods: seq<Period>) {
    && (forall i :: 0 <= i < |periods| ==> periods[i].startedAt <= periods[i].endedAt)
    && (forall i, j :: 0 <= i < j < |periods| ==> periods[i].endedAt < periods[j].startedAt)
  }

  ghost predicate HeldBySome(periods: seq<Period>, s: Sample) {
    exists i :: 0 <= i < |periods| && Contains(periods[i], s.ts) && periods[i].state == s.state
  }

  /** Every sample lies in a period with its state. */
  ghost predicate Covers(periods: seq<Period>, samples: seq<Sample>) {
    forall k :: 0 <= k < |samples| ==> HeldBySome(periods, samples[k])
  }

  /** Every period begins and ends at samples with its state. */
  ghost predicate EndsAreSamples(periods: seq<Period>, samples: seq<Sample>) {
    forall i :: 0 <= i < |periods| ==>
      && Sample(periods[i].startedAt, periods[i].state) in samples
      && Sample(periods[i].endedAt, periods[i].state) in samples
  }

  /** No period could be joined with the next one. */
  ghost predicate Maximal(periods: seq<Period>) {
    forall i :: 0 <= i < |periods| - 1 ==>
      || periods[i].state != periods[i + 1].state
      || periods[i + 1].startedAt - periods[i].endedAt >= 601 * 1000
  }

  /** No period bridges a long silence. */
  ghost predicate Gapless(periods: seq<Period>, samples: seq<Sample>) {
    forall i, k :: 0 <= i < |periods| && 0 <= k < |samples| - 1
                   && Contains(periods[i], samples[k].ts) && Contains(periods[i], samples[k + 1].ts) ==>
      samples[k + 1].ts - samples[k].ts < 601 * 1000
  }

  /** The state a list of periods gives a time: that of the first period containing it. */
  ghost function StateAt(periods: seq<Period>, t: int): Option<string> {
    if periods == [] then None
    else if Contains(periods[0], t) then Some(periods[0].state)
    else StateAt(periods[1..], t)
  }

  lemma {:induction false} StateAtOnlyContaining(periods: seq<Period>, i: nat, t: int)
    requires OrderedAndDisjoint(periods) && i < |periods| && Contains(periods[i], t)
    ensures StateAt(periods, t) == Some(periods[i].state)
  {
    if i > 0 {
      assert periods[0].endedAt < periods[i].startedAt;
      StateAtOnlyContaining(periods[1..], i - 1, t);
    }
  }

  lemma LaterPeriodKeepsOrder(periods: seq<Period>, p: Period)
    requires periods != [] && OrderedAndDisjoint(periods)
    requires Last(periods).endedAt < p.startedAt <= p.endedAt
    ensures OrderedAndDisjoint(periods + [p])
  {
    forall i | 0 <= i < |periods| ensures periods[i].endedAt < p.startedAt {
      assert i < |periods| - 1 ==> periods[i].endedAt < Last(periods).startedAt;
    }
  }

  lemma LongerPeriodKeepsOrder(periods: seq<Period>, t: int)
    requires periods != [] && OrderedAndDisjoint(periods) && Last(periods).endedAt <= t
    ensures OrderedAndDisjoint(Init(periods) + [Last(periods).(endedAt := t)])
  {
  }

  lemma {:induction false} EncodingIsOrdered(samples: seq<Sample>)
    requires Increasing(samples)
    ensures OrderedAndDisjoint(Encode(samples))
  {
    if samples != [] {
      var init, s := Init(samples), Last(samples);
      var earlier := Encode(init);
      EncodingIsOrdered(init);
      if earlier != [] {
        assert samples[|init| - 1].ts < s.ts;
        LaterPeriodKeepsOrder(earlier, Period(s.state, s.ts, s.ts));
        LongerPeriodKeepsOrder(earlier, s.ts);
      }
    }
  }

  /** The last sample adds a period or prolongs the last one. */
  lemma EncodeLast(samples: seq<Sample>)
    requires samples != []
    ensures OneMore(Encode(Init(samples)), Encode(samples), Last(samples))
  {
  }

  ghost predicate OneMore(earlier: seq<Period>, periods: seq<Period>, s: Sample) {
    || periods == earlier + [Period(s.state, s.ts, s.ts)]
    || (earlier != [] && periods == Init(earlier) + [Last(earlier).(endedAt := s.ts)])
  }

  lemma LastIsHeld(periods: seq<Period>, s: Sample)
    requires OrderedAndDisjoint(periods)
    requires periods != [] && Last(periods).endedAt == s.ts && Last(periods).state == s.state
    ensures HeldBySome(periods, s)
  {
    assert Contains(Last(periods), s.ts);
  }

  lemma StillHeld(earlier: seq<Period>, periods: seq<Period>, s: Sample, held: Sample)
    requires OneMore(earlier, periods, s) && HeldBySome(earlier, held) && held.ts < s.ts
    ensures HeldBySome(periods, held)
  {
    var i :| 0 <= i < |earlier| && Contains(earlier[i], held.ts) && earlier[i].state == held.state;
    assert periods[i] == earlier[i] || periods[i] == earlier[i].(endedAt := s.ts);
  }

  lemma {:induction false} EncodingCovers(samples: seq<Sample>)
    requires Increasing(samples)
    ensures Covers(Encode(samples), samples)
  {
    hide Encode, OrderedAndDisjoint, HeldBySome, OneMore;
    if samples != [] {
      var init, s := Init(samples), Last(samples);
      var earlier, periods := Encode(init), Encode(samples);
      EncodingCovers(init);
      EncodingIsOrdered(samples);
      EncodeLast(samples);
      LastIsHeld(periods, s);
      forall k | 0 <= k < |init|
        ensures HeldBySome(periods, init[k])
      {
        assert init[k].ts < s.ts && HeldBySome(earlier, init[k]);
        StillHeld(earlier, periods, s, init[k]);
      }
    }
  }

  lemma {:induction false} EncodingEndsAreSamples(samples: seq<Sample>)
    ensures EndsAreSamples(Encode(samples), samples)
  {
    if samples != [] {
      var init, s := Init(samples), Last(samples);
      EncodingEndsAreSamples(init);
      assert samples == init + [s];
      assert Sample(s.ts, s.state) == s;
    }
  }

  lemma {:induction false} EncodingIsMaximal(samples: seq<Sample>)
    ensures Maximal(Encode(samples))
  {
    if samples != [] {
      EncodingIsMaximal(Init(samples));
    }
  }

  /** Times before the last sample lie in the same period as before. */
  lemma EarlierPeriodHolds(samples: seq<Sample>, i: nat, t: int)
    requires |samples| > 1 && Increasing(samples) && t <= Last(Init(samples)).ts
    requires i < |Encode(samples)| && Contains(Encode(samples)[i], t)
    ensures i < |Encode(Init(samples))| && Contains(Encode(Init(samples))[i], t)
  {
    assert samples[|samples| - 2].ts < Last(samples).ts;
  }

  lemma BreakSeparates(samples: seq<Sample>, i: nat)
    requires |samples| > 1 && Increasing(samples) && i < |Encode(samples)|
    requires Breaks(Last(Init(samples)), Last(samples))
    ensures !Contains(Encode(samples)[i], Last(Init(samples)).ts) || !Contains(Encode(samples)[i], Last(samples).ts)
  {
    hide Breaks;
    var earlier, s := Encode(Init(samples)), Last(samples);
    EncodingIsOrdered(Init(samples));
    assert samples[|samples| - 2].ts < s.ts;
    assert Encode(samples) == earlier + [Period(s.state, s.ts, s.ts)];
    assert i < |earlier| ==> earlier[i].endedAt <= Last(earlier).endedAt;
  }

  /** The last two samples share a period only when they are near. */
  lemma LastTwoAreNear(samples: seq<Sample>, i: nat)
    requires |samples| > 1 && Increasing(samples) && i < |Encode(samples)|
    requires Contains(Encode(samples)[i], Last(Init(samples)).ts) && Contains(Encode(samples)[i], Last(samples).ts)
    ensures Last(samples).ts - Last(Init(samples)).ts < 601 * 1000
  {
    hide Encode, Contains, Increasing;
    if Breaks(Last(Init(samples)), Last(samples)) {
      BreakSeparates(samples, i);
    }
  }

  lemma {:induction false} EncodingIsGapless(samples: seq<Sample>)
    requires Increasing(samples)
    ensures Gapless(Encode(samples), samples)
  {
    hide Encode, WholeSeconds, Contains;
    if samples != [] {
      var init, periods := Init(samples), Encode(samples);
      EncodingIsGapless(init);
      forall i, k | 0 <= i < |periods| && 0 <= k < |samples| - 1
                    && Contains(periods[i], samples[k].ts) && Contains(periods[i], samples[k + 1].ts)
        ensures samples[k + 1].ts - samples[k].ts < 601 * 1000
      {
        if k + 1 < |init| {
          assert init[k] == samples[k] && init[k + 1] == samples[k + 1];
          EarlierPeriodHolds(samples, i, samples[k].ts);
          EarlierPeriodHolds(samples, i, samples[k + 1].ts);
        } else {
          LastTwoAreNear(samples, i);
        }
      }
    }
  }

  /**
   * Round trip: for strictly increasing rows the periods are ordered, disjoint,
   * maximal and gapless, and looking a row's time up gives back its state.
   */
  lemma RunLengthRoundTrip(rows: seq<Row>)
    requires forall i, j :: 0 <= i < j < |rows| ==> rows[i].ts < rows[j].ts
    ensures var samples, periods := Samples(rows), Encode(Samples(rows));
            && OrderedAndDisjoint(periods) && Covers(periods, samples) && EndsAreSamples(periods, samples)
            && Maximal(periods) && Gapless(periods, samples)
            && forall k :: 0 <= k < |rows| ==>
                 StateAt(periods, rows[k].ts) == Some(NormalizeState(rows[k].powerState))
  {
    hide Encode, OrderedAndDisjoint, EndsAreSamples, Maximal, Gapless, HeldBySome, NormalizeState, StateAt;
    var samples, periods := Samples(rows), Encode(Samples(rows));
    EncodingIsOrdered(samples);
    EncodingCovers(samples);
    EncodingEndsAreSamples(samples);
    EncodingIsMaximal(samples);
    EncodingIsGapless(samples);
    forall k | 0 <= k < |rows|
      ensures StateAt(periods, rows[k].ts) == Some(NormalizeState(rows[k].powerState))
    {
      LookupFindsSample(periods, samples[k]);
    }
  }

  lemma LookupFindsSample(periods: seq<Period>, s: Sample)
    requires OrderedAndDisjoint(periods) && HeldBySome(periods, s)
    ensures StateAt(periods, s.ts) == Some(s.state)
  {
    var i :| 0 <= i < |periods| && Contains(periods[i], s.ts) && periods[i].state == s.state;
    StateAtOnlyContaining(periods, i, s.ts);
  }
}

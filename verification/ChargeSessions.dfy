/**
 * What the charge detector computes over whole runs: each session is a summary
 * of exactly its own events, energy is the integral of the accepted readings,
 * and neither restarts nor rejected readings change anything.
 */
module ChargeSessions {
  import opened Common
  import opened ChargeDetector

  // ---- Independent definitions ------------------------------------------

  /** The first present value, if any. */
  function FirstSome<T(==)>(s: seq<Option<T>>): (r: Option<T>)
    ensures r.None? ==> forall i :: 0 <= i < |s| ==> s[i].None?
    ensures r.Some? ==> exists i :: 0 <= i < |s| && s[i] == r && forall j :: 0 <= j < i ==> s[j].None?
  {
    if s == [] then None else if s[0].Some? then s[0] else FirstSome(s[1..])
  }

  /** The last present value, if any. */
  function LastSome<T(==)>(s: seq<Option<T>>): (r: Option<T>)
    ensures r.None? ==> forall i :: 0 <= i < |s| ==> s[i].None?
    ensures r.Some? ==> exists i :: 0 <= i < |s| && s[i] == r && forall j :: i < j < |s| ==> s[j].None?
  {
    if s == [] then None else OrElse(Last(s), LastSome(Init(s)))
  }

  lemma {:induction false} FirstSomeSnoc<T>(s: seq<Option<T>>, x: Option<T>)
    ensures FirstSome(s + [x]) == OrElse(FirstSome(s), x)
  {
    if s != [] {
      assert (s + [x])[1..] == s[1..] + [x];
      FirstSomeSnoc(s[1..], x);
    }
  }

  function Levels(log: seq<Input>): seq<Option<real>> {
    seq(|log|, i requires 0 <= i < |log| => log[i].event.batteryLevel)
  }

  function Places(log: seq<Input>): seq<Option<Place>> {
    seq(|log|, i requires 0 <= i < |log| => ValidPlace(log[i].event))
  }

  datatype Reading = Reading(kw: real, ts: int)

  /** The greatest power so far; zero before the first reading. */
  function Peak(readings: seq<Reading>): (r: real)
    ensures forall i :: 0 <= i < |readings| ==> readings[i].kw <= r
    ensures r == 0.0 || exists i :: 0 <= i < |readings| && readings[i].kw == r
  {
    if readings == [] then 0.0
    else if Last(readings).kw > Peak(Init(readings)) then Last(readings).kw else Peak(Init(readings))
  }

  function LastTime(start: int, readings: seq<Reading>): int {
    if readings == [] then start else Last(readings).ts
  }

  /** Power times the time since the previous accepted reading, in watt-hours. */
  function Integral(start: int, readings: seq<Reading>): real {
    if readings == [] then 0.0
    else Integral(start, Init(readings))
         + Energy(Last(readings).kw, Last(readings).ts - LastTime(start, Init(readings)))
  }

  /** The readings that survive both glitch filters, in order. */
  function Accepted(body: seq<Input>): seq<Reading> {
    if body == [] then []
    else
      var earlier := Accepted(Init(body));
      var e := Last(body).event;
      if e.powerKw.Some? && Plausible(Peak(earlier), Abs(e.powerKw.value))
      then earlier + [Reading(Abs(e.powerKw.value), e.ts)] else earlier
  }

  /** The latest time at which the session's events showed charging. */
  function LastEvidence(log: seq<Input>): int
    requires log != []
  {
    if |log| == 1 || EvidenceOfCharging(true, Last(log).event) then Last(log).event.ts
    else LastEvidence(Init(log))
  }

  /** The events of the session that is open after a run; empty when none is. */
  function SessionLog(vehicle: Id, inputs: seq<Input>): seq<Input> {
    if inputs == [] then []
    else
      match Step(Run(New(vehicle), Init(inputs)).0, Last(inputs)).1
      case SessionStarted => [Last(inputs)]
      case SessionEnded(_) => []
      case NoChange =>
        var before := SessionLog(vehicle, Init(inputs));
        if before == [] then [] else before + [Last(inputs)]
  }

  /** Everything the detector holds about an open session, read off its events. */
  ghost predicate Summarizes(s: State, log: seq<Input>)
    requires log != []
  {
    var start := log[0].event.ts;
    var readings := Accepted(log[1..]);
    && s.isCharging
    && s.activeSession == Some(log[0].newId)
    && s.startedAt == Some(start)
    && s.place == FirstSome(Places(log))
    && s.socStart == FirstSome(Levels(log))
    && (s.socStart.Some? ==> s.lastSoc == LastSome(Levels(log)))
    && s.lastChargeTs == Some(LastEvidence(log))
    && s.lastPowerTs == Some(LastTime(start, readings))
    && s.energyWh == Integral(start, readings)
    && s.peakKw == Peak(readings)
  }

  ghost predicate Idle(s: State) {
    && !s.isCharging && s.activeSession.None? && s.startedAt.None? && s.place.None? && s.socStart.None?
    && s.lastChargeTs.None? && s.lastPowerTs.None? && s.energyWh == 0.0 && s.peakKw == 0.0
  }

  // ---- Sessions are summaries of their events ---------------------------

  lemma AcceptedSnoc(body: seq<Input>, i: Input)
    ensures Accepted(body + [i]) ==
            if i.event.powerKw.Some? && Plausible(Peak(Accepted(body)), Abs(i.event.powerKw.value))
            then Accepted(body) + [Reading(Abs(i.event.powerKw.value), i.event.ts)] else Accepted(body)
  {
    assert Init(body + [i]) == body;
  }

  lemma ReadingSnoc(start: int, readings: seq<Reading>, r: Reading)
    ensures LastTime(start, readings + [r]) == r.ts
    ensures Peak(readings + [r]) == if r.kw > Peak(readings) then r.kw else Peak(readings)
    ensures Integral(start, readings + [r])
            == Integral(start, readings) + Energy(r.kw, r.ts - LastTime(start, readings))
  {
    assert Init(readings + [r]) == readings;
  }

  lemma LogSnoc(log: seq<Input>, i: Input)
    requires log != []
    ensures (log + [i])[0] == log[0] && (log + [i])[1..] == log[1..] + [i]
    ensures Init(log + [i]) == log
    ensures FirstSome(Levels(log + [i])) == OrElse(FirstSome(Levels(log)), i.event.batteryLevel)
    ensures FirstSome(Places(log + [i])) == OrElse(FirstSome(Places(log)), ValidPlace(i.event))
    ensures LastSome(Levels(log + [i])) == OrElse(i.event.batteryLevel, LastSome(Levels(log)))
  {
    assert Levels(log + [i]) == Levels(log) + [i.event.batteryLevel];
    assert Places(log + [i]) == Places(log) + [ValidPlace(i.event)];
    FirstSomeSnoc(Levels(log), i.event.batteryLevel);
    FirstSomeSnoc(Places(log), ValidPlace(i.event));
    assert Init(Levels(log) + [i.event.batteryLevel]) == Levels(log);
  }

  /** Taking in one event keeps every part of the summary but the evidence time. */
  lemma AbsorbingExtendsSummary(s: State, log: seq<Input>, i: Input)
    requires log != [] && Summarizes(s, log)
    ensures var t := Integrate(Absorb(s, i.event), i.event);
            && t.lastChargeTs == s.lastChargeTs
            && t.vehicle == s.vehicle
            && t.lastSoc == OrElse(i.event.batteryLevel, s.lastSoc)
            && Summarizes(t.(lastChargeTs := Some(LastEvidence(log + [i]))), log + [i])
  {
    hide Energy, Integral, Accepted, LastTime, Peak, Plausible, Levels, Places, FirstSome, LastSome, LastEvidence,
         ValidPlace, Abs;
    LogSnoc(log, i);
    AcceptedSnoc(log[1..], i);
    if AcceptsPower(Absorb(s, i.event), i.event) {
      ReadingSnoc(log[0].event.ts, Accepted(log[1..]), Reading(Abs(i.event.powerKw.value), i.event.ts));
    }
  }

  lemma OpeningStartsSummary(s: State, i: Input)
    requires Idle(s) && Step(s, i).1.SessionStarted?
    ensures Summarizes(Step(s, i).0, [i])
  {
    assert Levels([i]) == [i.event.batteryLevel];
    assert Places([i]) == [ValidPlace(i.event)];
    assert [i][1..] == [];
    assert Init([i.event.batteryLevel]) == [];
  }

  lemma NextEventExtendsSummary(s: State, log: seq<Input>, i: Input)
    requires log != [] && Summarizes(s, log)
    ensures !Step(s, i).1.SessionStarted?
    ensures Step(s, i).1.NoChange? ==> Summarizes(Step(s, i).0, log + [i])
    ensures Step(s, i).1.SessionEnded? ==> Idle(Step(s, i).0)
    ensures Step(s, i).0.lastSoc == OrElse(i.event.batteryLevel, s.lastSoc) && Step(s, i).0.vehicle == s.vehicle
  {
    AbsorbingExtendsSummary(s, log, i);
    LogSnoc(log, i);
  }

  /**
   * After any run of a new detector a session is open exactly when the run's
   * last boundary was a start, and its state is the summary of its events.
   */
  lemma {:induction false} RunsAreSummarized(vehicle: Id, inputs: seq<Input>)
    ensures var s := Run(New(vehicle), inputs).0;
            var log := SessionLog(vehicle, inputs);
            && s.vehicle == vehicle
            && s.lastSoc == LastSome(Levels(inputs))
            && (if log == [] then Idle(s) else Summarizes(s, log))
            && |log| <= |inputs|
  {
    if inputs != [] {
      var init, i := Init(inputs), Last(inputs);
      RunsAreSummarized(vehicle, init);
      var s, log := Run(New(vehicle), init).0, SessionLog(vehicle, init);
      assert inputs == init + [i];
      assert Init(Levels(inputs)) == Levels(init);
      assert Last(Levels(inputs)) == i.event.batteryLevel;
      if log == [] {
        if Step(s, i).1.SessionStarted? {
          OpeningStartsSummary(s, i);
        }
      } else {
        NextEventExtendsSummary(s, log, i);
      }
    }
  }

  /** A completed session reports exactly the events between its two boundaries. */
  lemma CompletedSessionIsItsEvents(vehicle: Id, inputs: seq<Input>, i: Input)
    requires Step(Run(New(vehicle), inputs).0, i).1.SessionEnded?
    ensures var log := SessionLog(vehicle, inputs) + [i];
            var c := Step(Run(New(vehicle), inputs).0, i).1.session;
            var readings := Accepted(log[1..]);
            && 2 <= |log|
            && c.sessionId == log[0].newId && c.vehicle == vehicle
            && c.startedAt == log[0].event.ts && c.endedAt == i.event.ts
            && c.place == FirstSome(Places(log))
            && c.socStart == FirstSome(Levels(log))
            && (c.socStart.Some? ==> c.socEnd == LastSome(Levels(log)))
            && c.energyUsedWh == (if Integral(log[0].event.ts, readings) > 0.0
                                  then Some(Integral(log[0].event.ts, readings)) else None)
            && c.peakChargeKw == (if Peak(readings) > 0.0 then Some(Peak(readings)) else None)
            && (Peak(readings) > 0.0 ==> c.chargerType == Some(ClassifyCharger(Peak(readings))))
  {
    RunsAreSummarized(vehicle, inputs);
    var s, log := Run(New(vehicle), inputs).0, SessionLog(vehicle, inputs);
    AbsorbingExtendsSummary(s, log, i);
  }

  /** The average rate over the session gives back the metered energy, or the pack's when none was metered. */
  lemma AverageRateGivesBackEnergy(s: State, endedAt: int, newId: Id)
    ensures var c := Complete(s, endedAt, newId);
            var hours := WholeSeconds(c.endedAt - c.startedAt) as real / 3600.0;
            && (c.avgChargeRateKw.Some? <==> hours > 0.0 && (c.energyUsedWh.Some? || c.energyAddedWh.Some?))
            && (c.avgChargeRateKw.Some? ==>
                  c.avgChargeRateKw.value * 1000.0 * hours
                  == (if c.energyUsedWh.Some? then c.energyUsedWh.value else c.energyAddedWh.value))
            && (c.chargerType.Some? <==> c.peakChargeKw.Some? || c.avgChargeRateKw.Some?)
            && (c.chargerType.Some? && c.peakChargeKw.None? ==>
                  c.chargerType == Some(ClassifyCharger(c.avgChargeRateKw.value)))
  {
    var c := Complete(s, endedAt, newId);
    var hours := WholeSeconds(c.endedAt - c.startedAt) as real / 3600.0;
    if c.avgChargeRateKw.Some? {
      var wh := if c.energyUsedWh.Some? then c.energyUsedWh.value else c.energyAddedWh.value;
      assert c.avgChargeRateKw == Some(wh / 1000.0 / hours);
      DivideBack(wh, hours);
    }
  }

  lemma DivideBack(wh: real, hours: real)
    requires hours != 0.0
    ensures wh / 1000.0 / hours * 1000.0 * hours == wh
  {
    assert wh / 1000.0 / hours * hours == wh / 1000.0;
  }

  // ---- Lifecycle --------------------------------------------------------

  predicate IsBoundary(e: ChargeEvent) { !e.NoChange? }

  function Boundaries(events: seq<ChargeEvent>): seq<ChargeEvent> {
    Filter(events, IsBoundary)
  }

  lemma BoundariesSnoc(events: seq<ChargeEvent>, e: ChargeEvent)
    ensures Boundaries(events + [e]) == Boundaries(events) + (if IsBoundary(e) then [e] else [])
  {
    FilterConcat(events, [e], IsBoundary);
    assert [e][1..] == [];
  }

  /** A start is possible exactly when no session is open, an end exactly when one is. */
  lemma BoundaryFollowsOpenness(vehicle: Id, inputs: seq<Input>, i: Input)
    ensures var event := Step(Run(New(vehicle), inputs).0, i).1;
            && (event.SessionStarted? ==> SessionLog(vehicle, inputs) == [])
            && (event.SessionEnded? ==> SessionLog(vehicle, inputs) != [])
            && (SessionLog(vehicle, inputs + [i]) != []
                <==> event.SessionStarted? || (event.NoChange? && SessionLog(vehicle, inputs) != []))
  {
    RunsAreSummarized(vehicle, inputs);
    assert Init(inputs + [i]) == inputs;
  }

  lemma NothingBegun(vehicle: Id)
    ensures Boundaries(Run(New(vehicle), []).1) == [] && SessionLog(vehicle, []) == []
  {
  }

  /** Starts and ends strictly alternate, beginning with a start. */
  lemma {:induction false} BoundariesAlternate(vehicle: Id, inputs: seq<Input>)
    ensures var bs := Boundaries(Run(New(vehicle), inputs).1);
            && (|bs| % 2 == 1 <==> SessionLog(vehicle, inputs) != [])
            && forall k :: 0 <= k < |bs| ==> (bs[k].SessionStarted? <==> k % 2 == 0)
  {
    hide Run, Step, SessionLog, Boundaries;
    if inputs == [] {
      NothingBegun(vehicle);
    } else {
      var init, i := Init(inputs), Last(inputs);
      BoundariesAlternate(vehicle, init);
      BoundaryFollowsOpenness(vehicle, init, i);
      assert inputs == init + [i];
      RunExtends(New(vehicle), init, i);
      BoundariesSnoc(Run(New(vehicle), init).1, Step(Run(New(vehicle), init).0, i).1);
    }
  }

  /** A session's events are the latest events of the run, none skipped. */
  lemma {:induction false} SessionLogIsSuffix(vehicle: Id, inputs: seq<Input>)
    ensures EndsIn(inputs, SessionLog(vehicle, inputs))
  {
    hide Step, Run;
    if inputs != [] {
      SessionLogIsSuffix(vehicle, Init(inputs));
      SuffixGrows(Init(inputs), SessionLog(vehicle, Init(inputs)), Last(inputs));
      assert inputs == Init(inputs) + [Last(inputs)];
    }
  }

  predicate EndsIn(inputs: seq<Input>, log: seq<Input>) {
    |log| <= |inputs| && log == inputs[|inputs| - |log|..]
  }

  lemma SuffixGrows(inputs: seq<Input>, log: seq<Input>, i: Input)
    requires EndsIn(inputs, log)
    ensures EndsIn(inputs + [i], log + [i]) && EndsIn(inputs + [i], [i]) && EndsIn(inputs + [i], [])
  {
  }

  lemma StillOpenMeansRecent(s: State, i: Input)
    requires s.isCharging ==> s.lastChargeTs.Some?
    ensures var t := Step(s, i).0;
            t.isCharging ==> t.lastChargeTs.Some?
                             && WholeSeconds(i.event.ts - t.lastChargeTs.value) <= CHARGE_TIMEOUT_SECS
  {
  }

  /** An open session showed charging within the last 1800 whole seconds. */
  lemma OpenSessionHasRecentEvidence(vehicle: Id, inputs: seq<Input>)
    requires SessionLog(vehicle, inputs) != []
    ensures WholeSeconds(Last(inputs).event.ts - LastEvidence(SessionLog(vehicle, inputs))) <= CHARGE_TIMEOUT_SECS
  {
    var s := Run(New(vehicle), Init(inputs)).0;
    assert s.isCharging ==> s.lastChargeTs.Some? by { RunsAreSummarized(vehicle, Init(inputs)); }
    StillOpenMeansRecent(s, Last(inputs));
    var t := Step(s, Last(inputs)).0;
    assert t.isCharging && t.lastChargeTs == Some(LastEvidence(SessionLog(vehicle, inputs))) by {
      RunsAreSummarized(vehicle, inputs);
    }
  }

  // ---- In the events' own fields ----------------------------------------

  /** What counts as charging while a session is open. */
  predicate ShowsCharging(e: Event) {
    || e.powerStateCharging
    || e.chargerState == Some(Charging)
    || e.chargerStatus == Some("chrgr_sts_connected_charging")
    || (e.timeToEndOfChargeMin.Some? && e.timeToEndOfChargeMin.value > 0)
  }

  /** `k` is the latest event of the session that showed charging; the first one did in any case. */
  ghost predicate LastToShow(log: seq<Input>, k: nat) {
    && k < |log| && (k == 0 || ShowsCharging(log[k].event))
    && forall j :: k < j < |log| ==> !ShowsCharging(log[j].event)
  }

  lemma {:induction false} LastToShowIsEvidence(log: seq<Input>, k: nat)
    requires LastToShow(log, k)
    ensures LastEvidence(log) == log[k].event.ts
  {
    if k < |log| - 1 {
      LastToShowIsEvidence(Init(log), k);
    }
  }

  /** Without an open session, exactly an event that says it is charging starts one. */
  lemma SessionStartsIff(vehicle: Id, inputs: seq<Input>, i: Input)
    requires SessionLog(vehicle, inputs) == []
    ensures Step(Run(New(vehicle), inputs).0, i).1 ==
            if i.event.powerStateCharging || i.event.chargerState == Some(Charging)
               || i.event.chargerStatus == Some("chrgr_sts_connected_charging")
            then SessionStarted else NoChange
  {
    RunsAreSummarized(vehicle, inputs);
  }

  /**
   * An event ends the open session exactly when it says that charging is done
   * or the charger is gone, that the charger is idle with no time left, or when
   * the latest event to show charging, itself included, is more than 1800 whole
   * seconds old.
   */
  lemma SessionEndsIff(vehicle: Id, inputs: seq<Input>, i: Input, k: nat)
    requires SessionLog(vehicle, inputs) != [] && LastToShow(SessionLog(vehicle, inputs) + [i], k)
    ensures var e := i.event;
            var shown := (SessionLog(vehicle, inputs) + [i])[k].event.ts;
            Step(Run(New(vehicle), inputs).0, i).1.SessionEnded? <==>
              || e.chargerState == Some(Done)
              || e.chargerState == Some(Disconnected)
              || e.chargerStatus == Some("chrgr_sts_not_connected")
              || (e.chargerStatus == Some("chrgr_sts_connected_no_chrg")
                  && !(e.timeToEndOfChargeMin.Some? && e.timeToEndOfChargeMin.value > 0))
              || e.ts - shown >= 1801 * 1000
  {
    hide Run, Integrate, Absorb, Complete;
    var log := SessionLog(vehicle, inputs);
    RunsAreSummarized(vehicle, inputs);
    AbsorbingExtendsSummary(Run(New(vehicle), inputs).0, log, i);
    LastToShowIsEvidence(log + [i], k);
    assert Init(log + [i]) == log;
  }

  /** Some event of every session is the latest to show charging. */
  lemma {:induction false} SomeEventShowedLast(log: seq<Input>) returns (k: nat)
    requires log != []
    ensures LastToShow(log, k)
  {
    if |log| == 1 || ShowsCharging(Last(log).event) {
      k := |log| - 1;
    } else {
      k := SomeEventShowedLast(Init(log));
    }
  }

  /** One kilowatt over an hour is a thousand watt-hours, and energy is linear in power and time. */
  lemma EnergyIsPowerTimesTime(kw: real, milliseconds: int)
    ensures Energy(kw, milliseconds) * 3600.0 == kw * milliseconds as real
  {
    assert 1000.0 * Hours(milliseconds) * 3600.0 == milliseconds as real;
    assert Energy(kw, milliseconds) * 3600.0 == kw * (1000.0 * Hours(milliseconds) * 3600.0);
  }

  /**
   * A reading in an open session counts exactly when its magnitude is above 0
   * and at most 300 kW and no more than five times a peak between 0 and 50 kW;
   * it then adds its power over the time since the last one that counted.
   */
  lemma ReadingCountsIff(s: State, e: Event)
    requires s.isCharging && e.powerKw.Some?
    ensures var t := Integrate(s, e);
            var kw := if e.powerKw.value < 0.0 then -e.powerKw.value else e.powerKw.value;
            if kw == 0.0 || kw > 300.0 || (0.0 < s.peakKw && s.peakKw < 50.0 && 5.0 * s.peakKw < kw) then t == s
            else
              && t == s.(energyWh := t.energyWh, peakKw := t.peakKw, lastPowerTs := Some(e.ts))
              && t.peakKw >= kw && t.peakKw >= s.peakKw && (t.peakKw == kw || t.peakKw == s.peakKw)
              && (t.energyWh - s.energyWh) * 3600.0
                 == if s.lastPowerTs.Some? then kw * (e.ts - s.lastPowerTs.value) as real else 0.0
  {
    if s.lastPowerTs.Some? {
      EnergyIsPowerTimesTime(Abs(e.powerKw.value), e.ts - s.lastPowerTs.value);
    }
  }

  /** The class of a completed session is that of its peak, or of its average without one. */
  lemma ClassFollowsPower(s: State, endedAt: int, newId: Id)
    ensures var c := Complete(s, endedAt, newId);
            var rate := if c.peakChargeKw.Some? then c.peakChargeKw else c.avgChargeRateKw;
            && (c.chargerType == Some(Dc) <==> rate.Some? && rate.value >= 50.0)
            && (c.chargerType == Some(AcL2) <==> rate.Some? && 12.0 <= rate.value && rate.value < 50.0)
            && (c.chargerType == Some(Ac) <==> rate.Some? && rate.value < 12.0)
  {
  }

  /** The pack's energy is the gain in level over the stated capacity, reported exactly when there is a gain. */
  lemma PackEnergyIsLevelGain(s: State, endedAt: int, newId: Id)
    ensures var c := Complete(s, endedAt, newId);
            && c.socStart == s.socStart && c.socEnd == s.lastSoc && c.batteryCapacityWh == s.batteryCapacity
            && (c.energyAddedWh.Some? <==>
                  c.socStart.Some? && c.socEnd.Some? && c.batteryCapacityWh.Some? && c.socStart.value < c.socEnd.value)
            && (c.energyAddedWh.Some? ==>
                  c.energyAddedWh.value * 100.0 == (c.socEnd.value - c.socStart.value) * c.batteryCapacityWh.value)
  {
    var c := Complete(s, endedAt, newId);
    if c.energyAddedWh.Some? {
      var gain, capacity := c.socEnd.value - c.socStart.value, c.batteryCapacityWh.value;
      assert c.energyAddedWh.value == gain / 100.0 * capacity;
      assert gain / 100.0 * capacity * 100.0 == gain * capacity;
    }
  }

  function Limits(inputs: seq<Input>): seq<Option<real>> {
    seq(|inputs|, i requires 0 <= i < |inputs| => inputs[i].event.batteryLimit)
  }

  function Capacities(inputs: seq<Input>): seq<Option<real>> {
    seq(|inputs|, i requires 0 <= i < |inputs| => inputs[i].event.batteryCapacityWh)
  }

  /** Limit and capacity are the last ones any event gave, in a session or not, also for a session that ends. */
  lemma {:induction false} BatteryFieldsAreTheLast(vehicle: Id, inputs: seq<Input>)
    ensures var s := Run(New(vehicle), inputs).0;
            s.chargeLimit == LastSome(Limits(inputs)) && s.batteryCapacity == LastSome(Capacities(inputs))
    ensures inputs != [] && Last(Run(New(vehicle), inputs).1).SessionEnded? ==>
              var c := Last(Run(New(vehicle), inputs).1).session;
              c.chargeLimit == LastSome(Limits(inputs)) && c.batteryCapacityWh == LastSome(Capacities(inputs))
  {
    if inputs != [] {
      var init := Init(inputs);
      BatteryFieldsAreTheLast(vehicle, init);
      assert Init(Limits(inputs)) == Limits(init) && Init(Capacities(inputs)) == Capacities(init);
      BatteryFieldsOfOne(Run(New(vehicle), init).0, Last(inputs));
    }
  }

  lemma BatteryFieldsOfOne(s: State, i: Input)
    ensures Step(s, i).0.chargeLimit == OrElse(i.event.batteryLimit, s.chargeLimit)
    ensures Step(s, i).0.batteryCapacity == OrElse(i.event.batteryCapacityWh, s.batteryCapacity)
    ensures Step(s, i).1.SessionEnded? ==>
              && Step(s, i).1.session.chargeLimit == Step(s, i).0.chargeLimit
              && Step(s, i).1.session.batteryCapacityWh == Step(s, i).0.batteryCapacity
  {
  }

  /** A place is both coordinates of an event, unless one is missing or both are zero. */
  lemma PlaceIff(e: Event)
    ensures ValidPlace(e).Some? <==>
              e.latitude.Some? && e.longitude.Some? && (e.latitude.value != 0.0 || e.longitude.value != 0.0)
    ensures ValidPlace(e).Some? ==>
              Some(ValidPlace(e).value.lat) == e.latitude && Some(ValidPlace(e).value.lng) == e.longitude
  {
  }

  // ---- Energy -----------------------------------------------------------

  predicate Nondecreasing(log: seq<Input>) {
    forall i, j :: 0 <= i <= j < |log| ==> log[i].event.ts <= log[j].event.ts
  }

  predicate InOrder(start: int, readings: seq<Reading>) {
    readings == [] || (LastTime(start, Init(readings)) <= Last(readings).ts && InOrder(start, Init(readings)))
  }

  lemma {:induction false} AcceptedArePlausible(body: seq<Input>)
    ensures forall k :: 0 <= k < |Accepted(body)| ==> 0.0 < Accepted(body)[k].kw <= PLAUSIBLE_MAX_CHARGE_KW
  {
    if body != [] {
      AcceptedArePlausible(Init(body));
    }
  }

  lemma {:induction false} AcceptedInOrder(first: Input, body: seq<Input>)
    requires Nondecreasing([first] + body)
    ensures InOrder(first.event.ts, Accepted(body))
    ensures first.event.ts <= LastTime(first.event.ts, Accepted(body)) <= Last([first] + body).event.ts
  {
    if body != [] {
      var init, i := Init(body), Last(body);
      assert [first] + body == ([first] + init) + [i];
      assert forall k :: 0 <= k < |[first] + init| ==> ([first] + init)[k] == ([first] + body)[k];
      AcceptedInOrder(first, init);
      assert body == init + [i];
      assert ([first] + body)[|init|].event.ts <= ([first] + body)[|init| + 1].event.ts;
      AcceptedSnoc(init, i);
      var r := Reading(if i.event.powerKw.Some? then Abs(i.event.powerKw.value) else 0.0, i.event.ts);
      assert Init(Accepted(init) + [r]) == Accepted(init);
    }
  }

  lemma EnergyMonotone(low: real, high: real, milliseconds: int)
    requires 0.0 <= low <= high && 0 <= milliseconds
    ensures 0.0 <= Energy(low, milliseconds) <= Energy(high, milliseconds)
  {
    assert Hours(milliseconds) >= 0.0;
    assert low * 1000.0 * Hours(milliseconds) <= high * 1000.0 * Hours(milliseconds) by {
      assert (high - low) * 1000.0 * Hours(milliseconds) >= 0.0;
    }
  }

  lemma EnergyAdds(kw: real, a: int, b: int)
    ensures Energy(kw, a) + Energy(kw, b) == Energy(kw, a + b)
  {
    assert Hours(a) + Hours(b) == Hours(a + b);
  }

  /** The integral is nonnegative and never exceeds peak power for the whole span. */
  lemma {:induction false} IntegralIsBounded(start: int, readings: seq<Reading>)
    requires InOrder(start, readings)
    requires forall k :: 0 <= k < |readings| ==> 0.0 < readings[k].kw <= PLAUSIBLE_MAX_CHARGE_KW
    ensures start <= LastTime(start, readings)
    ensures 0.0 <= Peak(readings) <= PLAUSIBLE_MAX_CHARGE_KW
    ensures 0.0 <= Integral(start, readings) <= Energy(Peak(readings), LastTime(start, readings) - start)
  {
    if readings == [] {
      assert Energy(0.0, 0) == 0.0;
    } else {
      var init, r := Init(readings), Last(readings);
      IntegralIsBounded(start, init);
      var span, step := LastTime(start, init) - start, r.ts - LastTime(start, init);
      EnergyMonotone(Peak(init), Peak(readings), span);
      EnergyMonotone(r.kw, Peak(readings), step);
      EnergyAdds(Peak(readings), span, step);
    }
  }

  lemma SessionLogInOrder(vehicle: Id, inputs: seq<Input>)
    requires Nondecreasing(inputs) && SessionLog(vehicle, inputs) != []
    ensures Nondecreasing(SessionLog(vehicle, inputs))
    ensures Last(SessionLog(vehicle, inputs)) == Last(inputs)
  {
    SessionLogIsSuffix(vehicle, inputs);
  }

  lemma ReadingsInOrder(log: seq<Input>)
    requires log != [] && Nondecreasing(log)
    ensures var start, readings := log[0].event.ts, Accepted(log[1..]);
            InOrder(start, readings) && start <= LastTime(start, readings) <= Last(log).event.ts
  {
    assert log == [log[0]] + log[1..];
    AcceptedInOrder(log[0], log[1..]);
  }

  lemma BoundExtends(wh: real, peak: real, span: int, rest: int)
    requires 0.0 <= peak && 0 <= rest && wh <= Energy(peak, span)
    ensures wh <= Energy(peak, span + rest)
  {
    EnergyMonotone(0.0, peak, rest);
    EnergyAdds(peak, span, rest);
  }

  lemma SessionEnergyIsBounded(log: seq<Input>)
    requires log != [] && Nondecreasing(log)
    ensures var readings := Accepted(log[1..]);
            && 0.0 <= Integral(log[0].event.ts, readings)
            && Integral(log[0].event.ts, readings) <= Energy(Peak(readings), Last(log).event.ts - log[0].event.ts)
            && 0.0 <= Peak(readings) <= PLAUSIBLE_MAX_CHARGE_KW
  {
    hide Accepted, Integral, Peak, Energy, Nondecreasing, InOrder, LastTime;
    var start, readings := log[0].event.ts, Accepted(log[1..]);
    var last := LastTime(start, readings);
    assert InOrder(start, readings) && start <= last <= Last(log).event.ts by { ReadingsInOrder(log); }
    AcceptedArePlausible(log[1..]);
    IntegralIsBounded(start, readings);
    BoundExtends(Integral(start, readings), Peak(readings), last - start, Last(log).event.ts - last);
  }

  /** Energy of an open session: the integral of its accepted readings, and its bounds. */
  lemma OpenSessionEnergy(vehicle: Id, inputs: seq<Input>)
    requires Nondecreasing(inputs) && SessionLog(vehicle, inputs) != []
    ensures var s, log := Run(New(vehicle), inputs).0, SessionLog(vehicle, inputs);
            && s.energyWh == Integral(log[0].event.ts, Accepted(log[1..]))
            && 0.0 <= s.energyWh <= Energy(s.peakKw, Last(inputs).event.ts - log[0].event.ts)
            && 0.0 <= s.peakKw <= PLAUSIBLE_MAX_CHARGE_KW
  {
    hide Run, SessionLog, Accepted, Integral, Peak, Energy, Nondecreasing;
    var s, log := Run(New(vehicle), inputs).0, SessionLog(vehicle, inputs);
    var readings := Accepted(log[1..]);
    assert s.energyWh == Integral(log[0].event.ts, readings) && s.peakKw == Peak(readings) by {
      RunsAreSummarized(vehicle, inputs);
    }
    SessionLogInOrder(vehicle, inputs);
    SessionEnergyIsBounded(log);
  }

  /** A completed session reports at most its reported peak over its whole length. */
  lemma CompletedSessionEnergyIsBounded(vehicle: Id, inputs: seq<Input>, i: Input)
    requires Nondecreasing(inputs + [i])
    requires Step(Run(New(vehicle), inputs).0, i).1.SessionEnded?
    ensures var c := Step(Run(New(vehicle), inputs).0, i).1.session;
            c.energyUsedWh.Some? ==>
              && c.peakChargeKw.Some? && 0.0 < c.peakChargeKw.value <= PLAUSIBLE_MAX_CHARGE_KW
              && 0.0 < c.energyUsedWh.value <= Energy(c.peakChargeKw.value, c.endedAt - c.startedAt)
  {
    hide *;
    CompletedSessionIsItsEvents(vehicle, inputs, i);
    SessionLogIsSuffix(vehicle, inputs);
    SuffixGrows(inputs, SessionLog(vehicle, inputs), i);
    SuffixInOrder(inputs + [i], SessionLog(vehicle, inputs) + [i]);
    LogEnergyIsReported(SessionLog(vehicle, inputs), i);
  }

  lemma LogEnergyIsReported(earlier: seq<Input>, i: Input)
    requires earlier != [] && Nondecreasing(earlier + [i])
    ensures var log := earlier + [i];
            var wh, peak := Integral(log[0].event.ts, Accepted(log[1..])), Peak(Accepted(log[1..]));
            wh > 0.0 ==> 0.0 < peak <= PLAUSIBLE_MAX_CHARGE_KW && wh <= Energy(peak, i.event.ts - log[0].event.ts)
  {
    hide Nondecreasing, Accepted, Integral, Peak, Energy;
    SessionEnergyIsBounded(earlier + [i]);
    NoPeakNoEnergy(i.event.ts - earlier[0].event.ts);
  }

  lemma NoPeakNoEnergy(milliseconds: int)
    ensures Energy(0.0, milliseconds) == 0.0
  {
  }

  lemma SuffixInOrder(inputs: seq<Input>, log: seq<Input>)
    requires Nondecreasing(inputs) && EndsIn(inputs, log)
    ensures Nondecreasing(log)
  {
  }

  // ---- Restarts ---------------------------------------------------------

  /** Rebuilding an open session from its snapshot is exact iff its energy is not negative. */
  lemma RestartIsExactIff(vehicle: Id, inputs: seq<Input>)
    requires SessionLog(vehicle, inputs) != []
    ensures var s := Run(New(vehicle), inputs).0;
            && s.activeSession.Some? && s.startedAt.Some? && s.lastChargeTs.Some?
            && (Rehydrate(vehicle, Project(s)) == s <==> s.energyWh >= 0.0)
  {
    RunsAreSummarized(vehicle, inputs);
    var log := SessionLog(vehicle, inputs);
    AcceptedArePlausible(log[1..]);
  }

  /** With nondecreasing clocks a restart at any point of a session is invisible. */
  lemma RestartIsTransparent(vehicle: Id, before: seq<Input>, after: seq<Input>)
    requires Nondecreasing(before) && SessionLog(vehicle, before) != []
    ensures var s := Run(New(vehicle), before).0;
            && s.activeSession.Some? && s.startedAt.Some? && s.lastChargeTs.Some?
            && Run(New(vehicle), before + after)
               == (Run(Rehydrate(vehicle, Project(s)), after).0,
                   Run(New(vehicle), before).1 + Run(Rehydrate(vehicle, Project(s)), after).1)
  {
    OpenSessionEnergy(vehicle, before);
    RestartIsExactIff(vehicle, before);
    RunConcat(New(vehicle), before, after);
  }

  function PlainEvent(ts: int): Event {
    Event(ts, None, None, None, None, None, None, false, None, None, None)
  }

  /** A clock that runs backwards makes the clamp visible in the completed session. */
  lemma RestartIsVisibleAfterNegativeEnergy()
    ensures var s := Run(New(1), [STARTS, EARLIER]).0;
            && s.activeSession.Some? && s.startedAt.Some? && s.lastChargeTs.Some?
            && s.energyWh == -10000.0
            && Run(New(1), [STARTS, EARLIER, ENDS]).1[2].SessionEnded?
            && Run(Rehydrate(1, Project(s)), [ENDS]).1[0].SessionEnded?
            && Run(New(1), [STARTS, EARLIER, ENDS]).1[2].session.energyUsedWh == Some(10000.0)
            && Run(Rehydrate(1, Project(s)), [ENDS]).1[0].session.energyUsedWh == Some(20000.0)
  {
    hide Run, Step, Rehydrate, Project;
    var s := Run(New(1), [STARTS, EARLIER]).0;
    EnergyFalls();
    RunExtends(New(1), [STARTS, EARLIER], ENDS);
    assert [STARTS, EARLIER] + [ENDS] == [STARTS, EARLIER, ENDS];
    EndsWith(s, 10000.0);
    RehydratedEnergyIsZero(s);
    EndsWith(Rehydrate(1, Project(s)), 20000.0);
    RunOfOne(Rehydrate(1, Project(s)), ENDS);
  }

  const STARTS := Input(PlainEvent(3600000).(chargerState := Some(Charging)), 7)
  const EARLIER := Input(PlainEvent(0).(powerKw := Some(10.0)), 8)
  const ENDS := Input(PlainEvent(3600000).(powerKw := Some(20.0), chargerState := Some(Done)), 9)

  lemma RunOfOne(s: State, i: Input)
    ensures |Run(s, [i]).1| == 1 && Run(s, [i]).1[0] == Step(s, i).1 && Run(s, [i]).0 == Step(s, i).0
  {
    RunExtends(s, [], i);
    assert [] + [i] == [i];
  }

  /** The state after the two first inputs, which are out of order. */
  ghost predicate IsEarlier(s: State, wh: real) {
    && s.vehicle == 1 && s.isCharging && s.activeSession == Some(7) && s.startedAt == Some(3600000)
    && s.lastChargeTs == Some(3600000) && s.lastPowerTs == Some(0)
    && s.energyWh == wh && s.peakKw == 10.0
  }

  lemma EnergyFalls()
    ensures |Run(New(1), [STARTS, EARLIER]).1| == 2
    ensures IsEarlier(Run(New(1), [STARTS, EARLIER]).0, -10000.0)
  {
    hide Run;
    RunOfOne(New(1), STARTS);
    RunExtends(New(1), [STARTS], EARLIER);
    assert [STARTS] + [EARLIER] == [STARTS, EARLIER];
    assert Energy(10.0, -3600000) == -10000.0;
  }

  lemma RehydratedEnergyIsZero(s: State)
    requires IsEarlier(s, -10000.0)
    ensures IsEarlier(Rehydrate(1, Project(s)), 0.0)
  {
  }

  lemma EndsWith(s: State, wh: real)
    requires IsEarlier(s, wh - 20000.0)
    requires wh > 0.0
    ensures Step(s, ENDS).1.SessionEnded? && Step(s, ENDS).1.session.energyUsedWh == Some(wh)
  {
    assert Energy(20.0, 3600000) == 20000.0;
  }

  // ---- Glitches ---------------------------------------------------------

  /** An input without its power field, if that is rejected. */
  function Erased(s: State, i: Input): Input {
    if AcceptsPower(s, i.event) then i else i.(event := i.event.(powerKw := None))
  }

  /** The same run with the power field of every rejected reading removed. */
  function EraseRejected(s: State, inputs: seq<Input>): seq<Input> {
    if inputs == [] then []
    else
      var i := Last(inputs);
      EraseRejected(s, Init(inputs))
      + [Erased(Run(s, Init(inputs)).0, i)]
  }

  lemma ErasingOneIsInvisible(s: State, i: Input)
    ensures Step(s, Erased(s, i)) == Step(s, i)
  {
  }

  /** Rejected readings leave no trace in any event, session or later state. */
  lemma {:induction false} RejectedReadingsAreInvisible(s: State, inputs: seq<Input>)
    ensures Run(s, EraseRejected(s, inputs)) == Run(s, inputs)
  {
    hide Step, Run, AcceptsPower;
    if inputs != [] {
      var init, i := Init(inputs), Last(inputs);
      RejectedReadingsAreInvisible(s, init);
      ErasingOneIsInvisible(Run(s, init).0, i);
      RunExtends(s, EraseRejected(s, init), Erased(Run(s, init).0, i));
      RunExtends(s, init, i);
      assert init + [i] == inputs;
    }
  }

  /** `kw` times five to the power `n`. */
  function TimesFivePower(kw: real, n: nat): real { if n == 0 then kw else 5.0 * TimesFivePower(kw, n - 1) }

  lemma {:induction false} TimesFivePowerPositive(kw: real, n: nat)
    requires kw > 0.0
    ensures TimesFivePower(kw, n) > 0.0
  {
    if n != 0 { TimesFivePowerPositive(kw, n - 1); }
  }

  lemma PeakOfOne(readings: seq<Reading>)
    requires readings != [] && Init(readings) == [] && readings[0].kw > 0.0
    ensures Peak(readings) == readings[0].kw
  {
  }

  lemma PeakGrowsAtMostFivefold(readings: seq<Reading>, bound: real)
    requires readings != [] && Plausible(Peak(Init(readings)), Last(readings).kw)
    requires 0.0 < Peak(Init(readings)) <= bound && 5.0 * bound < AC_L2_MAX_KW
    ensures 0.0 < Peak(readings) <= 5.0 * bound
  {
  }

  /** Each accepted reading raises an AC baseline by at most a factor of five. */
  lemma {:induction false} AcBaselineGrowsSlowly(body: seq<Input>)
    requires Accepted(body) != []
    requires TimesFivePower(Accepted(body)[0].kw, |Accepted(body)| - 1) < AC_L2_MAX_KW
    ensures 0.0 < Peak(Accepted(body)) <= TimesFivePower(Accepted(body)[0].kw, |Accepted(body)| - 1)
  {
    hide Peak;
    var init, i := Init(body), Last(body);
    var earlier, readings := Accepted(init), Accepted(body);
    AcceptedArePlausible(body);
    if Init(readings) == [] { PeakOfOne(readings); }
    if earlier == [] {
      assert Init(readings) == [];
    } else if readings == earlier {
      AcBaselineGrowsSlowly(init);
    } else {
      assert Init(readings) == earlier;
      TimesFivePowerPositive(readings[0].kw, |earlier| - 1);
      AcBaselineGrowsSlowly(init);
      PeakGrowsAtMostFivefold(readings, TimesFivePower(readings[0].kw, |earlier| - 1));
    }
  }

  /** So a session that starts low enough is never classified as DC. */
  lemma LowBaselineIsNotDc(vehicle: Id, inputs: seq<Input>, i: Input)
    requires Step(Run(New(vehicle), inputs).0, i).1.SessionEnded?
    requires var readings := Accepted((SessionLog(vehicle, inputs) + [i])[1..]);
             readings != [] && TimesFivePower(readings[0].kw, |readings| - 1) < AC_L2_MAX_KW
    ensures var c := Step(Run(New(vehicle), inputs).0, i).1.session;
            && c.peakChargeKw.Some? && c.peakChargeKw.value < AC_L2_MAX_KW
            && (c.chargerType == Some(Ac) || c.chargerType == Some(AcL2))
  {
    CompletedSessionIsItsEvents(vehicle, inputs, i);
    AcBaselineGrowsSlowly((SessionLog(vehicle, inputs) + [i])[1..]);
  }
}

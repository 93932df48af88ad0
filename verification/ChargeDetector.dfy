/**
 * The charge-session detector of apps/api/src/ingestion/charge_detector.rs.
 *
 * Times are whole milliseconds, kW, Wh and percentages are reals, identifiers
 * are numbers. `Step` is the detector's transition on values; the class below
 * it updates its fields in place and is proved to follow `Step`.
 */
module ChargeDetector {
  import opened Common

  const CHARGE_TIMEOUT_SECS := 1800
  const AC_L1_MAX_KW := 12.0
  const AC_L2_MAX_KW := 50.0
  const PLAUSIBLE_MAX_CHARGE_KW := 300.0

  type Id = nat

  datatype ChargerState = Disconnected | Connected | Charging | Done | UnknownState

  datatype ChargerType = Ac | AcL2 | Dc

  datatype Place = Place(lat: real, lng: real)

  /** The fields of a telemetry event that the detector reads. */
  datatype Event = Event(
    ts: int,
    latitude: Option<real>,
    longitude: Option<real>,
    batteryLevel: Option<real>,
    batteryLimit: Option<real>,
    batteryCapacityWh: Option<real>,
    powerKw: Option<real>,
    powerStateCharging: bool,
    chargerState: Option<ChargerState>,
    chargerStatus: Option<string>,
    timeToEndOfChargeMin: Option<int>)

  /** An event together with the random id it would give to a session it opened. */
  datatype Input = Input(event: Event, newId: Id)

  datatype CompletedSession = CompletedSession(
    sessionId: Id,
    vehicle: Id,
    startedAt: int,
    endedAt: int,
    place: Option<Place>,
    socStart: Option<real>,
    socEnd: Option<real>,
    chargeLimit: Option<real>,
    batteryCapacityWh: Option<real>,
    energyUsedWh: Option<real>,
    energyAddedWh: Option<real>,
    peakChargeKw: Option<real>,
    avgChargeRateKw: Option<real>,
    chargerType: Option<ChargerType>)

  datatype ChargeEvent = SessionStarted | SessionEnded(session: CompletedSession) | NoChange

  datatype State = State(
    vehicle: Id,
    activeSession: Option<Id>,
    isCharging: bool,
    startedAt: Option<int>,
    place: Option<Place>,
    socStart: Option<real>,
    lastSoc: Option<real>,
    chargeLimit: Option<real>,
    batteryCapacity: Option<real>,
    lastChargeTs: Option<int>,
    lastPowerTs: Option<int>,
    energyWh: real,
    peakKw: real)

  function New(vehicle: Id): State {
    State(vehicle, None, false, None, None, None, None, None, None, None, None, 0.0, 0.0)
  }

  // ---- One event --------------------------------------------------------

  function Abs(x: real): real { if x < 0.0 then -x else x }

  function OrElse<T>(first: Option<T>, second: Option<T>): Option<T> {
    if first.Some? then first else second
  }

  /** A usable location: both coordinates present and not the (0, 0) placeholder. */
  function ValidPlace(e: Event): Option<Place> {
    if e.latitude.Some? && e.longitude.Some? && !(e.latitude.value == 0.0 && e.longitude.value == 0.0)
    then Some(Place(e.latitude.value, e.longitude.value)) else None
  }

  predicate IsActivelyCharging(e: Event) {
    || e.powerStateCharging
    || e.chargerState == Some(Charging)
    || e.chargerStatus == Some("chrgr_sts_connected_charging")
  }

  predicate HasRemainingChargeTime(e: Event) {
    e.timeToEndOfChargeMin.Some? && e.timeToEndOfChargeMin.value > 0
  }

  predicate EvidenceOfCharging(charging: bool, e: Event) {
    IsActivelyCharging(e) || (charging && HasRemainingChargeTime(e))
  }

  predicate SaysEnded(e: Event) {
    || e.chargerState == Some(Done)
    || e.chargerState == Some(Disconnected)
    || e.chargerStatus == Some("chrgr_sts_not_connected")
    || (e.chargerStatus == Some("chrgr_sts_connected_no_chrg") && !HasRemainingChargeTime(e))
  }

  function Hours(milliseconds: int): real { milliseconds as real / 3600000.0 }

  /** Watt-hours drawn at `kw` over a span of milliseconds. */
  function Energy(kw: real, milliseconds: int): real { kw * 1000.0 * Hours(milliseconds) }

  /** Neither above the hard ceiling nor a spike over an established AC baseline. */
  predicate Plausible(peakKw: real, kw: real) {
    && 0.0 < kw <= PLAUSIBLE_MAX_CHARGE_KW
    && !(0.0 < peakKw < AC_L2_MAX_KW && kw > peakKw * 5.0)
  }

  predicate AcceptsPower(s: State, e: Event) {
    s.isCharging && e.powerKw.Some? && Plausible(s.peakKw, Abs(e.powerKw.value))
  }

  function ClassifyCharger(kw: real): ChargerType {
    if kw < AC_L1_MAX_KW then Ac else if kw < AC_L2_MAX_KW then AcL2 else Dc
  }

  /** Battery fields and the location of an open session. */
  function Absorb(s: State, e: Event): State {
    s.(lastSoc := OrElse(e.batteryLevel, s.lastSoc),
       socStart := if s.isCharging then OrElse(s.socStart, e.batteryLevel) else s.socStart,
       chargeLimit := OrElse(e.batteryLimit, s.chargeLimit),
       batteryCapacity := OrElse(e.batteryCapacityWh, s.batteryCapacity),
       place := if s.isCharging then OrElse(s.place, ValidPlace(e)) else s.place)
  }

  function Integrate(s: State, e: Event): State {
    if !AcceptsPower(s, e) then s
    else
      var kw := Abs(e.powerKw.value);
      s.(energyWh := s.energyWh + (if s.lastPowerTs.Some? then Energy(kw, e.ts - s.lastPowerTs.value) else 0.0),
         peakKw := if kw > s.peakKw then kw else s.peakKw,
         lastPowerTs := Some(e.ts))
  }

  function Open(s: State, e: Event, newId: Id): State {
    s.(activeSession := Some(newId), isCharging := true, startedAt := Some(e.ts),
       place := OrElse(ValidPlace(e), s.place), socStart := e.batteryLevel,
       lastChargeTs := Some(e.ts), lastPowerTs := Some(e.ts), energyWh := 0.0, peakKw := 0.0)
  }

  function Close(s: State): State {
    s.(activeSession := None, isCharging := false, startedAt := None, place := None, socStart := None,
       lastChargeTs := None, lastPowerTs := None, energyWh := 0.0, peakKw := 0.0)
  }

  function Complete(s: State, endedAt: int, newId: Id): CompletedSession {
    var startedAt := if s.startedAt.Some? then s.startedAt.value else endedAt;
    var durationHours := WholeSeconds(endedAt - startedAt) as real / 3600.0;
    var energyAdded :=
      if s.socStart.Some? && s.lastSoc.Some? && s.batteryCapacity.Some? && s.lastSoc.value - s.socStart.value > 0.0
      then Some((s.lastSoc.value - s.socStart.value) / 100.0 * s.batteryCapacity.value) else None;
    var energyUsed := if s.energyWh > 0.0 then Some(s.energyWh) else None;
    var energy := OrElse(energyUsed, energyAdded);
    var average :=
      if energy.Some? && durationHours > 0.0 then Some(energy.value / 1000.0 / durationHours) else None;
    var peak := if s.peakKw > 0.0 then Some(s.peakKw) else None;
    var rate := OrElse(peak, average);
    CompletedSession(
      if s.activeSession.Some? then s.activeSession.value else newId,
      s.vehicle, startedAt, endedAt, s.place, s.socStart, s.lastSoc, s.chargeLimit, s.batteryCapacity,
      energyUsed, energyAdded, peak, average,
      if rate.Some? then Some(ClassifyCharger(rate.value)) else None)
  }

  /** Session boundaries, after the readings have been taken in. */
  function Advance(t: State, i: Input): (State, ChargeEvent) {
    var e := i.event;
    if !t.isCharging then
      if EvidenceOfCharging(false, e) then (Open(t, e, i.newId), SessionStarted) else (t, NoChange)
    else
      var u := if EvidenceOfCharging(true, e) then t.(lastChargeTs := Some(e.ts)) else t;
      var timedOut := u.lastChargeTs.Some? && WholeSeconds(e.ts - u.lastChargeTs.value) > CHARGE_TIMEOUT_SECS;
      if SaysEnded(e) || timedOut then (Close(u), SessionEnded(Complete(u, e.ts, i.newId)))
      else (u, NoChange)
  }

  function Step(s: State, i: Input): (State, ChargeEvent) {
    Advance(Integrate(Absorb(s, i.event), i.event), i)
  }

  // ---- Runs -------------------------------------------------------------

  function Run(s: State, inputs: seq<Input>): (r: (State, seq<ChargeEvent>))
    ensures |r.1| == |inputs|
  {
    if inputs == [] then (s, [])
    else
      var (before, events) := Run(s, inputs[..|inputs| - 1]);
      var (after, event) := Step(before, inputs[|inputs| - 1]);
      (after, events + [event])
  }

  lemma {:induction false} RunExtends(s: State, inputs: seq<Input>, i: Input)
    ensures Run(s, inputs + [i]) ==
            (Step(Run(s, inputs).0, i).0, Run(s, inputs).1 + [Step(Run(s, inputs).0, i).1])
  {
    assert (inputs + [i])[..|inputs|] == inputs;
  }

  lemma {:induction false} RunConcat(s: State, first: seq<Input>, second: seq<Input>)
    ensures Run(s, first + second).0 == Run(Run(s, first).0, second).0
    ensures Run(s, first + second).1 == Run(s, first).1 + Run(Run(s, first).0, second).1
  {
    if second == [] {
      assert first + second == first;
    } else {
      var init, last := second[..|second| - 1], second[|second| - 1];
      RunConcat(s, first, init);
      assert (first + second)[..|first + second| - 1] == first + init;
    }
  }

  // ---- The detector object ----------------------------------------------

  class Detector {
    var vehicle: Id
    var activeSession: Option<Id>
    var isCharging: bool
    var startedAt: Option<int>
    var place: Option<Place>
    var socStart: Option<real>
    var lastSoc: Option<real>
    var chargeLimit: Option<real>
    var batteryCapacity: Option<real>
    var lastChargeTs: Option<int>
    var lastPowerTs: Option<int>
    var energyWh: real
    var peakKw: real

    ghost function Contents(): State
      reads this
    {
      State(vehicle, activeSession, isCharging, startedAt, place, socStart, lastSoc, chargeLimit,
            batteryCapacity, lastChargeTs, lastPowerTs, energyWh, peakKw)
    }

    constructor (vehicle: Id)
      ensures Contents() == New(vehicle)
    {
      this.vehicle := vehicle;
      activeSession, isCharging, startedAt, place := None, false, None, None;
      socStart, lastSoc, chargeLimit, batteryCapacity := None, None, None, None;
      lastChargeTs, lastPowerTs, energyWh, peakKw := None, None, 0.0, 0.0;
    }

    constructor FromSnapshot(vehicle: Id, snapshot: ActiveSnapshot)
      ensures Contents() == Rehydrate(vehicle, snapshot)
    {
      this.vehicle := vehicle;
      activeSession, isCharging, startedAt := Some(snapshot.sessionId), true, Some(snapshot.startedAt);
      place, socStart, lastSoc := snapshot.place, snapshot.socStart, snapshot.lastSoc;
      chargeLimit, batteryCapacity := snapshot.chargeLimit, snapshot.batteryCapacityWh;
      lastChargeTs, lastPowerTs := Some(snapshot.lastChargeTs), snapshot.lastPowerTs;
      energyWh, peakKw := AtLeastZero(snapshot.energyUsedWh), AtLeastZero(snapshot.peakChargeKw);
    }

    method Process(i: Input) returns (r: ChargeEvent)
      modifies this
      ensures (Contents(), r) == Step(old(Contents()), i)
    {
      TakeReadings(i.event);
      IntegratePower(i.event);
      r := AdvanceSession(i);
    }

    method TakeReadings(event: Event)
      modifies this
      ensures Contents() == Absorb(old(Contents()), event)
    {
      if event.batteryLevel.Some? {
        lastSoc := event.batteryLevel;
        if isCharging && socStart.None? {
          socStart := event.batteryLevel;
        }
      }
      if event.batteryLimit.Some? {
        chargeLimit := event.batteryLimit;
      }
      if event.batteryCapacityWh.Some? {
        batteryCapacity := event.batteryCapacityWh;
      }
      if isCharging && place.None? {
        place := ValidPlace(event);
      }
    }

    method AdvanceSession(i: Input) returns (r: ChargeEvent)
      modifies this
      ensures (Contents(), r) == Advance(old(Contents()), i)
    {
      hide Complete, WholeSeconds, EvidenceOfCharging, SaysEnded, ValidPlace;
      var event := i.event;
      var activelyCharging := EvidenceOfCharging(isCharging, event);
      if !isCharging && activelyCharging {
        OpenSession(event, i.newId);
        return SessionStarted;
      }
      if isCharging {
        if activelyCharging {
          lastChargeTs := Some(event.ts);
        }
        var timedOut :=
          lastChargeTs.Some? && WholeSeconds(event.ts - lastChargeTs.value) > CHARGE_TIMEOUT_SECS;
        if SaysEnded(event) || timedOut {
          r := CloseSession(event.ts, i.newId);
          return;
        }
      }
      r := NoChange;
    }

    method OpenSession(event: Event, newId: Id)
      modifies this
      ensures Contents() == Open(old(Contents()), event, newId)
    {
      activeSession, isCharging, startedAt := Some(newId), true, Some(event.ts);
      if ValidPlace(event).Some? {
        place := ValidPlace(event);
      }
      socStart := event.batteryLevel;
      lastChargeTs, lastPowerTs := Some(event.ts), Some(event.ts);
      energyWh, peakKw := 0.0, 0.0;
    }

    method IntegratePower(event: Event)
      modifies this
      ensures Contents() == Integrate(old(Contents()), event)
    {
      if isCharging && event.powerKw.Some? {
        var kw := Abs(event.powerKw.value);
        var isDcSpikeOnAcSession := 0.0 < peakKw < AC_L2_MAX_KW && kw > peakKw * 5.0;
        if kw > 0.0 && kw <= PLAUSIBLE_MAX_CHARGE_KW && !isDcSpikeOnAcSession {
          if lastPowerTs.Some? {
            energyWh := energyWh + Energy(kw, event.ts - lastPowerTs.value);
          }
          if kw > peakKw {
            peakKw := kw;
          }
          lastPowerTs := Some(event.ts);
        }
      }
    }

    method CloseSession(endedAt: int, newId: Id) returns (r: ChargeEvent)
      modifies this
      ensures Contents() == Close(old(Contents()))
      ensures r == SessionEnded(Complete(old(Contents()), endedAt, newId))
    {
      hide Complete;
      r := SessionEnded(Complete(State(vehicle, activeSession, isCharging, startedAt, place, socStart, lastSoc,
                                       chargeLimit, batteryCapacity, lastChargeTs, lastPowerTs, energyWh, peakKw),
                                 endedAt, newId));
      activeSession, isCharging, startedAt, place, socStart := None, false, None, None, None;
      lastChargeTs, lastPowerTs, energyWh, peakKw := None, None, 0.0, 0.0;
    }
  }

  // ---- Snapshots --------------------------------------------------------

  datatype ActiveSnapshot = ActiveSnapshot(
    sessionId: Id,
    startedAt: int,
    place: Option<Place>,
    socStart: Option<real>,
    lastSoc: Option<real>,
    chargeLimit: Option<real>,
    batteryCapacityWh: Option<real>,
    lastChargeTs: int,
    lastPowerTs: Option<int>,
    energyUsedWh: real,
    peakChargeKw: real)

  function AtLeastZero(x: real): real { if x < 0.0 then 0.0 else x }

  function Rehydrate(vehicle: Id, p: ActiveSnapshot): State {
    State(vehicle, Some(p.sessionId), true, Some(p.startedAt), p.place, p.socStart, p.lastSoc, p.chargeLimit,
          p.batteryCapacityWh, Some(p.lastChargeTs), p.lastPowerTs,
          AtLeastZero(p.energyUsedWh), AtLeastZero(p.peakChargeKw))
  }

  /** What a detector with an open session would persist. */
  function Project(s: State): ActiveSnapshot
    requires s.activeSession.Some? && s.startedAt.Some? && s.lastChargeTs.Some?
  {
    ActiveSnapshot(s.activeSession.value, s.startedAt.value, s.place, s.socStart, s.lastSoc, s.chargeLimit,
                   s.batteryCapacity, s.lastChargeTs.value, s.lastPowerTs, s.energyWh, s.peakKw)
  }
}

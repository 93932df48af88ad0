/**
 * The timestamp-guarded charge-session columns of apps/api/src/parallax.rs:
 * each is overwritten only by an update that is not older than the one it holds.
 */
module ParallaxRegisters {
  import opened Common

  datatype Update<V> = Update(value: V, at: int)

  type Register<V> = Option<Update<V>>

  /** ... WHERE observed_at IS NULL OR $at >= observed_at. */
  function Apply<V>(r: Register<V>, u: Update<V>): Register<V> {
    if r.None? || u.at >= r.value.at then Some(u) else r
  }

  function ApplyAll<V>(r: Register<V>, updates: seq<Update<V>>): Register<V> {
    if updates == [] then r else Apply(ApplyAll(r, updates[..|updates| - 1]), updates[|updates| - 1])
  }

  ghost predicate DistinctTimes<V>(updates: seq<Update<V>>) {
    forall i, j :: 0 <= i < j < |updates| ==> updates[i].at != updates[j].at
  }

  /** A register ends up with one of the latest updates, and with the last of those delivered. */
  lemma {:induction false} RegisterHoldsLatest<V>(updates: seq<Update<V>>) returns (i: nat)
    requires updates != []
    ensures i < |updates| && ApplyAll(None, updates) == Some(updates[i])
    ensures forall j :: 0 <= j <= i ==> updates[j].at <= updates[i].at
    ensures forall j :: i < j < |updates| ==> updates[j].at < updates[i].at
  {
    var init, u := updates[..|updates| - 1], updates[|updates| - 1];
    i := |init|;
    if init != [] {
      var k := RegisterHoldsLatest(init);
      if u.at < init[k].at { i := k; }
    }
  }

  /** Applying a batch is applying its latest update alone. */
  lemma {:induction false} BatchIsItsLatest<V>(r: Register<V>, updates: seq<Update<V>>)
    requires updates != []
    ensures ApplyAll(None, updates).Some?
    ensures ApplyAll(r, updates) == Apply(r, ApplyAll(None, updates).value)
  {
    var init := updates[..|updates| - 1];
    if init != [] {
      BatchIsItsLatest(r, init);
    }
  }

  lemma {:induction false} ApplyAllConcat<V>(r: Register<V>, first: seq<Update<V>>, second: seq<Update<V>>)
    ensures ApplyAll(r, first + second) == ApplyAll(ApplyAll(r, first), second)
  {
    if second == [] {
      assert first + second == first;
    } else {
      ApplyAllConcat(r, first, second[..|second| - 1]);
      assert (first + second)[..|first + second| - 1] == first + second[..|second| - 1];
    }
  }

  // ---- When the delivery order does not matter --------------------------

  ghost predicate IsLatest<V>(updates: seq<Update<V>>, u: Update<V>) {
    u in updates && forall v :: v in updates ==> v.at <= u.at
  }

  /** All updates with the greatest time are the same update. */
  ghost predicate LatestAgree<V(!new)>(updates: seq<Update<V>>) {
    forall u, v :: IsLatest(updates, u) && IsLatest(updates, v) ==> u == v
  }

  lemma DistinctTimesAgree<V(!new)>(updates: seq<Update<V>>)
    requires DistinctTimes(updates)
    ensures LatestAgree(updates)
  {
    forall u, v | IsLatest(updates, u) && IsLatest(updates, v) ensures u == v {
      var i :| 0 <= i < |updates| && updates[i] == u;
      var j :| 0 <= j < |updates| && updates[j] == v;
    }
  }

  lemma LatestOfPermutation<V>(first: seq<Update<V>>, second: seq<Update<V>>, u: Update<V>)
    requires multiset(first) == multiset(second)
    ensures IsLatest(first, u) <==> IsLatest(second, u)
  {
    assert forall v :: v in first <==> v in multiset(first);
    assert forall v :: v in second <==> v in multiset(second);
  }

  lemma ResultIsLatest<V>(updates: seq<Update<V>>)
    requires updates != []
    ensures ApplyAll(None, updates).Some? && IsLatest(updates, ApplyAll(None, updates).value)
  {
    var i := RegisterHoldsLatest(updates);
    assert updates[i] in updates;
  }

  /** Where the latest updates agree, every delivery order gives the same register. */
  lemma DeliveryOrderIsIrrelevant<V(!new)>(r: Register<V>, first: seq<Update<V>>, second: seq<Update<V>>)
    requires multiset(first) == multiset(second) && LatestAgree(first)
    ensures ApplyAll(r, first) == ApplyAll(r, second)
  {
    if first == [] {
      assert |multiset(second)| == 0;
    } else {
      assert second != [] by { assert first[0] in multiset(second); }
      ResultIsLatest(first);
      ResultIsLatest(second);
      LatestOfPermutation(first, second, ApplyAll(None, second).value);
      BatchIsItsLatest(r, first);
      BatchIsItsLatest(r, second);
    }
  }

  ghost predicate OrderIsIrrelevant<V(!new)>(updates: seq<Update<V>>) {
    forall others :: multiset(others) == multiset(updates) ==> ApplyAll(None, others) == ApplyAll(None, updates)
  }

  /** Some order leaves any given latest update. */
  lemma SomeOrderLeaves<V>(updates: seq<Update<V>>, u: Update<V>) returns (others: seq<Update<V>>)
    requires IsLatest(updates, u)
    ensures multiset(others) == multiset(updates) && ApplyAll(None, others) == Some(u)
  {
    var i :| 0 <= i < |updates| && updates[i] == u;
    var rest := updates[..i] + updates[i + 1..];
    others := rest + [u];
    assert updates == updates[..i] + [u] + updates[i + 1..];
    assert others[..|rest|] == rest;
    if rest != [] {
      ResultIsLatest(rest);
      assert ApplyAll(None, rest).value in multiset(updates);
    }
  }

  /** Exactly when no two orders differ. */
  lemma OrderIsIrrelevantIff<V(!new)>(updates: seq<Update<V>>)
    ensures OrderIsIrrelevant(updates) <==> LatestAgree(updates)
  {
    if LatestAgree(updates) {
      forall others | multiset(others) == multiset(updates)
        ensures ApplyAll(None, others) == ApplyAll(None, updates)
      {
        DeliveryOrderIsIrrelevant(None, updates, others);
      }
    }
    if OrderIsIrrelevant(updates) {
      forall u, v | IsLatest(updates, u) && IsLatest(updates, v) ensures u == v {
        var leavesU := SomeOrderLeaves(updates, u);
        var leavesV := SomeOrderLeaves(updates, v);
      }
    }
  }

  // ---- Frames -----------------------------------------------------------

  datatype Point = Point(ts: Option<int>, powerKw: Option<real>, soc: Option<int>)

  /** A decoded frame that passed its own validity filters, with its source time. */
  datatype Frame =
    | Breakdown(totalKwh: Option<real>, currentPowerKw: Option<real>, fallbackPowerKw: Option<real>, at: int)
    | Battery(packKwh: real, at: int)
    | Graph(points: seq<Point>)
    | TimeEstimate(remainingSeconds: int, at: int)
    | Status(text: string, at: int)

  /** The session the worker takes to be active when a frame arrives. */
  datatype SessionContext = SessionContext(sessionId: Option<nat>, startedAt: Option<int>, endedAt: Option<int>)

  /** A frame, the session active when it arrives, and whether that session's row is still open then. */
  datatype Delivery = Delivery(active: SessionContext, rowOpen: bool, frame: Frame)

  predicate Matches(context: SessionContext, at: int) {
    && context.sessionId.Some?
    && (context.startedAt.Some? ==> context.startedAt.value <= at)
    && (context.endedAt.Some? ==> at <= context.endedAt.value)
  }

  predicate PlausiblePower(kw: real) { 0.0 <= kw <= 500.0 }

  function CurrentPower(f: Frame): Option<real>
    requires f.Breakdown?
  {
    var kw := if f.currentPowerKw.Some? then f.currentPowerKw else f.fallbackPowerKw;
    if kw.Some? && PlausiblePower(kw.value) then kw else None
  }

  /** The power readings of a charging graph, in segment order. */
  function PowerPoints(points: seq<Point>): seq<Update<real>> {
    if points == [] then []
    else
      var p := points[|points| - 1];
      PowerPoints(points[..|points| - 1])
      + (if p.ts.Some? && p.powerKw.Some? && PlausiblePower(p.powerKw.value)
         then [Update(p.powerKw.value, p.ts.value)] else [])
  }

  lemma LatestOfMorePoints(points: seq<Point>, i: nat)
    requires i < |points|
    ensures var latest, p := ApplyAll(None, PowerPoints(points[..i])), points[i];
            ApplyAll(None, PowerPoints(points[..i + 1]))
            == if p.ts.Some? && p.powerKw.Some? && PlausiblePower(p.powerKw.value)
               then Apply(latest, Update(p.powerKw.value, p.ts.value)) else latest
  {
    var next, p := points[..i + 1], points[i];
    assert next[..|next| - 1] == points[..i];
    if p.ts.Some? && p.powerKw.Some? && PlausiblePower(p.powerKw.value) {
      var readings, u := PowerPoints(points[..i]), Update(p.powerKw.value, p.ts.value);
      assert (readings + [u])[..|readings + [u]| - 1] == readings;
    } else {
      assert PowerPoints(points[..i]) + [] == PowerPoints(points[..i]);
    }
  }

  /** The loop over the segments of a graph frame: later segments win ties. */
  method LatestPower(points: seq<Point>) returns (latest: Register<real>)
    ensures latest == ApplyAll(None, PowerPoints(points))
    ensures latest.Some? ==> forall u :: u in PowerPoints(points) ==> u.at <= latest.value.at
  {
    latest := None;
    for i := 0 to |points|
      invariant latest == ApplyAll(None, PowerPoints(points[..i]))
    {
      var p := points[i];
      LatestOfMorePoints(points, i);
      if p.ts.Some? && p.powerKw.Some? && PlausiblePower(p.powerKw.value) {
        if latest.None? || p.ts.value >= latest.value.at {
          latest := Some(Update(p.powerKw.value, p.ts.value));
        }
      }
    }
    assert points[..|points|] == points;
    if PowerPoints(points) != [] {
      ghost var i := RegisterHoldsLatest(PowerPoints(points));
    }
  }

  /** The power updates a frame delivers to the session. */
  function PowerUpdates(context: SessionContext, f: Frame): seq<Update<real>> {
    match f
    case Breakdown(_, _, _, at) =>
      if Matches(context, at) && CurrentPower(f).Some? then [Update(CurrentPower(f).value, at)] else []
    case Graph(points) =>
      var latest := ApplyAll(None, PowerPoints(points));
      if latest.Some? && Matches(context, latest.value.at) then [latest.value] else []
    case _ => []
  }

  function EnergyUpdates(context: SessionContext, f: Frame): seq<Update<real>> {
    if f.Breakdown? && Matches(context, f.at) && f.totalKwh.Some? && f.totalKwh.value >= 0.0
    then [Update(f.totalKwh.value, f.at)] else []
  }

  function PackUpdates(context: SessionContext, f: Frame): seq<Update<real>> {
    if f.Battery? && Matches(context, f.at) && PlausiblePower(f.packKwh) then [Update(f.packKwh, f.at)] else []
  }

  function TimeUpdates(context: SessionContext, f: Frame): seq<Update<int>> {
    if f.TimeEstimate? && Matches(context, f.at) && 0 <= f.remainingSeconds <= 172800
    then [Update((f.remainingSeconds + 59) / 60, f.at)] else []
  }

  function StatusUpdates(context: SessionContext, f: Frame): seq<Update<string>> {
    if f.Status? && Matches(context, f.at) then [Update(f.text, f.at)] else []
  }

  /** All updates that a sequence of deliveries makes to one register. */
  function Collect<V>(delivers: Delivery -> seq<Update<V>>, ds: seq<Delivery>): seq<Update<V>> {
    if ds == [] then []
    else Collect(delivers, ds[..|ds| - 1]) + delivers(ds[|ds| - 1])
  }

  /** A delivery concerns a row when that is the active session and still open. */
  predicate Concerns(d: Delivery, row: nat) {
    d.active.sessionId == Some(row) && d.rowOpen
  }

  function PowerIn(row: nat): Delivery -> seq<Update<real>> {
    (d: Delivery) => if Concerns(d, row) then PowerUpdates(d.active, d.frame) else []
  }

  function EnergyIn(row: nat): Delivery -> seq<Update<real>> {
    (d: Delivery) => if Concerns(d, row) then EnergyUpdates(d.active, d.frame) else []
  }

  function PackIn(row: nat): Delivery -> seq<Update<real>> {
    (d: Delivery) => if Concerns(d, row) then PackUpdates(d.active, d.frame) else []
  }

  function TimeIn(row: nat): Delivery -> seq<Update<int>> {
    (d: Delivery) => if Concerns(d, row) then TimeUpdates(d.active, d.frame) else []
  }

  function StatusIn(row: nat): Delivery -> seq<Update<string>> {
    (d: Delivery) => if Concerns(d, row) then StatusUpdates(d.active, d.frame) else []
  }

  lemma ApplyOne<V>(r: Register<V>, u: Update<V>)
    ensures ApplyAll(r, [u]) == Apply(r, u)
  {
    assert [u][..0] == [];
    assert ApplyAll(r, [u][..0]) == r;
  }

  lemma CollectSnoc<V>(delivers: Delivery -> seq<Update<V>>, frames: seq<Delivery>, f: Delivery)
    ensures ApplyAll(None, Collect(delivers, frames + [f]))
            == ApplyAll(ApplyAll(None, Collect(delivers, frames)), delivers(f))
  {
    assert (frames + [f])[..|frames|] == frames;
    ApplyAllConcat(None, Collect(delivers, frames), delivers(f));
  }

  // ---- The session row --------------------------------------------------

  class Session {
    const row: nat
    var power: Register<real>
    var energy: Register<real>
    var pack: Register<real>
    var time: Register<int>
    var status: Register<string>

    constructor (row: nat)
      ensures this.row == row
      ensures power == None && energy == None && pack == None && time == None && status == None
    {
      this.row := row;
      power, energy, pack, time, status := None, None, None, None, None;
    }

    /** The registers hold what folding these deliveries from empty registers gives. */
    ghost predicate Folds(ds: seq<Delivery>)
      reads this
    {
      && power == ApplyAll(None, Collect(PowerIn(row), ds))
      && energy == ApplyAll(None, Collect(EnergyIn(row), ds))
      && pack == ApplyAll(None, Collect(PackIn(row), ds))
      && time == ApplyAll(None, Collect(TimeIn(row), ds))
      && status == ApplyAll(None, Collect(StatusIn(row), ds))
    }

    /** update_parallax_power. */
    method UpdatePower(kw: real, at: int)
      modifies this`power
      ensures power == Apply(old(power), Update(kw, at))
    {
      if power.None? || at >= power.value.at {
        power := Some(Update(kw, at));
      }
    }

    /** A graph frame delivers its latest in-range point, if that lies in the session. */
    method ReceiveGraph(context: SessionContext, points: seq<Point>)
      modifies this`power
      ensures power == ApplyAll(old(power), PowerUpdates(context, Graph(points)))
    {
      var latest := LatestPower(points);
      if latest.Some? && Matches(context, latest.value.at) {
        ApplyOne(power, latest.value);
        UpdatePower(latest.value.value, latest.value.at);
      }
    }

    method Receive(d: Delivery, ghost ds: seq<Delivery>)
      requires Folds(ds)
      modifies this
      ensures Folds(ds + [d])
    {
      CollectSnoc(PowerIn(row), ds, d);
      CollectSnoc(EnergyIn(row), ds, d);
      CollectSnoc(PackIn(row), ds, d);
      CollectSnoc(TimeIn(row), ds, d);
      CollectSnoc(StatusIn(row), ds, d);
      if Concerns(d, row) {
        ReceiveFrame(d.active, d.frame);
      }
    }

    method ReceiveFrame(context: SessionContext, f: Frame)
      modifies this
      ensures power == ApplyAll(old(power), PowerUpdates(context, f))
      ensures energy == ApplyAll(old(energy), EnergyUpdates(context, f))
      ensures pack == ApplyAll(old(pack), PackUpdates(context, f))
      ensures time == ApplyAll(old(time), TimeUpdates(context, f))
      ensures status == ApplyAll(old(status), StatusUpdates(context, f))
    {
      match f {
        case Breakdown(totalKwh, _, _, at) =>
          if Matches(context, at) {
            if totalKwh.Some? && totalKwh.value >= 0.0 {
              ApplyOne(energy, Update(totalKwh.value, at));
              energy := if energy.None? || at >= energy.value.at then Some(Update(totalKwh.value, at)) else energy;
            }
            if CurrentPower(f).Some? {
              ApplyOne(power, Update(CurrentPower(f).value, at));
              UpdatePower(CurrentPower(f).value, at);
            }
          }
        case Battery(packKwh, at) =>
          if Matches(context, at) && PlausiblePower(packKwh) {
            ApplyOne(pack, Update(packKwh, at));
            pack := if pack.None? || at >= pack.value.at then Some(Update(packKwh, at)) else pack;
          }
        case Graph(points) =>
          ReceiveGraph(context, points);
        case TimeEstimate(seconds, at) =>
          if Matches(context, at) && 0 <= seconds <= 172800 {
            var minutes := (seconds + 59) / 60;
            ApplyOne(time, Update(minutes, at));
            time := if time.None? || at >= time.value.at then Some(Update(minutes, at)) else time;
          }
        case Status(text, at) =>
          if Matches(context, at) {
            ApplyOne(status, Update(text, at));
            status := if status.None? || at >= status.value.at then Some(Update(text, at)) else status;
          }
      }
    }
  }

  // ---- Order of delivery ------------------------------------------------

  lemma {:induction false} CollectConcat<V>(delivers: Delivery -> seq<Update<V>>, a: seq<Delivery>, b: seq<Delivery>)
    ensures Collect(delivers, a + b) == Collect(delivers, a) + Collect(delivers, b)
  {
    if b == [] {
      assert a + b == a;
    } else {
      CollectConcat(delivers, a, b[..|b| - 1]);
      assert (a + b)[..|a + b| - 1] == a + b[..|b| - 1];
    }
  }

  lemma MultisetWithout(b: seq<Delivery>, k: nat)
    requires k < |b|
    ensures multiset(b) == multiset(b[..k] + b[k + 1..]) + multiset{b[k]}
  {
    assert b == b[..k] + [b[k]] + b[k + 1..];
  }

  lemma MiddleLast<T>(x: seq<T>, m: seq<T>, y: seq<T>)
    ensures multiset(x + m + y) == multiset(x + y) + multiset(m)
  {
  }

  /** Moving one frame to the end only reorders the updates. */
  lemma MovingToEndReorders<V>(delivers: Delivery -> seq<Update<V>>, x: seq<Delivery>, f: Delivery, y: seq<Delivery>)
    ensures multiset(Collect(delivers, x + [f] + y)) == multiset(Collect(delivers, x + y)) + multiset(delivers(f))
  {
    CollectConcat(delivers, x + [f], y);
    CollectSnoc(delivers, x, f);
    CollectConcat(delivers, x, y);
    MiddleLast(Collect(delivers, x), delivers(f), Collect(delivers, y));
  }

  lemma LastApart<V>(delivers: Delivery -> seq<Update<V>>, x: seq<Delivery>, f: Delivery)
    ensures multiset(Collect(delivers, x + [f])) == multiset(Collect(delivers, x)) + multiset(delivers(f))
  {
    CollectSnoc(delivers, x, f);
  }

  lemma Rejoin(b: seq<Delivery>, k: nat)
    requires k < |b|
    ensures b == b[..k] + [b[k]] + b[k + 1..]
  {
  }

  lemma MultisetWithoutLast(a: seq<Delivery>)
    requires a != []
    ensures multiset(a) == multiset(a[..|a| - 1]) + multiset{a[|a| - 1]}
  {
    assert a == a[..|a| - 1] + [a[|a| - 1]];
  }

  lemma RemainderIsPermutation(a: seq<Delivery>, b: seq<Delivery>, k: nat)
    requires a != [] && k < |b| && multiset(a) == multiset(b) && b[k] == a[|a| - 1]
    ensures multiset(a[..|a| - 1]) == multiset(b[..k] + b[k + 1..])
  {
    MultisetWithoutLast(a);
    MultisetWithout(b, k);
    assert multiset(a[..|a| - 1]) == multiset(a) - multiset{b[k]};
    assert multiset(b[..k] + b[k + 1..]) == multiset(b) - multiset{b[k]};
  }

  /** Delivering the same frames in another order delivers the same updates in another order. */
  lemma {:induction false} CollectOfPermutation<V>(
    delivers: Delivery -> seq<Update<V>>, a: seq<Delivery>, b: seq<Delivery>)
    requires multiset(a) == multiset(b)
    ensures multiset(Collect(delivers, a)) == multiset(Collect(delivers, b))
  {
    hide Collect;
    if a == [] {
      assert |multiset(b)| == 0;
    } else {
      var init, f := a[..|a| - 1], a[|a| - 1];
      assert f in b by { assert f in multiset(a); assert f in multiset(b); }
      var k :| 0 <= k < |b| && b[k] == f;
      RemainderIsPermutation(a, b, k);
      CollectOfPermutation(delivers, init, b[..k] + b[k + 1..]);
      LastApart(delivers, init, f);
      assert a == init + [f];
      MovingToEndReorders(delivers, b[..k], f, b[k + 1..]);
      Rejoin(b, k);
    }
  }

  /** Every order of the frames leaves the same register. */
  ghost predicate FrameOrderIsIrrelevant<V(!new)>(delivers: Delivery -> seq<Update<V>>, frames: seq<Delivery>) {
    forall others :: multiset(others) == multiset(frames) ==>
      ApplyAll(None, Collect(delivers, others)) == ApplyAll(None, Collect(delivers, frames))
  }

  /** Two sessions that received the same frames hold the same register where the latest updates agree. */
  lemma RegisterConverges<V(!new)>(delivers: Delivery -> seq<Update<V>>, a: seq<Delivery>, b: seq<Delivery>)
    requires multiset(a) == multiset(b) && LatestAgree(Collect(delivers, a))
    ensures ApplyAll(None, Collect(delivers, a)) == ApplyAll(None, Collect(delivers, b))
  {
    CollectOfPermutation(delivers, a, b);
    DeliveryOrderIsIrrelevant(None, Collect(delivers, a), Collect(delivers, b));
  }

  lemma {:induction false} DeliveredBySome<V>(delivers: Delivery -> seq<Update<V>>, frames: seq<Delivery>, u: Update<V>)
    returns (k: nat)
    requires u in Collect(delivers, frames)
    ensures k < |frames| && u in delivers(frames[k])
  {
    if u in delivers(frames[|frames| - 1]) {
      k := |frames| - 1;
    } else {
      k := DeliveredBySome(delivers, frames[..|frames| - 1], u);
    }
  }

  lemma LatestLast<V>(updates: seq<Update<V>>, u: Update<V>)
    requires forall v :: v in updates ==> v.at <= u.at
    ensures ApplyAll(None, updates + [u]) == Some(u)
  {
    assert (updates + [u])[..|updates|] == updates;
    if updates != [] { ResultIsLatest(updates); }
  }

  lemma CollectLast<V>(delivers: Delivery -> seq<Update<V>>, frames: seq<Delivery>, f: Delivery)
    ensures Collect(delivers, frames + [f]) == Collect(delivers, frames) + delivers(f)
  {
    assert (frames + [f])[..|frames|] == frames;
  }

  /** Some order of the frames leaves any given latest update. */
  lemma SomeFrameOrderLeaves<V>(delivers: Delivery -> seq<Update<V>>, frames: seq<Delivery>, u: Update<V>)
    returns (others: seq<Delivery>)
    requires IsLatest(Collect(delivers, frames), u)
    requires forall f :: f in frames ==> |delivers(f)| <= 1
    ensures multiset(others) == multiset(frames) && ApplyAll(None, Collect(delivers, others)) == Some(u)
  {
    hide Collect;
    var k := DeliveredBySome(delivers, frames, u);
    var rest, f := frames[..k] + frames[k + 1..], frames[k];
    others := rest + [f];
    Rejoin(frames, k);
    CollectOfPermutation(delivers, others, frames);
    assert delivers(f) == [u];
    CollectLast(delivers, rest, f);
    forall v | v in Collect(delivers, rest) ensures v.at <= u.at {
      assert v in multiset(Collect(delivers, others));
      assert v in multiset(Collect(delivers, frames));
    }
    LatestLast(Collect(delivers, rest), u);
  }

  lemma RegisterConvergesIff<V(!new)>(delivers: Delivery -> seq<Update<V>>, frames: seq<Delivery>)
    requires forall f :: |delivers(f)| <= 1
    ensures FrameOrderIsIrrelevant(delivers, frames) <==> LatestAgree(Collect(delivers, frames))
  {
    var updates := Collect(delivers, frames);
    if LatestAgree(updates) {
      forall others | multiset(others) == multiset(frames)
        ensures ApplyAll(None, Collect(delivers, others)) == ApplyAll(None, updates)
      {
        RegisterConverges(delivers, frames, others);
      }
    }
    if FrameOrderIsIrrelevant(delivers, frames) {
      forall u, v | IsLatest(updates, u) && IsLatest(updates, v) ensures u == v {
        var leavesU := SomeFrameOrderLeaves(delivers, frames, u);
        var leavesV := SomeFrameOrderLeaves(delivers, frames, v);
      }
    }
  }

  /** Each of the five registers is independent of the order of the frames exactly when its latest updates agree. */
  lemma RegistersConvergeIff(row: nat, frames: seq<Delivery>)
    ensures FrameOrderIsIrrelevant(PowerIn(row), frames) <==> LatestAgree(Collect(PowerIn(row), frames))
    ensures FrameOrderIsIrrelevant(EnergyIn(row), frames) <==> LatestAgree(Collect(EnergyIn(row), frames))
    ensures FrameOrderIsIrrelevant(PackIn(row), frames) <==> LatestAgree(Collect(PackIn(row), frames))
    ensures FrameOrderIsIrrelevant(TimeIn(row), frames) <==> LatestAgree(Collect(TimeIn(row), frames))
    ensures FrameOrderIsIrrelevant(StatusIn(row), frames) <==> LatestAgree(Collect(StatusIn(row), frames))
  {
    RegisterConvergesIff(PowerIn(row), frames);
    RegisterConvergesIff(EnergyIn(row), frames);
    RegisterConvergesIff(PackIn(row), frames);
    RegisterConvergesIff(TimeIn(row), frames);
    RegisterConvergesIff(StatusIn(row), frames);
  }

  /** Two different updates with one time are enough for the order to show. */
  lemma EqualTimesShowTheOrder<V(!new)>(u: Update<V>, v: Update<V>)
    requires u != v && u.at == v.at
    ensures !OrderIsIrrelevant([u, v])
  {
    OrderIsIrrelevantIff([u, v]);
    assert IsLatest([u, v], u) && IsLatest([u, v], v);
  }

  // ---- In the frames' own fields ----------------------------------------

  /** The row is open and active when the delivery arrives, and `at` lies within the active session. */
  ghost predicate Reaches(d: Delivery, row: nat, at: int) {
    && d.rowOpen && d.active.sessionId == Some(row)
    && !(d.active.startedAt.Some? && at < d.active.startedAt.value)
    && !(d.active.endedAt.Some? && d.active.endedAt.value < at)
  }

  /** A breakdown frame reports its own power, or the fallback where it has none of its own. */
  lemma BreakdownPowerIff(d: Delivery, row: nat, u: Update<real>)
    requires d.frame.Breakdown?
    ensures u in PowerIn(row)(d) <==>
            && Reaches(d, row, u.at) && u.at == d.frame.at && 0.0 <= u.value <= 500.0
            && (|| d.frame.currentPowerKw == Some(u.value)
                || (d.frame.currentPowerKw.None? && d.frame.fallbackPowerKw == Some(u.value)))
  {
  }

  /** A point with a time and a power between 0 and 500 kW. */
  ghost predicate Reads(p: Point) {
    p.ts.Some? && p.powerKw.Some? && 0.0 <= p.powerKw.value <= 500.0
  }

  /** The point at `i` is a reading, no reading is later, and none behind it is as late. */
  ghost predicate IsLatestPoint(points: seq<Point>, i: nat, u: Update<real>) {
    && i < |points| && Reads(points[i]) && points[i].ts == Some(u.at) && points[i].powerKw == Some(u.value)
    && forall j :: 0 <= j < |points| && Reads(points[j]) ==>
                     points[j].ts.value <= u.at && (i < j ==> points[j].ts.value < u.at)
  }

  lemma {:induction false} LatestIsPoint(points: seq<Point>) returns (i: nat)
    ensures var latest := ApplyAll(None, PowerPoints(points));
            if latest.Some? then IsLatestPoint(points, i, latest.value)
            else forall j :: 0 <= j < |points| ==> !Reads(points[j])
  {
    i := 0;
    if points != [] {
      var n := |points| - 1;
      i := LatestIsPoint(points[..n]);
      LatestOfMorePoints(points, n);
      assert points[..n + 1] == points;
      if Reads(points[n]) && ApplyAll(None, PowerPoints(points)).value.at == points[n].ts.value {
        i := n;
      }
    }
  }

  /** A graph frame reports its latest point, the last of several; other points of the frame count for nothing. */
  lemma GraphPowerIff(d: Delivery, row: nat, u: Update<real>)
    requires d.frame.Graph?
    ensures u in PowerIn(row)(d) <==>
            Reaches(d, row, u.at) && exists i: nat :: IsLatestPoint(d.frame.points, i, u)
  {
    var points := d.frame.points;
    var latest := ApplyAll(None, PowerPoints(points));
    var i := LatestIsPoint(points);
    forall k: nat | IsLatestPoint(points, k, u) ensures latest == Some(u) {
      assert Reads(points[k]);
      assert k == i;
    }
  }

  lemma EnergyIff(d: Delivery, row: nat, u: Update<real>)
    ensures u in EnergyIn(row)(d) <==>
            && d.frame.Breakdown? && Reaches(d, row, u.at) && u.at == d.frame.at
            && d.frame.totalKwh == Some(u.value) && 0.0 <= u.value
  {
  }

  lemma PackIff(d: Delivery, row: nat, u: Update<real>)
    ensures u in PackIn(row)(d) <==>
            && d.frame.Battery? && Reaches(d, row, u.at) && u.at == d.frame.at
            && d.frame.packKwh == u.value && 0.0 <= u.value <= 500.0
  {
  }

  /** The remaining time is kept in minutes, rounded up, as long as it is at most two days. */
  lemma TimeIff(d: Delivery, row: nat, u: Update<int>)
    ensures u in TimeIn(row)(d) <==>
            && d.frame.TimeEstimate? && Reaches(d, row, u.at) && u.at == d.frame.at
            && 0 <= d.frame.remainingSeconds <= 48 * 60 * 60
            && 60 * (u.value - 1) < d.frame.remainingSeconds <= 60 * u.value
  {
  }

  lemma StatusIff(d: Delivery, row: nat, u: Update<string>)
    ensures u in StatusIn(row)(d) <==>
            d.frame.Status? && Reaches(d, row, u.at) && u.at == d.frame.at && d.frame.text == u.value
  {
  }

  /** Only breakdown and graph frames report power. */
  lemma OtherFramesReportNoPower(d: Delivery, row: nat)
    requires !d.frame.Breakdown? && !d.frame.Graph?
    ensures PowerIn(row)(d) == []
  {
  }

  // ---- Graph frames -----------------------------------------------------

  function InWindow<V(!new)>(context: SessionContext): Update<V> -> bool {
    (u: Update<V>) => Matches(context, u.at)
  }

  function Inside<V(!new)>(context: SessionContext, updates: seq<Update<V>>): seq<Update<V>> {
    Filter(updates, InWindow(context))
  }

  lemma InsideSnoc<V(!new)>(context: SessionContext, updates: seq<Update<V>>, u: Update<V>)
    ensures Inside(context, updates + [u])
            == if Matches(context, u.at) then Inside(context, updates) + [u] else Inside(context, updates)
  {
    FilterSnoc(updates, u, InWindow(context));
  }

  lemma InsideAreSome<V(!new)>(context: SessionContext, updates: seq<Update<V>>)
    ensures forall u :: u in Inside(context, updates) ==> u in updates
  {
  }

  lemma NoneInside<V(!new)>(context: SessionContext)
    ensures Inside<V>(context, []) == []
  {
  }

  /** Leaving readings out keeps the latest one, if it is not left out itself. */
  lemma {:induction false} InsideKeepsLatest(context: SessionContext, readings: seq<Update<real>>)
    requires readings != [] && ApplyAll(None, readings).Some?
    requires Matches(context, ApplyAll(None, readings).value.at)
    ensures ApplyAll(None, Inside(context, readings)) == ApplyAll(None, readings)
  {
    hide Inside, Matches;
    var init, u := readings[..|readings| - 1], readings[|readings| - 1];
    assert readings == init + [u];
    InsideSnoc(context, init, u);
    if ApplyAll(None, readings) == Some(u) {
      if init != [] { ResultIsLatest(init); }
      InsideAreSome(context, init);
      LatestLast(Inside(context, init), u);
    } else {
      InsideKeepsLatest(context, init);
      var before := Inside(context, init);
      assert (before + [u])[..|before|] == before;
    }
  }

  /**
   * A graph frame, which delivers its latest reading if that lies in the session,
   * acts like its readings inside the session delivered one by one exactly when
   * its latest reading is inside, or none is, or those inside change nothing.
   */
  lemma GraphFrameIsItsPointsIff(context: SessionContext, r: Register<real>, points: seq<Point>)
    ensures var readings := PowerPoints(points);
            var inside := Inside(context, readings);
            ApplyAll(r, PowerUpdates(context, Graph(points))) == ApplyAll(r, inside) <==>
              || inside == []
              || Matches(context, ApplyAll(None, readings).value.at)
              || (r.Some? && (ApplyAll(None, inside).value.at < r.value.at || ApplyAll(None, inside) == r))
  {
    hide PowerPoints, Matches, Inside;
    var readings := PowerPoints(points);
    var inside := Inside(context, readings);
    if readings == [] {
      NoneInside<real>(context);
    } else {
      ResultIsLatest(readings);
      ApplyOne(r, ApplyAll(None, readings).value);
      if Matches(context, ApplyAll(None, readings).value.at) {
        InsideKeepsLatest(context, readings);
      }
    }
    if inside != [] {
      BatchIsItsLatest(r, inside);
    }
  }

  /** Otherwise the readings inside are lost: a frame that ends behind the session leaves an older register as it is. */
  lemma LatestOutsideHidesInside()
    ensures var context, held := SessionContext(Some(1), Some(0), Some(10)), Some(Update(1.0, 2));
            var points := [Point(Some(5), Some(7.0), None), Point(Some(20), Some(9.0), None)];
            && ApplyAll(held, PowerUpdates(context, Graph(points))) == held
            && ApplyAll(held, Inside(context, PowerPoints(points))) == Some(Update(7.0, 5))
  {
    var context, held := SessionContext(Some(1), Some(0), Some(10)), Some(Update(1.0, 2));
    var p, q := Point(Some(5), Some(7.0), None), Point(Some(20), Some(9.0), None);
    var u, v := Update(7.0, 5), Update(9.0, 20);
    ReadingsOfTwo(p, q, u, v);
    ApplyOne(None, u);
    LatestLast([u], v);
    ApplyOne(held, u);
    InsideOfTwo(context, u, v);
  }

  lemma ReadingsOfTwo(p: Point, q: Point, u: Update<real>, v: Update<real>)
    requires p.ts == Some(u.at) && p.powerKw == Some(u.value) && PlausiblePower(u.value)
    requires q.ts == Some(v.at) && q.powerKw == Some(v.value) && PlausiblePower(v.value)
    ensures PowerPoints([p, q]) == [u, v]
  {
    assert [p, q][..1] == [p] && [p][..0] == [];
    assert PowerPoints([p]) == [] + [u];
  }

  lemma InsideOfTwo(context: SessionContext, u: Update<real>, v: Update<real>)
    requires Matches(context, u.at) && !Matches(context, v.at)
    ensures Inside(context, [u, v]) == [u]
  {
    assert [u, v][1..] == [v] && [v][1..] == [];
    assert Inside(context, [v]) == [] && Inside(context, [u, v]) == [u] + Inside(context, [v]);
  }
}

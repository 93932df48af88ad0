/**
 * The live opening/closing tracker of apps/api/src/ingestion/closure_motion.rs.
 * Fields are named by strings and times are whole milliseconds.
 */
module ClosureMotion {
  import opened Common

  const MOTION_TTL := 30000

  const FIELDS: seq<string> := [
    "door_front_left_closed", "door_front_right_closed", "door_rear_left_closed", "door_rear_right_closed",
    "closure_frunk_closed", "closure_tailgate_closed", "closure_liftgate_closed", "tonneau_closed",
    "side_bin_left_closed", "side_bin_right_closed",
    "window_fl_closed", "window_fr_closed", "window_rl_closed", "window_rr_closed"]

  datatype Motion = Opening | Closing

  datatype Transition = Ajar | StartsOpening | StartsClosing

  /** The part of a telemetry event the tracker reads. */
  datatype Sample = Sample(closed: map<string, bool>, transitions: map<string, Transition>)

  datatype Timed = Timed(motion: Motion, at: int)

  datatype State = State(settled: map<string, bool>, motion: map<string, Timed>)

  type MotionMap = map<string, Motion>

  /** Only the fourteen closure fields exist in an event. */
  ghost predicate WellFormed(e: Sample) {
    forall f :: f in e.closed ==> f in FIELDS
  }

  function Lookup<K, V>(m: map<K, V>, k: K): Option<V> {
    if k in m then Some(m[k]) else None
  }

  function Current(motion: map<string, Timed>): MotionMap {
    map f | f in motion :: motion[f].motion
  }

  // ---- One field at a time ----------------------------------------------

  /** A reading that is not part of a movement. */
  predicate Settles(e: Sample, f: string) {
    f in e.closed && f !in e.transitions
  }

  predicate Completes(m: Motion, closed: bool) {
    m == if closed then Closing else Opening
  }

  function SettledAt(s: State, e: Sample, f: string): Option<bool> {
    if Settles(e, f) then Some(e.closed[f]) else Lookup(s.settled, f)
  }

  function AfterReading(s: State, e: Sample, f: string): Option<Timed> {
    if Settles(e, f) && f in s.motion && Completes(s.motion[f].motion, e.closed[f]) then None
    else Lookup(s.motion, f)
  }

  /** An AJAR leaves the settled position; without one it keeps a known direction. */
  function Direction(t: Transition, settled: Option<bool>, known: Option<Timed>): Option<Motion> {
    match t
    case StartsOpening => Some(Opening)
    case StartsClosing => Some(Closing)
    case Ajar =>
      if settled.Some? then Some(if settled.value then Opening else Closing)
      else if known.Some? then Some(known.value.motion) else None
  }

  function AfterTransition(s: State, e: Sample, now: int, f: string): Option<Timed> {
    var before := AfterReading(s, e, f);
    if f !in e.transitions then before
    else
      var direction := Direction(e.transitions[f], SettledAt(s, e, f), before);
      if direction.Some? then Some(Timed(direction.value, now)) else before
  }

  predicate Fresh(t: Timed, now: int) { now - t.at < MOTION_TTL }

  function MotionAt(s: State, e: Sample, now: int, f: string): Option<Timed> {
    var t := AfterTransition(s, e, now, f);
    if t.Some? && Fresh(t.value, now) then t else None
  }

  /** The state after one sample, field by field. */
  ghost predicate Follows(s: State, e: Sample, now: int, t: State) {
    && (forall f :: Lookup(t.settled, f) == SettledAt(s, e, f))
    && (forall f :: Lookup(t.motion, f) == MotionAt(s, e, now, f))
  }

  function Observed(s: State, e: Sample, now: int): (t: State)
    ensures Follows(s, e, now, t)
  {
    State(
      map f | f in s.settled.Keys + e.closed.Keys && SettledAt(s, e, f).Some? :: SettledAt(s, e, f).value,
      map f | f in s.motion.Keys + e.transitions.Keys && MotionAt(s, e, now, f).Some? :: MotionAt(s, e, now, f).value)
  }

  /** The field-wise description leaves no freedom. */
  lemma FollowsIsDeterministic(s: State, e: Sample, now: int, t: State)
    requires Follows(s, e, now, t)
    ensures t == Observed(s, e, now)
  {
    var u := Observed(s, e, now);
    assert forall f :: Lookup(t.settled, f) == Lookup(u.settled, f);
    assert forall f :: Lookup(t.motion, f) == Lookup(u.motion, f);
    SameLookups(t.settled, u.settled);
    SameLookups(t.motion, u.motion);
  }

  lemma SameLookups<V>(m: map<string, V>, n: map<string, V>)
    requires forall f :: Lookup(m, f) == Lookup(n, f)
    ensures m == n
  {
    forall f ensures f in m <==> f in n {
      assert Lookup(m, f) == Lookup(n, f);
    }
    forall f | f in m ensures m[f] == n[f] {
      assert Lookup(m, f) == Lookup(n, f);
    }
  }

  /** What observe returns: the whole map, when it changed. */
  function Published(s: State, t: State): Option<MotionMap> {
    if Current(s.motion) == Current(t.motion) then None else Some(Current(t.motion))
  }

  // ---- The tracker ------------------------------------------------------

  lemma OneMoreField(i: nat)
    requires i < |FIELDS|
    ensures forall f :: f in FIELDS[..i + 1] <==> f in FIELDS[..i] || f == FIELDS[i]
  {
    assert FIELDS[..i + 1] == FIELDS[..i] + [FIELDS[i]];
  }

  class Tracker {
    var settledClosed: map<string, bool>
    var motion: map<string, Timed>

    ghost function Contents(): State
      reads this
    {
      State(settledClosed, motion)
    }

    constructor ()
      ensures Contents() == State(map[], map[])
    {
      settledClosed, motion := map[], map[];
    }

    method Observe(e: Sample, now: int) returns (r: Option<MotionMap>)
      requires WellFormed(e)
      modifies this
      ensures Contents() == Observed(old(Contents()), e, now)
      ensures r == Published(old(Contents()), Contents())
    {
      ghost var s := Contents();
      var before := Current(motion);
      TakeReadings(e);
      TakeTransitions(s, e, now);
      motion := map f | f in motion && Fresh(motion[f], now) :: motion[f];
      assert Follows(s, e, now, Contents());
      FollowsIsDeterministic(s, e, now, Contents());
      var after := Current(motion);
      r := if after != before then Some(after) else None;
    }

    method TakeReadings(e: Sample)
      requires WellFormed(e)
      modifies this
      ensures forall f :: Lookup(settledClosed, f) == SettledAt(old(Contents()), e, f)
      ensures forall f :: Lookup(motion, f) == AfterReading(old(Contents()), e, f)
    {
      ghost var s := Contents();
      for i := 0 to |FIELDS|
        invariant forall f :: Lookup(settledClosed, f) ==
                              if f in FIELDS[..i] then SettledAt(s, e, f) else Lookup(s.settled, f)
        invariant forall f :: Lookup(motion, f) ==
                              if f in FIELDS[..i] then AfterReading(s, e, f) else Lookup(s.motion, f)
      {
        TakeReading(e, FIELDS[i]);
        OneMoreField(i);
      }
      assert FIELDS[..|FIELDS|] == FIELDS;
    }

    /** The reading of one field, if it is settled. */
    method TakeReading(e: Sample, field: string)
      modifies this
      ensures Lookup(settledClosed, field) == SettledAt(old(Contents()), e, field)
      ensures Lookup(motion, field) == AfterReading(old(Contents()), e, field)
      ensures forall f :: f != field ==> Lookup(settledClosed, f) == Lookup(old(settledClosed), f)
      ensures forall f :: f != field ==> Lookup(motion, f) == Lookup(old(motion), f)
    {
      if field in e.closed && field !in e.transitions {
        var closed := e.closed[field];
        settledClosed := settledClosed[field := closed];
        if field in motion && Completes(motion[field].motion, closed) {
          motion := motion - {field};
        }
      }
    }

    /** The transitions are visited in key order; each touches only its own field. */
    method TakeTransitions(ghost s: State, e: Sample, now: int)
      requires forall f :: Lookup(settledClosed, f) == SettledAt(s, e, f)
      requires forall f :: Lookup(motion, f) == AfterReading(s, e, f)
      modifies this`motion
      ensures forall f :: Lookup(motion, f) == AfterTransition(s, e, now, f)
    {
      var todo := e.transitions.Keys;
      while todo != {}
        invariant todo <= e.transitions.Keys
        invariant forall f :: Lookup(motion, f) ==
                              if f in todo then AfterReading(s, e, f) else AfterTransition(s, e, now, f)
        decreases todo
      {
        var field :| field in todo;
        assert Lookup(settledClosed, field) == SettledAt(s, e, field);
        assert Lookup(motion, field) == AfterReading(s, e, field);
        var direction :=
          Direction(e.transitions[field], Lookup(settledClosed, field), Lookup(motion, field));
        ghost var before := motion;
        if direction.Some? {
          motion := motion[field := Timed(direction.value, now)];
        }
        assert forall f :: f != field ==> Lookup(motion, f) == Lookup(before, f);
        todo := todo - {field};
      }
    }
  }

  // ---- In the samples' own fields ---------------------------------------

  /** A transition is shown at once; an AJAR moves away from the settled position or goes on as before. */
  lemma AnnouncedMovementIsShown(s: State, e: Sample, now: int, f: string)
    requires f in e.transitions
    ensures var shown := Lookup(Observed(s, e, now).motion, f);
            && (e.transitions[f] == StartsOpening ==> shown == Some(Timed(Opening, now)))
            && (e.transitions[f] == StartsClosing ==> shown == Some(Timed(Closing, now)))
            && (e.transitions[f] == Ajar && f in s.settled ==>
                  shown == Some(Timed(if s.settled[f] then Opening else Closing, now)))
            && (e.transitions[f] == Ajar && f !in s.settled ==>
                  shown == if f in s.motion then Some(Timed(s.motion[f].motion, now)) else None)
  {
    assert Lookup(Observed(s, e, now).motion, f) == MotionAt(s, e, now, f);
  }

  /**
   * A shown movement disappears exactly when nothing announces it again and a reading reports
   * the position it leads to, or it is at least thirty seconds old. Otherwise it stays as it was.
   */
  lemma MovementEndsIff(s: State, e: Sample, now: int, f: string)
    requires f in s.motion
    ensures f !in Observed(s, e, now).motion <==>
            && f !in e.transitions
            && (|| (f in e.closed && (e.closed[f] <==> s.motion[f].motion == Closing))
                || now - s.motion[f].at >= 30 * 1000)
    ensures f in Observed(s, e, now).motion && f !in e.transitions ==> Observed(s, e, now).motion[f] == s.motion[f]
  {
    assert Lookup(Observed(s, e, now).motion, f) == MotionAt(s, e, now, f);
  }

  /** A late reading of the position the movement started from does not end it. */
  lemma LaggingReadingKeepsMovement(s: State, e: Sample, now: int, f: string)
    requires f in s.motion && f !in e.transitions && now - s.motion[f].at < 30 * 1000
    requires f in e.closed && (e.closed[f] <==> s.motion[f].motion == Opening)
    ensures f in Observed(s, e, now).motion && Observed(s, e, now).motion[f] == s.motion[f]
  {
    MovementEndsIff(s, e, now, f);
  }

  /** A reading is taken over exactly where no transition of the field comes with it, and starts no movement. */
  lemma ReadingSettles(s: State, e: Sample, now: int, f: string)
    ensures Lookup(Observed(s, e, now).settled, f) ==
            if f in e.closed && f !in e.transitions then Some(e.closed[f]) else Lookup(s.settled, f)
    ensures f !in e.transitions && f !in s.motion ==> f !in Observed(s, e, now).motion
  {
    assert Lookup(Observed(s, e, now).settled, f) == SettledAt(s, e, f);
    assert Lookup(Observed(s, e, now).motion, f) == MotionAt(s, e, now, f);
  }

  // ---- Streams ----------------------------------------------------------

  datatype Observation = Observation(sample: Sample, now: int)

  function Run(s: State, stream: seq<Observation>): State {
    if stream == [] then s
    else
      var o := stream[|stream| - 1];
      Observed(Run(s, stream[..|stream| - 1]), o.sample, o.now)
  }

  /** A client that replaces its map whenever it is sent one. */
  function Client(s: State, stream: seq<Observation>): MotionMap {
    if stream == [] then Current(s.motion)
    else
      var init := stream[..|stream| - 1];
      var sent := Published(Run(s, init), Run(s, stream));
      if sent.Some? then sent.value else Client(s, init)
  }

  lemma {:induction false} ClientIsCurrent(s: State, stream: seq<Observation>)
    ensures Client(s, stream) == Current(Run(s, stream).motion)
  {
    if stream != [] {
      ClientIsCurrent(s, stream[..|stream| - 1]);
    }
  }

  /** The latest reading of a field outside any movement. */
  function LastSettled(stream: seq<Observation>, f: string): Option<bool> {
    if stream == [] then None
    else
      var e := stream[|stream| - 1].sample;
      if Settles(e, f) then Some(e.closed[f]) else LastSettled(stream[..|stream| - 1], f)
  }

  lemma {:induction false} SettledIsLastReading(stream: seq<Observation>, f: string)
    ensures Lookup(Run(State(map[], map[]), stream).settled, f) == LastSettled(stream, f)
  {
    if stream != [] {
      var init, o := stream[..|stream| - 1], stream[|stream| - 1];
      var s := Run(State(map[], map[]), init);
      SettledIsLastReading(init, f);
      assert Lookup(Observed(s, o.sample, o.now).settled, f) == SettledAt(s, o.sample, f);
    }
  }

  /** An AJAR shows the movement away from the last settled reading of the whole stream. */
  lemma AjarLeavesLastSettled(stream: seq<Observation>, f: string)
    requires stream != []
    requires var e := stream[|stream| - 1].sample; f in e.transitions && e.transitions[f] == Ajar
    ensures var init := stream[..|stream| - 1];
            var now := stream[|stream| - 1].now;
            var shown := Lookup(Run(State(map[], map[]), stream).motion, f);
            && (LastSettled(init, f) == Some(true) ==> shown == Some(Timed(Opening, now)))
            && (LastSettled(init, f) == Some(false) ==> shown == Some(Timed(Closing, now)))
            && (LastSettled(init, f) == None ==>
                  var known := Lookup(Run(State(map[], map[]), init).motion, f);
                  shown == (if known.Some? then Some(Timed(known.value.motion, now)) else None))
  {
    var init, o := stream[..|stream| - 1], stream[|stream| - 1];
    var s := Run(State(map[], map[]), init);
    SettledIsLastReading(init, f);
    assert Lookup(Observed(s, o.sample, o.now).motion, f) == MotionAt(s, o.sample, o.now, f);
  }

  /** Every shown movement was announced less than thirty seconds before the latest sample. */
  lemma {:induction false} ShownMovementIsRecent(stream: seq<Observation>, f: string)
    requires f in Run(State(map[], map[]), stream).motion
    ensures stream != []
    ensures exists i :: 0 <= i < |stream| && f in stream[i].sample.transitions
                        && stream[i].now == Run(State(map[], map[]), stream).motion[f].at
                        && stream[|stream| - 1].now - stream[i].now < MOTION_TTL
  {
    if stream != [] {
      var init, o := stream[..|stream| - 1], stream[|stream| - 1];
      var s := Run(State(map[], map[]), init);
      assert Lookup(Observed(s, o.sample, o.now).motion, f) == MotionAt(s, o.sample, o.now, f);
      if f in o.sample.transitions && Run(State(map[], map[]), stream).motion[f].at == o.now {
        assert stream[|init|] == o;
      } else {
        ShownMovementIsRecent(init, f);
        var i :| 0 <= i < |init| && f in init[i].sample.transitions && init[i].now == s.motion[f].at;
        assert stream[i] == init[i];
      }
    }
  }
}

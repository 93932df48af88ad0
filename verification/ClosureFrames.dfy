/**
 * Decoding of closure and lock frames in apps/api/src/parallax.rs
 * (decode_vehicle_telemetry_with_notes), from the decoded entry lists on.
 * The boolean fields of the event are a map from field names to values.
 */
module ClosureFrames {
  import opened Common
  import opened ClosureMotion

  const REAR_GLASS_POSITION := 16
  const CHARGE_PORT_POSITION := 10
  const SENTINEL_POSITION := 10000

  datatype Entry = Entry(position: Option<int>, state: Option<int>)

  datatype Note =
    | UnexpectedPort(state: int)
    | UnmappedClosure(position: int, state: int)
    | UnexpectedClosure(position: int, state: int)
    | UnmappedLock(position: int)
    | UnexpectedLock(position: int, reported: Option<int>)

  datatype Event = Event(fields: map<string, bool>, transitions: map<string, Transition>, meaningful: bool)

  const EMPTY_EVENT := Event(map[], map[], false)

  /** Exactly one of these happens to an entry; a missing position rejects the frame. */
  datatype Verdict =
    | MissingPosition
    | Skipped
    | Noted(note: Note)
    | Applied(field: string, value: bool, transition: Option<Transition>)

  // ---- Field names ------------------------------------------------------

  /** The field that closure_field hands out for writing. */
  function ClosureField(position: int): Option<string> {
    match position
    case 1 => Some("door_front_left_closed")
    case 2 => Some("door_front_right_closed")
    case 3 => Some("door_rear_left_closed")
    case 4 => Some("door_rear_right_closed")
    case 5 => Some("closure_frunk_closed")
    case 6 => Some("closure_tailgate_closed")
    case 7 => Some("closure_liftgate_closed")
    case 8 => Some("side_bin_left_closed")
    case 9 => Some("side_bin_right_closed")
    case 11 => Some("tonneau_closed")
    case 12 => Some("window_fl_closed")
    case 13 => Some("window_fr_closed")
    case 14 => Some("window_rl_closed")
    case 15 => Some("window_rr_closed")
    case _ => None
  }

  /** The name that closure_field_name gives a position. */
  function ClosureFieldName(position: int): Option<string> {
    match position
    case 1 => Some("door_front_left_closed")
    case 2 => Some("door_front_right_closed")
    case 3 => Some("door_rear_left_closed")
    case 4 => Some("door_rear_right_closed")
    case 5 => Some("closure_frunk_closed")
    case 6 => Some("closure_tailgate_closed")
    case 7 => Some("closure_liftgate_closed")
    case 8 => Some("side_bin_left_closed")
    case 9 => Some("side_bin_right_closed")
    case 10 => Some("charge_port_open")
    case 11 => Some("tonneau_closed")
    case 12 => Some("window_fl_closed")
    case 13 => Some("window_fr_closed")
    case 14 => Some("window_rl_closed")
    case 15 => Some("window_rr_closed")
    case _ => None
  }

  function LockFieldName(position: int): Option<string> {
    match position
    case 1 => Some("door_front_left_locked")
    case 2 => Some("door_front_right_locked")
    case 3 => Some("door_rear_left_locked")
    case 4 => Some("door_rear_right_locked")
    case 5 => Some("closure_frunk_locked")
    case 6 => Some("closure_tailgate_locked")
    case 7 => Some("closure_liftgate_locked")
    case 8 => Some("side_bin_left_locked")
    case 9 => Some("side_bin_right_locked")
    case _ => None
  }

  /** The field set_lock writes, or None where it fails. */
  function SetLockField(position: int): Option<string> {
    match position
    case 1 => Some("door_front_left_locked")
    case 2 => Some("door_front_right_locked")
    case 3 => Some("door_rear_left_locked")
    case 4 => Some("door_rear_right_locked")
    case 5 => Some("closure_frunk_locked")
    case 6 => Some("closure_tailgate_locked")
    case 7 => Some("closure_liftgate_locked")
    case 8 => Some("side_bin_left_locked")
    case 9 => Some("side_bin_right_locked")
    case _ => None
  }

  // ---- Judging one entry ------------------------------------------------

  function TransitionOf(state: int): Option<Transition> {
    match state
    case 3 => Some(Ajar)
    case 4 => Some(StartsOpening)
    case 5 => Some(StartsClosing)
    case _ => None
  }

  function JudgeClosure(e: Entry): Verdict {
    if e.position.None? then MissingPosition
    else if e.position.value == SENTINEL_POSITION || e.state.None? || e.state.value == 0 then Skipped
    else
      var position, state := e.position.value, e.state.value;
      if position == CHARGE_PORT_POSITION then
        if 1 <= state <= 5 then Applied("charge_port_open", state == 1 || state == 3, None)
        else Noted(UnexpectedPort(state))
      else if ClosureField(position).None? && position != REAR_GLASS_POSITION then
        Noted(UnmappedClosure(position, state))
      else if !(1 <= state <= 5) then Noted(UnexpectedClosure(position, state))
      else if ClosureField(position).None? then Skipped
      else Applied(ClosureField(position).value, state == 2, TransitionOf(state))
  }

  function JudgeLock(e: Entry): Verdict {
    if e.position.None? then MissingPosition
    else if LockFieldName(e.position.value).None? then Noted(UnmappedLock(e.position.value))
    else if e.state == Some(1) then Applied(LockFieldName(e.position.value).value, true, None)
    else if e.state == Some(2) || e.state == Some(3) then Applied(LockFieldName(e.position.value).value, false, None)
    else Noted(UnexpectedLock(e.position.value, e.state))
  }

  // ---- The loops --------------------------------------------------------

  function Apply(event: Event, v: Verdict): Event {
    if !v.Applied? then event
    else
      Event(event.fields[v.field := v.value],
            if v.transition.Some? then event.transitions[v.field := v.transition.value] else event.transitions,
            true)
  }

  /** What a list of entries does to an event and to the notes, one after the other. */
  function Fold(judge: Entry -> Verdict, entries: seq<Entry>): (Event, seq<Note>) {
    if entries == [] then (EMPTY_EVENT, [])
    else
      var (event, notes) := Fold(judge, entries[..|entries| - 1]);
      var v := judge(entries[|entries| - 1]);
      (Apply(event, v), if v.Noted? then notes + [v.note] else notes)
  }

  lemma FoldSnoc(judge: Entry -> Verdict, entries: seq<Entry>, i: nat)
    requires i < |entries|
    ensures var (event, notes), v := Fold(judge, entries[..i]), judge(entries[i]);
            Fold(judge, entries[..i + 1]) == (Apply(event, v), if v.Noted? then notes + [v.note] else notes)
  {
    assert entries[..i + 1][..i] == entries[..i];
  }

  predicate Positioned(entries: seq<Entry>) {
    forall i :: 0 <= i < |entries| ==> entries[i].position.Some?
  }

  /** The closure loop; the frame is lost only when an entry has no position. */
  method DecodeClosures(entries: seq<Entry>) returns (ok: bool, event: Event, notes: seq<Note>)
    ensures ok <==> Positioned(entries)
    ensures ok ==> (event, notes) == Fold(JudgeClosure, entries)
  {
    event, notes := EMPTY_EVENT, [];
    for i := 0 to |entries|
      invariant Positioned(entries[..i])
      invariant (event, notes) == Fold(JudgeClosure, entries[..i])
    {
      FoldSnoc(JudgeClosure, entries, i);
      if entries[i].position.None? {
        return false, event, notes;
      }
      var position := entries[i].position.value;
      if position == SENTINEL_POSITION {
        continue;
      }
      if entries[i].state.None? || entries[i].state.value == 0 {
        continue;
      }
      var status := entries[i].state.value;
      if position == CHARGE_PORT_POSITION {
        if 1 <= status <= 5 {
          event := event.(fields := event.fields["charge_port_open" := status == 1 || status == 3], meaningful := true);
        } else {
          notes := notes + [UnexpectedPort(status)];
        }
        continue;
      }
      var field := ClosureField(position);
      if field.None? && position != REAR_GLASS_POSITION {
        notes := notes + [UnmappedClosure(position, status)];
        continue;
      }
      if status != 2 && status != 1 && status != 3 && status != 4 && status != 5 {
        notes := notes + [UnexpectedClosure(position, status)];
        continue;
      }
      if field.Some? {
        event := event.(fields := event.fields[field.value := status == 2], meaningful := true);
      }
      var transition := TransitionOf(status);
      if transition.Some? && ClosureFieldName(position).Some? {
        ClosureNamesAgree(position);
        event := event.(transitions := event.transitions[ClosureFieldName(position).value := transition.value]);
      }
    }
    assert entries[..|entries|] == entries;
    ok := true;
  }

  /** The lock loop. */
  method DecodeLocks(entries: seq<Entry>) returns (ok: bool, event: Event, notes: seq<Note>)
    ensures ok <==> Positioned(entries)
    ensures ok ==> (event, notes) == Fold(JudgeLock, entries)
  {
    hide LockFieldName, SetLockField;
    event, notes := EMPTY_EVENT, [];
    for i := 0 to |entries|
      invariant Positioned(entries[..i])
      invariant (event, notes) == Fold(JudgeLock, entries[..i])
    {
      FoldSnoc(JudgeLock, entries, i);
      if entries[i].position.None? {
        return false, event, notes;
      }
      var position, state := entries[i].position.value, entries[i].state;
      if LockFieldName(position).None? {
        notes := notes + [UnmappedLock(position)];
        continue;
      }
      if state != Some(1) && state != Some(2) && state != Some(3) {
        notes := notes + [UnexpectedLock(position, state)];
        continue;
      }
      LockNamesAgree(position);
      event := event.(fields := event.fields[SetLockField(position).value := state == Some(1)], meaningful := true);
    }
    assert entries[..|entries|] == entries;
    ok := true;
  }

  // ---- Names ------------------------------------------------------------

  /** closure_field and closure_field_name agree everywhere but on the charge port. */
  lemma ClosureNamesAgree(position: int)
    ensures position != CHARGE_PORT_POSITION ==> ClosureField(position) == ClosureFieldName(position)
    ensures position == CHARGE_PORT_POSITION ==> ClosureField(position).None?
  {
  }

  /** set_lock accepts exactly the positions that have a lock field name. */
  lemma LockNamesAgree(position: int)
    ensures SetLockField(position) == LockFieldName(position)
  {
  }

  /** Different positions never share a field. */
  ghost predicate FieldsFollowPositions(judge: Entry -> Verdict) {
    forall d, e :: judge(d).Applied? && judge(e).Applied? && judge(d).field == judge(e).field ==>
                     d.position == e.position
  }

  function PositionOfClosure(field: string): int {
    match field
    case "door_front_left_closed" => 1
    case "door_front_right_closed" => 2
    case "door_rear_left_closed" => 3
    case "door_rear_right_closed" => 4
    case "closure_frunk_closed" => 5
    case "closure_tailgate_closed" => 6
    case "closure_liftgate_closed" => 7
    case "side_bin_left_closed" => 8
    case "side_bin_right_closed" => 9
    case "charge_port_open" => 10
    case "tonneau_closed" => 11
    case "window_fl_closed" => 12
    case "window_fr_closed" => 13
    case "window_rl_closed" => 14
    case _ => 15
  }

  function PositionOfLock(field: string): int {
    match field
    case "door_front_left_locked" => 1
    case "door_front_right_locked" => 2
    case "door_rear_left_locked" => 3
    case "door_rear_right_locked" => 4
    case "closure_frunk_locked" => 5
    case "closure_tailgate_locked" => 6
    case "closure_liftgate_locked" => 7
    case "side_bin_left_locked" => 8
    case _ => 9
  }

  lemma ClosureNamesAreDistinct(position: int)
    requires ClosureFieldName(position).Some?
    ensures PositionOfClosure(ClosureFieldName(position).value) == position
  {
  }

  lemma LockNamesAreDistinct(position: int)
    requires LockFieldName(position).Some?
    ensures PositionOfLock(LockFieldName(position).value) == position
  {
  }

  lemma ClosureFieldsFollowPositions()
    ensures FieldsFollowPositions(JudgeClosure)
  {
    forall d, e | JudgeClosure(d).Applied? && JudgeClosure(e).Applied? && JudgeClosure(d).field == JudgeClosure(e).field
      ensures d.position == e.position
    {
      ClosureNamesAgree(d.position.value);
      ClosureNamesAgree(e.position.value);
      ClosureNamesAreDistinct(d.position.value);
      ClosureNamesAreDistinct(e.position.value);
    }
  }

  lemma LockFieldsFollowPositions()
    ensures FieldsFollowPositions(JudgeLock)
  {
    forall d, e | JudgeLock(d).Applied? && JudgeLock(e).Applied? && JudgeLock(d).field == JudgeLock(e).field
      ensures d.position == e.position
    {
      LockNamesAreDistinct(d.position.value);
      LockNamesAreDistinct(e.position.value);
    }
  }

  // ---- Entries do not disturb each other --------------------------------

  lemma Regroup(before: seq<Entry>, mid: seq<Entry>, after: seq<Entry>)
    requires after != []
    ensures before + mid + after == before + mid + after[..|after| - 1] + [after[|after| - 1]]
  {
  }

  lemma FoldOfSnoc(judge: Entry -> Verdict, entries: seq<Entry>, e: Entry)
    ensures Fold(judge, entries + [e]).0 == Apply(Fold(judge, entries).0, judge(e))
    ensures Fold(judge, entries + [e]).1
            == Fold(judge, entries).1 + (if judge(e).Noted? then [judge(e).note] else [])
  {
    assert (entries + [e])[..|entries|] == entries;
  }

  /** Leaving an entry that was not applied out of a frame leaves the event as it is. */
  lemma {:induction false} UnappliedEntryIsInert(
    judge: Entry -> Verdict, before: seq<Entry>, e: Entry, after: seq<Entry>)
    requires !judge(e).Applied?
    ensures Fold(judge, before + [e] + after).0 == Fold(judge, before + after).0
  {
    if after == [] {
      FoldOfSnoc(judge, before, e);
      assert before + [e] + after == before + [e] && before + after == before;
    } else {
      var init, last := after[..|after| - 1], after[|after| - 1];
      UnappliedEntryIsInert(judge, before, e, init);
      Regroup(before, [e], after);
      Regroup(before, [], after);
      assert before + [] == before;
      FoldOfSnoc(judge, before + [e] + init, last);
      FoldOfSnoc(judge, before + init, last);
    }
  }

  /** Notes are those of the parts of a frame, one part after the other. */
  lemma {:induction false} NotesAreConcatenated(judge: Entry -> Verdict, a: seq<Entry>, b: seq<Entry>)
    ensures Fold(judge, a + b).1 == Fold(judge, a).1 + Fold(judge, b).1
  {
    if b == [] {
      assert a + b == a;
    } else {
      var init, last := b[..|b| - 1], b[|b| - 1];
      NotesAreConcatenated(judge, a, init);
      assert a + b == a + init + [last] && b == init + [last];
      FoldOfSnoc(judge, a + init, last);
      FoldOfSnoc(judge, init, last);
    }
  }

  // ---- Frames with distinct positions -----------------------------------

  ghost predicate DistinctPositions(entries: seq<Entry>) {
    forall i, j :: 0 <= i < j < |entries| ==> entries[i].position != entries[j].position
  }

  ghost predicate Reports(judge: Entry -> Verdict, entries: seq<Entry>, field: string, value: bool) {
    exists e :: e in entries && judge(e).Applied? && judge(e).field == field && judge(e).value == value
  }

  ghost predicate Moves(judge: Entry -> Verdict, entries: seq<Entry>, field: string, t: Transition) {
    exists e :: e in entries && judge(e).Applied? && judge(e).field == field && judge(e).transition == Some(t)
  }

  ghost predicate AppliesSome(judge: Entry -> Verdict, entries: seq<Entry>) {
    exists e :: e in entries && judge(e).Applied?
  }

  ghost predicate FieldsAsReported(judge: Entry -> Verdict, entries: seq<Entry>, event: Event) {
    && (forall f, v :: f in event.fields && event.fields[f] == v <==> Reports(judge, entries, f, v))
    && (forall f, t :: f in event.transitions && event.transitions[f] == t <==> Moves(judge, entries, f, t))
    && (event.meaningful <==> AppliesSome(judge, entries))
  }

  lemma ReportsSnoc(judge: Entry -> Verdict, entries: seq<Entry>, e: Entry, f: string, v: bool)
    ensures Reports(judge, entries + [e], f, v)
            <==> Reports(judge, entries, f, v) || (judge(e).Applied? && judge(e).field == f && judge(e).value == v)
  {
    if Reports(judge, entries, f, v) {
      var d :| d in entries && judge(d).Applied? && judge(d).field == f && judge(d).value == v;
      assert d in entries + [e];
    }
    assert e in entries + [e];
  }

  lemma MovesSnoc(judge: Entry -> Verdict, entries: seq<Entry>, e: Entry, f: string, t: Transition)
    ensures Moves(judge, entries + [e], f, t)
            <==> Moves(judge, entries, f, t)
                 || (judge(e).Applied? && judge(e).field == f && judge(e).transition == Some(t))
  {
    if Moves(judge, entries, f, t) {
      var d :| d in entries && judge(d).Applied? && judge(d).field == f && judge(d).transition == Some(t);
      assert d in entries + [e];
    }
    assert e in entries + [e];
  }

  /** With distinct positions the event is exactly what the entries say, each about its own field. */
  lemma {:induction false} EventIsItsEntries(judge: Entry -> Verdict, entries: seq<Entry>)
    requires FieldsFollowPositions(judge) && DistinctPositions(entries)
    ensures FieldsAsReported(judge, entries, Fold(judge, entries).0)
  {
    if entries != [] {
      var init, last := entries[..|entries| - 1], entries[|entries| - 1];
      EventIsItsEntries(judge, init);
      assert entries == init + [last];
      var before, event := Fold(judge, init).0, Fold(judge, entries).0;
      forall d | d in init && judge(d).Applied? && judge(last).Applied?
        ensures judge(d).field != judge(last).field
      {
        assert d.position != last.position;
      }
      forall f, v
        ensures f in event.fields && event.fields[f] == v <==> Reports(judge, entries, f, v)
      {
        ReportsSnoc(judge, init, last, f, v);
      }
      forall f, t
        ensures f in event.transitions && event.transitions[f] == t <==> Moves(judge, entries, f, t)
      {
        MovesSnoc(judge, init, last, f, t);
      }
    }
  }

  lemma SameReportsSameEvent(judge: Entry -> Verdict, entries: seq<Entry>, a: Event, b: Event)
    requires FieldsAsReported(judge, entries, a) && FieldsAsReported(judge, entries, b)
    ensures a == b
  {
    forall f ensures f in a.fields <==> f in b.fields {
      if f in a.fields { assert Reports(judge, entries, f, a.fields[f]); }
      if f in b.fields { assert Reports(judge, entries, f, b.fields[f]); }
    }
    forall f | f in a.fields ensures a.fields[f] == b.fields[f] {
      assert Reports(judge, entries, f, a.fields[f]);
    }
    assert a.fields == b.fields;
    forall f ensures f in a.transitions <==> f in b.transitions {
      if f in a.transitions { assert Moves(judge, entries, f, a.transitions[f]); }
      if f in b.transitions { assert Moves(judge, entries, f, b.transitions[f]); }
    }
    forall f | f in a.transitions ensures a.transitions[f] == b.transitions[f] {
      assert Moves(judge, entries, f, a.transitions[f]);
    }
    assert a.transitions == b.transitions;
  }

  lemma PermutedReports(judge: Entry -> Verdict, a: seq<Entry>, b: seq<Entry>, event: Event)
    requires (forall e :: e in a <==> e in b) && FieldsAsReported(judge, b, event)
    ensures FieldsAsReported(judge, a, event)
  {
    forall f, v ensures Reports(judge, a, f, v) <==> Reports(judge, b, f, v) {}
    forall f, t ensures Moves(judge, a, f, t) <==> Moves(judge, b, f, t) {}
    assert AppliesSome(judge, a) <==> AppliesSome(judge, b);
  }

  /** So the order of the entries does not matter. */
  lemma EntryOrderIsIrrelevant(judge: Entry -> Verdict, a: seq<Entry>, b: seq<Entry>)
    requires FieldsFollowPositions(judge) && DistinctPositions(a) && DistinctPositions(b)
    requires multiset(a) == multiset(b)
    ensures Fold(judge, a).0 == Fold(judge, b).0
  {
    EventIsItsEntries(judge, a);
    EventIsItsEntries(judge, b);
    assert forall e :: e in a <==> e in multiset(a);
    assert forall e :: e in b <==> e in multiset(b);
    PermutedReports(judge, a, b, Fold(judge, b).0);
    SameReportsSameEvent(judge, a, Fold(judge, a).0, Fold(judge, b).0);
  }

  /** Every recorded movement names a field that the frame decodes as not closed. */
  lemma MovementsAreNotClosed(entries: seq<Entry>)
    requires DistinctPositions(entries)
    ensures var event := Fold(JudgeClosure, entries).0;
            forall f :: f in event.transitions ==> f in event.fields && !event.fields[f]
  {
    var event := Fold(JudgeClosure, entries).0;
    assert FieldsAsReported(JudgeClosure, entries, event) by {
      ClosureFieldsFollowPositions();
      EventIsItsEntries(JudgeClosure, entries);
    }
    forall f | f in event.transitions
      ensures f in event.fields && !event.fields[f]
    {
      assert Moves(JudgeClosure, entries, f, event.transitions[f]);
      assert Reports(JudgeClosure, entries, f, false);
    }
  }

  /** Closure frames: order is irrelevant. */
  lemma ClosureFramesAreUnambiguous(a: seq<Entry>, b: seq<Entry>)
    requires DistinctPositions(a) && DistinctPositions(b) && multiset(a) == multiset(b)
    ensures Fold(JudgeClosure, a).0 == Fold(JudgeClosure, b).0
  {
    ClosureFieldsFollowPositions();
    EntryOrderIsIrrelevant(JudgeClosure, a, b);
  }

  /** Lock frames: order is irrelevant. */
  lemma LockFramesAreUnambiguous(a: seq<Entry>, b: seq<Entry>)
    requires DistinctPositions(a) && DistinctPositions(b) && multiset(a) == multiset(b)
    ensures Fold(JudgeLock, a).0 == Fold(JudgeLock, b).0
  {
    LockFieldsFollowPositions();
    EntryOrderIsIrrelevant(JudgeLock, a, b);
  }

  // ---- In the entries' own numbers --------------------------------------

  /** Some entry gives this position this state. */
  predicate Says(entries: seq<Entry>, position: int, state: int) {
    Entry(Some(position), Some(state)) in entries
  }

  /** With distinct positions a mapped closure is closed on state 2, open on 1 and 3 to 5, and moves on 3 to 5. */
  lemma ClosureFrameSays(entries: seq<Entry>, position: int, field: string)
    requires DistinctPositions(entries) && ClosureField(position) == Some(field)
    ensures var event := Fold(JudgeClosure, entries).0;
            && (field in event.fields && event.fields[field] <==> Says(entries, position, 2))
            && (field in event.fields && !event.fields[field] <==>
                  Says(entries, position, 1) || Says(entries, position, 3)
                  || Says(entries, position, 4) || Says(entries, position, 5))
            && (Lookup(event.transitions, field) == Some(Ajar) <==> Says(entries, position, 3))
            && (Lookup(event.transitions, field) == Some(StartsOpening) <==> Says(entries, position, 4))
            && (Lookup(event.transitions, field) == Some(StartsClosing) <==> Says(entries, position, 5))
  {
    var event := Fold(JudgeClosure, entries).0;
    ClosureFieldsFollowPositions();
    EventIsItsEntries(JudgeClosure, entries);
    forall v ensures Reports(JudgeClosure, entries, field, v) <==>
                     exists state :: 1 <= state <= 5 && (v <==> state == 2) && Says(entries, position, state)
    {
      ClosureReportsIff(entries, position, field, v);
    }
    forall t ensures Moves(JudgeClosure, entries, field, t) <==>
                     exists state :: TransitionOf(state) == Some(t) && Says(entries, position, state)
    {
      ClosureMovesIff(entries, position, field, t);
    }
    assert Reports(JudgeClosure, entries, field, true) <==> field in event.fields && event.fields[field];
    assert Reports(JudgeClosure, entries, field, false) <==> field in event.fields && !event.fields[field];
    forall t ensures Lookup(event.transitions, field) == Some(t) <==> Moves(JudgeClosure, entries, field, t) {}
  }

  lemma ClosureReportsIff(entries: seq<Entry>, position: int, field: string, v: bool)
    requires ClosureField(position) == Some(field)
    ensures Reports(JudgeClosure, entries, field, v) <==>
            exists state :: 1 <= state <= 5 && (v <==> state == 2) && Says(entries, position, state)
  {
    if Reports(JudgeClosure, entries, field, v) {
      var e :| e in entries && JudgeClosure(e).Applied? && JudgeClosure(e).field == field && JudgeClosure(e).value == v;
      AppliedClosureIsAt(e, position, field);
      assert Says(entries, position, e.state.value);
    }
    forall state | 1 <= state <= 5 && (v <==> state == 2) && Says(entries, position, state)
      ensures Reports(JudgeClosure, entries, field, v)
    {
      assert JudgeClosure(Entry(Some(position), Some(state))) == Applied(field, v, TransitionOf(state));
    }
  }

  lemma ClosureMovesIff(entries: seq<Entry>, position: int, field: string, t: Transition)
    requires ClosureField(position) == Some(field)
    ensures Moves(JudgeClosure, entries, field, t) <==>
            exists state :: TransitionOf(state) == Some(t) && Says(entries, position, state)
  {
    if Moves(JudgeClosure, entries, field, t) {
      var e :| e in entries && JudgeClosure(e).Applied? && JudgeClosure(e).field == field
               && JudgeClosure(e).transition == Some(t);
      AppliedClosureIsAt(e, position, field);
      assert Says(entries, position, e.state.value);
    }
    forall state | TransitionOf(state) == Some(t) && Says(entries, position, state)
      ensures Moves(JudgeClosure, entries, field, t)
    {
      assert JudgeClosure(Entry(Some(position), Some(state))) == Applied(field, false, Some(t));
    }
  }

  /** An entry that writes a closure's field gives that closure's position a state between 1 and 5. */
  lemma AppliedClosureIsAt(e: Entry, position: int, field: string)
    requires ClosureField(position) == Some(field)
    requires JudgeClosure(e).Applied? && JudgeClosure(e).field == field
    ensures e.position == Some(position) && e.state.Some? && 1 <= e.state.value <= 5
  {
    ClosureNamesAgree(e.position.value);
    ClosureNamesAgree(position);
    ClosureNamesAreDistinct(e.position.value);
    ClosureNamesAreDistinct(position);
  }

  /** With distinct positions the charge port is open on states 1 and 3 of position 10 and closed on 2, 4 and 5. */
  lemma ChargePortFrameSays(entries: seq<Entry>)
    requires DistinctPositions(entries)
    ensures var fields := Fold(JudgeClosure, entries).0.fields;
            && (Lookup(fields, "charge_port_open") == Some(true) <==> Says(entries, 10, 1) || Says(entries, 10, 3))
            && (Lookup(fields, "charge_port_open") == Some(false) <==>
                  Says(entries, 10, 2) || Says(entries, 10, 4) || Says(entries, 10, 5))
  {
    hide ClosureField, ClosureFieldName, PositionOfClosure;
    var fields := Fold(JudgeClosure, entries).0.fields;
    ClosureFieldsFollowPositions();
    EventIsItsEntries(JudgeClosure, entries);
    forall v
      ensures Lookup(fields, "charge_port_open") == Some(v) <==> Reports(JudgeClosure, entries, "charge_port_open", v)
    {
    }
    PortReportsIff(entries, true);
    PortReportsIff(entries, false);
  }

  lemma PortReportsIff(entries: seq<Entry>, v: bool)
    ensures Reports(JudgeClosure, entries, "charge_port_open", v) <==>
            exists state :: 1 <= state <= 5 && (v <==> state == 1 || state == 3) && Says(entries, 10, state)
  {
    if Reports(JudgeClosure, entries, "charge_port_open", v) {
      var e :| e in entries && JudgeClosure(e).Applied? && JudgeClosure(e).field == "charge_port_open"
               && JudgeClosure(e).value == v;
      if e.position != Some(10) {
        ClosureNamesAgree(e.position.value);
        ClosureNamesAreDistinct(e.position.value);
        assert false;
      }
      assert Says(entries, 10, e.state.value);
    }
    forall state | 1 <= state <= 5 && (v <==> state == 1 || state == 3) && Says(entries, 10, state)
      ensures Reports(JudgeClosure, entries, "charge_port_open", v)
    {
      assert JudgeClosure(Entry(Some(10), Some(state))) == Applied("charge_port_open", v, None);
    }
  }

  /** With distinct positions a lock is locked on state 1 and unlocked on 2 and 3. */
  lemma LockFrameSays(entries: seq<Entry>, position: int, field: string)
    requires DistinctPositions(entries) && LockFieldName(position) == Some(field)
    ensures var fields := Fold(JudgeLock, entries).0.fields;
            && (Lookup(fields, field) == Some(true) <==> Says(entries, position, 1))
            && (Lookup(fields, field) == Some(false) <==> Says(entries, position, 2) || Says(entries, position, 3))
  {
    hide LockFieldName, PositionOfLock;
    var fields := Fold(JudgeLock, entries).0.fields;
    LockFieldsFollowPositions();
    EventIsItsEntries(JudgeLock, entries);
    forall v ensures Lookup(fields, field) == Some(v) <==> Reports(JudgeLock, entries, field, v) {}
    LockReportsIff(entries, position, field, true);
    LockReportsIff(entries, position, field, false);
  }

  lemma LockReportsIff(entries: seq<Entry>, position: int, field: string, v: bool)
    requires LockFieldName(position) == Some(field)
    ensures Reports(JudgeLock, entries, field, v) <==>
            exists state :: 1 <= state <= 3 && (v <==> state == 1) && Says(entries, position, state)
  {
    hide LockFieldName, PositionOfLock;
    if Reports(JudgeLock, entries, field, v) {
      var e :| e in entries && JudgeLock(e).Applied? && JudgeLock(e).field == field && JudgeLock(e).value == v;
      LockNamesAreDistinct(e.position.value);
      LockNamesAreDistinct(position);
      assert Says(entries, position, e.state.value);
    }
    forall state | 1 <= state <= 3 && (v <==> state == 1) && Says(entries, position, state)
      ensures Reports(JudgeLock, entries, field, v)
    {
      assert JudgeLock(Entry(Some(position), Some(state))) == Applied(field, v, None);
    }
  }

  lemma {:induction false} NotesAreOfEntries(judge: Entry -> Verdict, entries: seq<Entry>, note: Note)
    ensures note in Fold(judge, entries).1 <==> exists e :: e in entries && judge(e) == Noted(note)
  {
    if entries != [] {
      NotesAreOfEntries(judge, entries[..|entries| - 1], note);
      assert entries == entries[..|entries| - 1] + [entries[|entries| - 1]];
    }
  }

  /** The entry a note is about, where a note tells it whole. */
  function NotedEntry(note: Note): Entry {
    match note
    case UnexpectedPort(state) => Entry(Some(10), Some(state))
    case UnmappedClosure(position, state) => Entry(Some(position), Some(state))
    case UnexpectedClosure(position, state) => Entry(Some(position), Some(state))
    case UnmappedLock(position) => Entry(Some(position), None)
    case UnexpectedLock(position, reported) => Entry(Some(position), reported)
  }

  /** A closure entry is noted for a state above 5 or below 0, or for a position without a meaning. */
  lemma ClosureNoteIff(entries: seq<Entry>, note: Note)
    ensures note in Fold(JudgeClosure, entries).1 <==>
            && NotedEntry(note) in entries
            && (|| (note.UnexpectedPort? && !(0 <= note.state <= 5))
                || (note.UnmappedClosure? && !(1 <= note.position <= 16) && note.position != 10000 && note.state != 0)
                || (note.UnexpectedClosure? && 1 <= note.position <= 16 && note.position != 10
                    && !(0 <= note.state <= 5)))
  {
    NotesAreOfEntries(JudgeClosure, entries, note);
    forall e: Entry | JudgeClosure(e) == Noted(note) ensures e == NotedEntry(note) {
      assert e.position.Some? && e.state.Some?;
    }
  }

  /** A lock entry is noted for a position outside 1 to 9, or for a state outside 1 to 3 or none at all. */
  lemma LockNoteIff(entries: seq<Entry>, note: Note)
    ensures note in Fold(JudgeLock, entries).1 <==>
            || (note.UnmappedLock? && !(1 <= note.position <= 9)
                && exists e :: e in entries && e.position == Some(note.position))
            || (note.UnexpectedLock? && 1 <= note.position <= 9 && NotedEntry(note) in entries
                && (note.reported.None? || !(1 <= note.reported.value <= 3)))
  {
    NotesAreOfEntries(JudgeLock, entries, note);
    forall e: Entry | JudgeLock(e) == Noted(note)
      ensures e.position == NotedEntry(note).position && (note.UnexpectedLock? ==> e == NotedEntry(note))
    {
      assert e.position.Some?;
    }
    if note.UnmappedLock? && !(1 <= note.position <= 9) {
      forall e: Entry | e.position == Some(note.position) ensures JudgeLock(e) == Noted(note) {}
    }
  }

  // ---- Repeated positions -----------------------------------------------

  /** What the last applied entry about a field says. */
  function LastValue(judge: Entry -> Verdict, entries: seq<Entry>, field: string): Option<bool> {
    if entries == [] then None
    else
      var v := judge(entries[|entries| - 1]);
      if v.Applied? && v.field == field then Some(v.value)
      else LastValue(judge, entries[..|entries| - 1], field)
  }

  lemma {:induction false} FieldIsLastValue(judge: Entry -> Verdict, entries: seq<Entry>, field: string)
    ensures var fields := Fold(judge, entries).0.fields;
            LastValue(judge, entries, field) == if field in fields then Some(fields[field]) else None
  {
    if entries != [] { FieldIsLastValue(judge, entries[..|entries| - 1], field); }
  }

  lemma {:induction false} MovementIsSomeEntry(judge: Entry -> Verdict, entries: seq<Entry>, field: string)
    ensures field in Fold(judge, entries).0.transitions <==> exists t :: Moves(judge, entries, field, t)
  {
    if entries != [] {
      var init, last := entries[..|entries| - 1], entries[|entries| - 1];
      MovementIsSomeEntry(judge, init, field);
      assert entries == init + [last];
      forall t { MovesSnoc(judge, init, last, field, t); }
      if judge(last).Applied? && judge(last).field == field && judge(last).transition.Some? {
        assert Moves(judge, entries, field, judge(last).transition.value);
      }
    }
  }

  /**
   * Any frame, repeated positions included: a movement is recorded on a field that ends up closed
   * exactly when some entry moves the field and the last entry about it says closed.
   */
  lemma MovementIsStaleIff(entries: seq<Entry>, field: string)
    ensures var event := Fold(JudgeClosure, entries).0;
            (field in event.transitions && field in event.fields && event.fields[field])
            <==> (exists t :: Moves(JudgeClosure, entries, field, t))
                 && LastValue(JudgeClosure, entries, field) == Some(true)
  {
    FieldIsLastValue(JudgeClosure, entries, field);
    MovementIsSomeEntry(JudgeClosure, entries, field);
  }

  /** A repeated position can leave a movement on a field that ends up closed. */
  lemma RepeatedPositionLeavesStaleMovement()
    ensures var entries := [Entry(Some(5), Some(3)), Entry(Some(5), Some(2))];
            var event := Fold(JudgeClosure, entries).0;
            && "closure_frunk_closed" in event.transitions
            && "closure_frunk_closed" in event.fields && event.fields["closure_frunk_closed"]
  {
    var entries := [Entry(Some(5), Some(3)), Entry(Some(5), Some(2))];
    FoldSnoc(JudgeClosure, entries, 0);
    FoldSnoc(JudgeClosure, entries, 1);
    assert entries[..2] == entries && entries[..0] == [];
  }
}

/** The session table and the services that update it, tied step by step to `SessionRuns` and `SessionSweeps`. */
module SessionService {
  import opened Options
  import opened SessionTypes
  import opened ScheduleConflict
  import opened SessionRuns
  import opened SessionSweeps

  datatype Reason = ByTimer | ByTeacher

  datatype Event = Finalized(id: nat, reason: Reason)

  function EventIds(events: seq<Event>): seq<nat> { seq(|events|, i requires 0 <= i < |events| => events[i].id) }

  function TimerEvents(ids: seq<nat>): seq<Event> {
    seq(|ids|, i requires 0 <= i < |ids| => Finalized(ids[i], ByTimer))
  }

  /** How many of the rows change their status in a sweep. */
  function Moved(ids: seq<nat>, k: Sweep, now: int, e: Enrollment, rows: seq<Session>): nat {
    if ids == [] then 0
    else
      var id := ids[|ids| - 1];
      Moved(ids[..|ids| - 1], k, now, e, rows) +
      (if id < |rows| && SweepRow(k, now, e, rows[id]).status != rows[id].status then 1 else 0)
  }

  /** The rows after a sweep has dealt with the given ids. */
  function Swept(ids: seq<nat>, k: Sweep, now: int, e: Enrollment, rows: seq<Session>): (swept: seq<Session>)
    ensures |swept| == |rows|
  {
    if ids == [] then rows
    else
      var before, id := Swept(ids[..|ids| - 1], k, now, e, rows), ids[|ids| - 1];
      if id < |rows| then before[id := SweepRow(k, now, e, rows[id])] else before
  }

  lemma {:induction false} SweptAt(ids: seq<nat>, k: Sweep, now: int, e: Enrollment, rows: seq<Session>, x: nat)
    requires x < |rows|
    ensures Swept(ids, k, now, e, rows)[x] == if x in ids then SweepRow(k, now, e, rows[x]) else rows[x]
  {
    if ids != [] {
      SweptAt(ids[..|ids| - 1], k, now, e, rows, x);
      assert ids == ids[..|ids| - 1] + [ids[|ids| - 1]];
    }
  }

  /** The ids of exactly the due rows, each once. */
  ghost predicate IsWorkList(ids: seq<nat>, k: Sweep, now: int, rows: seq<Session>) {
    && (forall i :: i in ids <==> 0 <= i < |rows| && Due(k, now, rows[i]))
    && (forall i, j | 0 <= i < j < |ids| :: ids[i] != ids[j])
  }

  /** One more of the distinct ids of a work list. */
  lemma SweptSnoc(due: seq<nat>, i: nat, k: Sweep, now: int, e: Enrollment, rows: seq<Session>)
    requires i < |due| && IsWorkList(due, k, now, rows)
    ensures due[i] < |rows| && Due(k, now, rows[due[i]])
    ensures var before := Swept(due[..i], k, now, e, rows);
            && before[due[i]] == rows[due[i]]
            && Swept(due[..i + 1], k, now, e, rows) == before[due[i] := SweepRow(k, now, e, rows[due[i]])]
    ensures TimerEvents(due[..i + 1]) == TimerEvents(due[..i]) + [Finalized(due[i], ByTimer)]
    ensures Moved(due[..i + 1], k, now, e, rows) ==
            Moved(due[..i], k, now, e, rows) +
            (if SweepRow(k, now, e, rows[due[i]]).status != rows[due[i]].status then 1 else 0)
  {
    assert due[i] in due;
    assert due[..i + 1] == due[..i] + [due[i]] && due[..i + 1][..i] == due[..i];
    assert due[i] !in due[..i];
    SweptAt(due[..i], k, now, e, rows, due[i]);
    MovedSnoc(due[..i], due[i], k, now, e, rows);
  }

  /** When all due rows are dealt with, every row is as its rule says. */
  lemma SweptAll(due: seq<nat>, k: Sweep, now: int, e: Enrollment, rows: seq<Session>)
    requires IsWorkList(due, k, now, rows)
    ensures forall i | 0 <= i < |rows| :: Swept(due, k, now, e, rows)[i] == SweepRow(k, now, e, rows[i])
  {
    forall i: nat | i < |rows| ensures Swept(due, k, now, e, rows)[i] == SweepRow(k, now, e, rows[i]) {
      SweptAt(due, k, now, e, rows, i);
    }
  }

  lemma {:induction false} AllMoved(ids: seq<nat>, k: Sweep, now: int, e: Enrollment, rows: seq<Session>)
    requires k != AutoOpenDue && forall i | i in ids :: i < |rows| && Due(k, now, rows[i])
    ensures Moved(ids, k, now, e, rows) == |ids|
  {
    if ids != [] {
      var n := |ids| - 1;
      assert ids[n] in ids && forall i | i in ids[..n] :: i in ids;
      AllMoved(ids[..n], k, now, e, rows);
    }
  }

  lemma MovedSnoc(ids: seq<nat>, id: nat, k: Sweep, now: int, e: Enrollment, rows: seq<Session>)
    requires id < |rows|
    ensures Moved(ids + [id], k, now, e, rows) ==
            Moved(ids, k, now, e, rows) + (if SweepRow(k, now, e, rows[id]).status != rows[id].status then 1 else 0)
  {
    assert (ids + [id])[..|ids|] == ids;
  }

  datatype NewSession = NewSession(classId: string, room: string, start: int, end: int)

  /** The fields a reschedule may carry; `room` is the resolved room name. */
  datatype ScheduleEdit = ScheduleEdit(examType: bool, room: Option<string>, start: Option<int>, end: Option<int>)

  function Or<T>(o: Option<T>, fallback: T): T { if o.Some? then o.value else fallback }

  predicate IsEmptyEdit(e: ScheduleEdit) { !e.examType && e.room.None? && e.start.None? && e.end.None? }

  function Rescheduled(s: Session, e: ScheduleEdit): Session {
    s.(room := Or(e.room, s.room), start := Or(e.start, s.start), end := Or(e.end, s.end))
  }

  /** The validators on a creation request; the class id is a UUID. */
  predicate IsValid(d: NewSession, now: int) {
    && d.classId != ""
    && d.end > d.start && d.end - d.start >= MIN_EXAM_DURATION_MS && d.start >= now - MAX_BACKDATE_MS
  }

  function FreshRow(teacher: string, d: NewSession, code: string): Session {
    Session(code, teacher, d.classId, d.room, d.start, d.end, Scheduled, None, None, {}, {}, map[])
  }

  class SessionStore {
    var rows: seq<Session>
    var events: seq<Event>
    ghost var opening: multiset<(nat, Opening)>
    ghost var signed: seq<nat>

    ghost function View(): Db
      reads this
    {
      Db(rows, opening, EventIds(events), signed)
    }

    constructor ()
      ensures View() == EMPTY
    {
      rows, events, opening, signed := [], [], multiset{}, [];
    }

    /** `findOwnedBy`: 404 before 403. */
    function Owned(id: nat, teacher: string): (r: Outcome<Session>)
      reads this
      ensures r == Refused(NotFound) <==> id >= |rows|
      ensures r == Refused(Forbidden) <==> id < |rows| && rows[id].teacher != teacher
      ensures r.Ok? <==> id < |rows| && rows[id].teacher == teacher
      ensures r.Ok? ==> r.value == rows[id]
    {
      if id >= |rows| then Refused(NotFound)
      else if rows[id].teacher != teacher then Refused(Forbidden)
      else Ok(rows[id])
    }

    /**
     * `create`: one of at most five generated codes. Only a taken code is worth another try, and the first
     * free one is used.
     */
    method Create(teacher: string, d: NewSession, now: int, codes: seq<string>) returns (r: Outcome<nat>)
      requires |codes| == CODE_MAX_ATTEMPTS
      modifies this
      ensures r == Refused(BadRequest) <==> d.classId == "" || d.end - d.start < 900_000 || d.start < now - 1_800_000
      ensures r.Refused? ==> r == Refused(BadRequest) || r == Refused(Conflict)
      ensures r.Ok? <==>
              && IsValid(d, now)
              && AssertNone(old(rows), Booking(d.room, d.classId, teacher, d.start, d.end), None).None?
              && exists k :: 0 <= k < |codes| && CodeIsFree(old(rows), codes[k])
      ensures r.Refused? ==> View() == old(View())
      ensures r.Ok? ==>
                && r.value == |old(rows)|
                && (exists k :: 0 <= k < |codes| && rows == old(rows) + [FreshRow(teacher, d, codes[k])]
                      && CodeIsFree(old(rows), codes[k]) && forall j | 0 <= j < k :: !CodeIsFree(old(rows), codes[j]))
                && View() == Apply(old(View()), Insert(rows[r.value]))
      ensures r.Ok? ==> r.value < |rows|
      ensures r.Ok? ==>
                var row := rows[r.value];
                && row.teacher == teacher && row.classId == d.classId && row.room == d.room
                && row.start == d.start && row.end == d.end && row.status == Scheduled
    {
      if !IsValid(d, now) { return Refused(BadRequest); }
      var clash := AssertNone(rows, Booking(d.room, d.classId, teacher, d.start, d.end), None);
      if clash.Some? { return Refused(Conflict); }
      var attempt := 0;
      while attempt < CODE_MAX_ATTEMPTS
        invariant 0 <= attempt <= CODE_MAX_ATTEMPTS
        invariant View() == old(View())
        invariant forall k | 0 <= k < attempt :: !CodeIsFree(rows, codes[k])
      {
        var row := FreshRow(teacher, d, codes[attempt]);
        InsertChecks(rows, row);
        if CodeIsFree(rows, row.code) {
          rows := rows + [row];
          return Ok(|rows| - 1);
        }
        attempt := attempt + 1;
      }
      return Refused(Conflict);
    }

    /** `updateSchedule`, reading and writing at one moment. */
    method UpdateSchedule(id: nat, teacher: string, e: ScheduleEdit) returns (r: Outcome<Session>)
      modifies this`rows
      ensures r.Ok? <==>
              && old(Owned(id, teacher)).Ok? && old(rows)[id].status != Missed && old(rows)[id].roster == {}
              && (IsEmptyEdit(e) ||
                  var t := Rescheduled(old(rows)[id], e);
                  t.start < t.end && t.classId != "" && AssertNone(old(rows), BookingOf(t), Some(id)).None?)
      ensures old(Owned(id, teacher)).Refused? ==> r == old(Owned(id, teacher))
      ensures old(Owned(id, teacher)).Ok? && (old(rows)[id].status == Missed || old(rows)[id].roster != {}) ==>
                r == Refused(Conflict)
      ensures old(Owned(id, teacher)).Ok? && old(rows)[id].status != Missed && old(rows)[id].roster == {} ==>
                var start := if e.start.Some? then e.start.value else old(rows)[id].start;
                var end := if e.end.Some? then e.end.value else old(rows)[id].end;
                && (r == Refused(BadRequest) <==> !IsEmptyEdit(e) && (end <= start || old(rows)[id].classId == ""))
                && (r.Ok? || r == Refused(BadRequest) || r == Refused(Conflict))
      ensures r.Refused? ==> rows == old(rows)
      ensures r.Ok? ==>
                && r.value.room == (if e.room.Some? then e.room.value else old(rows)[id].room)
                && r.value.start == (if e.start.Some? then e.start.value else old(rows)[id].start)
                && r.value.end == (if e.end.Some? then e.end.value else old(rows)[id].end)
                && r.value == old(rows)[id].(room := r.value.room, start := r.value.start, end := r.value.end)
      ensures r.Ok? && IsEmptyEdit(e) ==> rows == old(rows) && r.value == rows[id]
      ensures r.Ok? && !IsEmptyEdit(e) ==>
                var t := Rescheduled(old(rows)[id], e);
                && rows == old(rows)[id := t] && r.value == t
                && View() == Apply(old(View()), WriteSchedule(id, t.room, t.start, t.end))
    {
      var owned := Owned(id, teacher);
      if owned.Refused? { return owned; }
      var s := owned.value;
      if s.status == Missed || s.roster != {} { return Refused(Conflict); }
      if IsEmptyEdit(e) { return Ok(s); }
      var t := Rescheduled(s, e);
      if !(t.end > t.start) || t.classId == "" { return Refused(BadRequest); }
      var clash := AssertNone(rows, BookingOf(t), Some(id));
      if clash.Some? { return Refused(Conflict); }
      AdvisoryMirrorsConstraints(rows, id, t);
      assert t == rows[id].(room := t.room, start := t.start, end := t.end);
      rows := rows[id := t];
      return Ok(t);
    }

    /** `cancel`, reading and writing at one moment. */
    method Cancel(id: nat, teacher: string) returns (r: Outcome<Session>)
      modifies this`rows
      ensures r.Ok? <==>
              old(Owned(id, teacher)).Ok? && old(rows)[id].status in {Draft, Scheduled, NotReady, Missed, Cancelled}
      ensures r.Refused? ==>
                r == if old(Owned(id, teacher)).Refused? then old(Owned(id, teacher)) else Refused(Conflict)
      ensures r.Refused? ==> rows == old(rows)
      ensures r.Ok? ==>
                && View() == Apply(old(View()), WriteCancelled(id)) && rows[id].status == Cancelled
                && r.value == rows[id] && !HoldsSlot(rows[id].status)
    {
      var owned := Owned(id, teacher);
      if owned.Refused? { return owned; }
      var s := owned.value;
      if s.status == Cancelled {
        assert rows[id := s] == rows;
        return Ok(s);
      }
      if !CanCancel(s.status) { return Refused(Conflict); }
      rows := rows[id := s.(status := Cancelled)];
      return Ok(rows[id]);
    }

    /** The reads of `freeze`; a row that will be written is noted as opening. */
    method BeginFreeze(id: nat, seen: Status, enrolled: set<string>) returns (r: Outcome<Option<Opening>>)
      modifies this`opening
      ensures id >= |rows| ==> r == Refused(if seen == Missed then Conflict else NotFound)
      ensures id < |rows| ==> r == FreezeRead(rows[id], seen, enrolled)
      ensures View() == Apply(old(View()), ReadToOpen(id, seen, enrolled))
    {
      if seen == Missed {
        if id < |rows| { ReadOnly(View(), id, seen, enrolled); }
        return Refused(Conflict);
      }
      if id >= |rows| { return Refused(NotFound); }
      r := FreezeRead(rows[id], seen, enrolled);
      assert rows[id := rows[id]] == rows;
      if r.Ok? && r.value.Some? { opening := opening + multiset{(id, r.value.value)}; }
    }

    /** The writes of `freeze`, however much later. False when a constraint rolled the transaction back. */
    method CommitFreeze(id: nat, o: Opening) returns (committed: bool)
      requires id < |rows| && (id, o) in opening
      modifies this`rows, this`opening
      ensures committed <==> Commits(old(rows), id, o)
      ensures View() == Apply(old(View()), WriteOpened(id, o))
    {
      opening := opening - multiset{(id, o)};
      committed := Commits(rows, id, o);
      if committed {
        rows := rows[id := OpenedBy(rows[id], o)];
      } else {
        assert rows[id := rows[id]] == rows;
      }
    }

    /** `freeze` with nobody in between. */
    method FreezeRoster(id: nat, seen: Status, enrolled: set<string>) returns (r: Outcome<Session>)
      requires NoDoubleBooking(rows)
      modifies this`rows, this`opening
      ensures NoDoubleBooking(rows) && opening == old(opening)
      ensures id >= |rows| ==> r.Refused? && rows == old(rows)
      ensures id < |old(rows)| ==>
                && r == Freeze(old(rows)[id], seen, enrolled)
                && rows == old(rows)[id := if r.Ok? then r.value else old(rows)[id]]
    {
      ghost var before := View();
      var read := BeginFreeze(id, seen, enrolled);
      if read.Refused? {
        if id < |rows| { ReadOnly(before, id, seen, enrolled); }
        return Refused(read.why);
      }
      match read.value {
        case None =>
          ReadOnly(before, id, seen, enrolled);
          return Ok(rows[id]);
        case Some(o) =>
          OpeningKeepsBookings(before, id, seen, enrolled, o);
          var _ := CommitFreeze(id, o);
          return Ok(rows[id]);
      }
    }

    /** The guarded update shared by the sweep and the button. True for the one caller that moved the row. */
    method FinalizeExamSession(id: nat, reason: Reason) returns (moved: bool)
      modifies this`rows, this`events
      ensures moved <==> Finalizes(old(View()), FinalizeExam(id))
      ensures View() == Apply(old(View()), FinalizeExam(id))
      ensures events == if moved then old(events) + [Finalized(id, reason)] else old(events)
    {
      if id >= |rows| || rows[id].status != Active {
        assert id < |rows| ==> rows[id := rows[id]] == rows;
        return false;
      }
      rows := rows[id := rows[id].(status := Collecting)];
      events := events + [Finalized(id, reason)];
      return true;
    }

    method FinalizeForOwner(id: nat, teacher: string) returns (r: Outcome<Session>)
      modifies this`rows, this`events
      ensures old(Owned(id, teacher)).Refused? ==> r == old(Owned(id, teacher)) && View() == old(View())
      ensures old(Owned(id, teacher)).Ok? ==>
                && id < |rows| && r == Ok(rows[id]) && r.value.status != Active
                && View() == Apply(old(View()), FinalizeExam(id))
                && events == if old(rows)[id].status == Active then old(events) + [Finalized(id, ByTeacher)]
                             else old(events)
    {
      var owned := Owned(id, teacher);
      if owned.Refused? { return owned; }
      var _ := FinalizeExamSession(id, ByTeacher);
      return Ok(rows[id]);
    }

    method TransitionUnopenedRow(id: nat, to: Status) returns (moved: bool)
      requires to == NotReady || to == Missed
      modifies this`rows
      ensures moved <==> id < |old(rows)| && IsAwaitingOpen(old(rows)[id].status)
      ensures View() == Apply(old(View()), Unopened(id, to))
    {
      if id >= |rows| || !IsAwaitingOpen(rows[id].status) {
        assert id < |rows| ==> rows[id := rows[id]] == rows;
        return false;
      }
      rows := rows[id := rows[id].(status := to)];
      return true;
    }

    /** `confirmEnd`: a repeated or late confirmation is no error, it answers with the row as it stands. */
    method ConfirmEndOf(id: nat, teacher: string, now: int) returns (r: Outcome<Session>)
      modifies this`rows, this`signed
      ensures old(Owned(id, teacher)).Refused? ==> r == old(Owned(id, teacher)) && View() == old(View())
      ensures old(Owned(id, teacher)).Ok? ==>
                id < |rows| && r == Ok(rows[id]) && View() == Apply(old(View()), ConfirmEnd(id, teacher, now))
      ensures old(Owned(id, teacher)).Ok? && ConfirmMatches(old(rows)[id], now) ==>
                && rows[id].completedBy == Some(teacher) && rows[id].completedAt == Some(now)
                && forall k | k in rows[id].seats :: rows[id].seats[k] != NotSubmitted
    {
      var owned := Owned(id, teacher);
      if owned.Refused? { return owned; }
      if ConfirmMatches(rows[id], now) {
        var s := rows[id];
        rows := rows[id := s.(status := Completed, completedAt := Some(now), completedBy := Some(teacher),
                              seats := MarkAbsentees(s.seats))];
        signed := signed + [id];
      } else {
        assert rows[id := rows[id]] == rows;
      }
      return Ok(rows[id]);
    }

    method CompleteExpiredSession(id: nat, now: int) returns (moved: bool)
      modifies this`rows
      ensures moved <==> id < |old(rows)| && old(rows)[id].status == Collecting
      ensures View() == Apply(old(View()), CloseExpired(id, now))
    {
      if id >= |rows| || rows[id].status != Collecting {
        assert id < |rows| ==> rows[id := rows[id]] == rows;
        return false;
      }
      rows := rows[id := rows[id].(status := Completed, completedAt := Some(now))];
      return true;
    }

    /** `advanceAutoOpen` with nobody in between; true when the status changed. */
    method AdvanceAutoOpen(id: nat, now: int, e: Enrollment) returns (changed: bool)
      requires NoDoubleBooking(rows)
      modifies this`rows, this`opening
      ensures NoDoubleBooking(rows) && opening == old(opening)
      ensures |rows| == |old(rows)|
      ensures id >= |rows| ==> rows == old(rows) && !changed
      ensures id < |rows| ==>
                && rows == old(rows)[id := Advance(old(rows)[id], now, Enrolled(e, old(rows)[id].classId))]
                && (changed <==> rows[id].status != old(rows)[id].status)
    {
      if id >= |rows| || !IsAwaitingOpen(rows[id].status) {
        assert id < |rows| ==> rows[id := rows[id]] == rows;
        return false;
      }
      var s := rows[id];
      if now >= s.end {
        BookingsKept(View(), Unopened(id, Missed));
        changed := TransitionUnopenedRow(id, Missed);
        return;
      }
      var r := FreezeRoster(id, s.status, Enrolled(e, s.classId));
      assert r.Refused? ==> rows == old(rows) by { assert rows[id := rows[id]] == rows; }
      if r.Ok? { return true; }
      if r.why != BadRequest { return false; }
      var next := if now >= s.start then Missed else NotReady;
      if s.status == next {
        assert rows[id := rows[id].(status := next)] == rows;
        return false;
      }
      BookingsKept(View(), Unopened(id, next));
      changed := TransitionUnopenedRow(id, next);
    }

    /** A work-list query: the ids of the due rows. */
    method FindDueIds(k: Sweep, now: int) returns (ids: seq<nat>)
      ensures IsWorkList(ids, k, now, rows)
    {
      ids := [];
      for i := 0 to |rows|
        invariant forall x :: x in ids <==> 0 <= x < i && Due(k, now, rows[x])
        invariant forall a, b | 0 <= a < b < |ids| :: ids[a] != ids[b]
      {
        if Due(k, now, rows[i]) { ids := ids + [i]; }
      }
    }

    /** One due row of a sweep. */
    method SweepOne(k: Sweep, id: nat, now: int, e: Enrollment) returns (moved: bool)
      requires NoDoubleBooking(rows) && id < |rows| && Due(k, now, rows[id])
      modifies this`rows, this`events, this`opening
      ensures NoDoubleBooking(rows) && opening == old(opening)
      ensures rows == old(rows)[id := SweepRow(k, now, e, old(rows)[id])]
      ensures events == if k == FinalizeDue then old(events) + [Finalized(id, ByTimer)] else old(events)
      ensures moved <==> rows[id].status != old(rows)[id].status
    {
      match k {
        case FinalizeDue =>
          BookingsKept(View(), FinalizeExam(id));
          moved := FinalizeExamSession(id, ByTimer);
        case CollectionDue =>
          BookingsKept(View(), CloseExpired(id, now));
          moved := CompleteExpiredSession(id, now);
        case AutoOpenDue => moved := AdvanceAutoOpen(id, now, e);
      }
    }

    /**
     * One tick of any of the three sweeps with nobody else acting: every due row moves, no other row does, and
     * the finalize sweep publishes one event for each.
     */
    method RunSweep(k: Sweep, now: int, e: Enrollment) returns (changed: nat, ghost ids: seq<nat>)
      requires NoDoubleBooking(rows)
      modifies this`rows, this`events, this`opening
      ensures NoDoubleBooking(rows) && opening == old(opening)
      ensures |rows| == |old(rows)|
      ensures forall i | 0 <= i < |rows| :: rows[i] == SweepRow(k, now, e, old(rows)[i])
      ensures IsWorkList(ids, k, now, old(rows))
      ensures events == if k == FinalizeDue then old(events) + TimerEvents(ids) else old(events)
      ensures changed == Moved(ids, k, now, e, old(rows))
      ensures k != AutoOpenDue ==> changed == |ids|
    {
      var due := FindDueIds(k, now);
      ids, changed := due, 0;
      for i := 0 to |due|
        invariant rows == Swept(due[..i], k, now, e, old(rows)) && NoDoubleBooking(rows) && opening == old(opening)
        invariant events == if k == FinalizeDue then old(events) + TimerEvents(due[..i]) else old(events)
        invariant changed == Moved(due[..i], k, now, e, old(rows))
      {
        SweptSnoc(due, i, k, now, e, old(rows));
        var moved := SweepOne(k, due[i], now, e);
        if moved { changed := changed + 1; }
      }
      assert due[..|due|] == due;
      SweptAll(due, k, now, e, old(rows));
      if k != AutoOpenDue { AllMoved(due, k, now, e, old(rows)); }
    }
  }

  /**
   * What a sweep does to a due row at one moment is a run of one or two steps, the read and the write of an
   * opening being separate ones.
   */
  lemma SweepsAreRuns(db: Db, i: nat, k: Sweep, now: int, e: Enrollment)
    requires NoDoubleBooking(db.rows) && i < |db.rows| && Due(k, now, db.rows[i])
    ensures Leads(db, db.(rows := db.rows[i := SweepRow(k, now, e, db.rows[i])],
                          finalized := if k == FinalizeDue then db.finalized + [i] else db.finalized))
  {
    var s := db.rows[i];
    Stays(db);
    match k
    case FinalizeDue => LeadsOn(db, db, FinalizeExam(i));
    case CollectionDue => LeadsOn(db, db, CloseExpired(i, now));
    case AutoOpenDue =>
      if now >= s.end {
        LeadsOn(db, db, Unopened(i, Missed));
      } else {
        AutoOpeningIsRun(db, i, now, Enrolled(e, s.classId));
      }
  }

  lemma AutoOpeningIsRun(db: Db, i: nat, now: int, students: set<string>)
    requires NoDoubleBooking(db.rows) && i < |db.rows| && IsAwaitingOpen(db.rows[i].status) && now < db.rows[i].end
    ensures Leads(db, db.(rows := db.rows[i := Advance(db.rows[i], now, students)]))
  {
    var s := db.rows[i];
    var read := ReadToOpen(i, s.status, students);
    Stays(db);
    LeadsOn(db, db, read);
    var r := FreezeRead(s, s.status, students);
    if WillWrite(r) {
      ReadThenWrite(db, i, s.status, students, r.value.value);
      LeadsOn(db, Apply(db, read), WriteOpened(i, r.value.value));
    } else {
      ReadOnly(db, i, s.status, students);
      LeadsOn(db, db, Unopened(i, if now >= s.start then Missed else NotReady));
    }
  }

  /** An insert that passed the advisory check fails only on its code. */
  lemma InsertChecks(rows: seq<Session>, row: Session)
    requires HoldsSlot(row.status) && AssertNone(rows, BookingOf(row), None).None?
    ensures Accepts(rows, |rows|, row)
  {
    FindClashFindsEarliest(Room, rows, |rows|, BookingOf(row), None);
    FindClashFindsEarliest(Class, rows, |rows|, BookingOf(row), None);
    FindClashFindsEarliest(Teacher, rows, |rows|, BookingOf(row), None);
    forall i | 0 <= i < |rows| ensures !Clash(rows[i], row) {
      assert !Hit(Room, rows, i, BookingOf(row), None);
      assert !Hit(Class, rows, i, BookingOf(row), None);
      assert !Hit(Teacher, rows, i, BookingOf(row), None);
    }
  }
}

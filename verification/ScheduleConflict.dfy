/** Double booking: the database's exclusion constraints and the advisory check that mirrors them. */
module ScheduleConflict {
  import opened Options
  import opened SessionTypes

  /** `tstzrange(a, b, '[)') && tstzrange(c, d, '[)')`: two half-open ranges share an instant. */
  predicate Overlap(a: int, b: int, c: int, d: int) {
    a < b && c < d && a < d && c < b
  }

  predicate During(t: int, start: int, end: int) { start <= t < end }

  /** Two half-open ranges overlap exactly when some instant lies in both; touching ends do not. */
  lemma OverlapMeansSharedInstant(a: int, b: int, c: int, d: int)
    ensures Overlap(a, b, c, d) <==> exists t :: During(t, a, b) && During(t, c, d)
  {
    if Overlap(a, b, c, d) {
      var t := if a < c then c else a;
      assert During(t, a, b) && During(t, c, d);
    }
  }

  datatype Resource = Room | Class | Teacher

  /** What a booking asks for. */
  datatype Booking = Booking(room: string, classId: string, teacher: string, start: int, end: int)

  function BookingOf(s: Session): Booking { Booking(s.room, s.classId, s.teacher, s.start, s.end) }

  /** A missing class equals none; a teacher's range is widened by the gap at its end, on both sides. */
  predicate Collides(r: Resource, a: Booking, b: Booking) {
    match r
    case Room => a.room == b.room && Overlap(a.start, a.end, b.start, b.end)
    case Class => a.classId != "" && a.classId == b.classId && Overlap(a.start, a.end, b.start, b.end)
    case Teacher =>
      && a.teacher == b.teacher
      && Overlap(a.start, a.end + TEACHER_GAP_MS, b.start, b.end + TEACHER_GAP_MS)
  }

  /** Two rows the exclusion constraints do not allow side by side. */
  predicate Clash(a: Session, b: Session) {
    && HoldsSlot(a.status) && HoldsSlot(b.status)
    && (Collides(Room, BookingOf(a), BookingOf(b)) || Collides(Class, BookingOf(a), BookingOf(b))
        || Collides(Teacher, BookingOf(a), BookingOf(b)))
  }

  /**
   * When two rows exclude each other: both are to be held or under way, and they share room or class and an
   * instant, or a teacher with less than half an hour between them.
   */
  lemma ClashExactly(a: Session, b: Session)
    requires a.start < a.end && b.start < b.end
    ensures Clash(a, b) <==>
            && a.status in {Draft, Scheduled, NotReady, Active} && b.status in {Draft, Scheduled, NotReady, Active}
            && (((a.room == b.room || (a.classId == b.classId && a.classId != ""))
                 && a.start < b.end && b.start < a.end)
                || (a.teacher == b.teacher && a.start < b.end + 1_800_000 && b.start < a.end + 1_800_000))
  {
  }

  /** The gap rule in plain terms: sessions of one teacher leave half an hour between them. */
  lemma TeacherGapMeansHalfAnHour(a: Booking, b: Booking)
    requires a.start < a.end && b.start < b.end && a.teacher == b.teacher
    ensures !Collides(Teacher, a, b) <==> a.end + TEACHER_GAP_MS <= b.start || b.end + TEACHER_GAP_MS <= a.start
  {
  }

  /** The rows a query for `r` selects: still holding a slot, colliding, and not the excluded one. */
  predicate Hit(r: Resource, rows: seq<Session>, i: nat, b: Booking, exclude: Option<nat>)
    requires i < |rows|
  {
    HoldsSlot(rows[i].status) && Collides(r, BookingOf(rows[i]), b) && exclude != Some(i)
  }

  /** `findClash` and `findTeacherGapClash`: the earliest hit (`ORDER BY start_time LIMIT 1`). */
  function FindClash(r: Resource, rows: seq<Session>, n: nat, b: Booking, exclude: Option<nat>): Option<nat>
    requires n <= |rows|
    ensures FindClash(r, rows, n, b, exclude).Some? ==> FindClash(r, rows, n, b, exclude).value < n
  {
    if n == 0 then None
    else
      var best := FindClash(r, rows, n - 1, b, exclude);
      if Hit(r, rows, n - 1, b, exclude) && (best.None? || rows[n - 1].start < rows[best.value].start)
      then Some(n - 1)
      else best
  }

  lemma {:induction false} FindClashFindsEarliest(r: Resource, rows: seq<Session>, n: nat, b: Booking,
                                                        exclude: Option<nat>)
    requires n <= |rows|
    ensures var c := FindClash(r, rows, n, b, exclude);
            && (c.None? <==> forall i | 0 <= i < n :: !Hit(r, rows, i, b, exclude))
            && (c.Some? ==> Hit(r, rows, c.value, b, exclude))
            && (c.Some? ==>
                  forall i | 0 <= i < n && Hit(r, rows, i, b, exclude) :: rows[c.value].start <= rows[i].start)
  {
    if n > 0 { FindClashFindsEarliest(r, rows, n - 1, b, exclude); }
  }

  /** `assertNone`: the clash it reports, room before class before teacher. */
  function AssertNone(rows: seq<Session>, b: Booking, exclude: Option<nat>): Option<(Resource, nat)> {
    var room := FindClash(Room, rows, |rows|, b, exclude);
    var class' := FindClash(Class, rows, |rows|, b, exclude);
    var teacher := FindClash(Teacher, rows, |rows|, b, exclude);
    if room.Some? then Some((Room, room.value))
    else if class'.Some? then Some((Class, class'.value))
    else if teacher.Some? then Some((Teacher, teacher.value))
    else None
  }

  /** The three exclusion constraints on writing `s` at row `id` (`id == |rows|` for an insert). */
  predicate Accepts(rows: seq<Session>, id: nat, s: Session) {
    forall i | 0 <= i < |rows| && i != id :: !Clash(rows[i], s)
  }

  /**
   * The advisory check against the constraints. For a row that holds its slot the check passes if and only if
   * the database would take the row; a row that holds none is always taken, though the check may still refuse
   * it. A reported clash is a real one of the reported kind, it is the earliest of its kind, and a room clash
   * is never hidden behind another.
   */
  lemma AdvisoryMirrorsConstraints(rows: seq<Session>, id: nat, s: Session)
    ensures Accepts(rows, id, s) <==> (!HoldsSlot(s.status) || AssertNone(rows, BookingOf(s), Some(id)).None?)
    ensures AssertNone(rows, BookingOf(s), Some(id)).Some? ==>
              var (r, i) := AssertNone(rows, BookingOf(s), Some(id)).value;
              && i < |rows| && Hit(r, rows, i, BookingOf(s), Some(id))
              && (forall j | 0 <= j < |rows| && Hit(r, rows, j, BookingOf(s), Some(id)) ::
                    rows[i].start <= rows[j].start)
              && (r != Room ==> forall j | 0 <= j < |rows| :: !Hit(Room, rows, j, BookingOf(s), Some(id)))
              && (r == Teacher ==> forall j | 0 <= j < |rows| :: !Hit(Class, rows, j, BookingOf(s), Some(id)))
  {
    var b := BookingOf(s);
    FindClashFindsEarliest(Room, rows, |rows|, b, Some(id));
    FindClashFindsEarliest(Class, rows, |rows|, b, Some(id));
    FindClashFindsEarliest(Teacher, rows, |rows|, b, Some(id));
    assert forall i | 0 <= i < |rows| && i != id && HoldsSlot(s.status) :: Clash(rows[i], s) <==>
      Hit(Room, rows, i, b, Some(id)) || Hit(Class, rows, i, b, Some(id)) || Hit(Teacher, rows, i, b, Some(id));
  }

  /**
   * The check is the stricter of the two exactly for a row that holds no slot where some holder collides: the
   * constraints take the row, the check refuses it.
   */
  lemma StricterExactly(rows: seq<Session>, id: nat, s: Session)
    ensures Accepts(rows, id, s) && AssertNone(rows, BookingOf(s), Some(id)).Some? <==>
            && !HoldsSlot(s.status)
            && exists r: Resource, i: nat :: i < |rows| && Hit(r, rows, i, BookingOf(s), Some(id))
  {
    var b := BookingOf(s);
    AdvisoryMirrorsConstraints(rows, id, s);
    FindClashFindsEarliest(Room, rows, |rows|, b, Some(id));
    FindClashFindsEarliest(Class, rows, |rows|, b, Some(id));
    FindClashFindsEarliest(Teacher, rows, |rows|, b, Some(id));
    if r: Resource, i: nat :| i < |rows| && Hit(r, rows, i, b, Some(id)) {
      assert r == Room || r == Class || r == Teacher;
    }
  }

  /** It does happen: a cancelled session moved onto the room and time of a scheduled one. */
  lemma CheckRefusesFreeRow() returns (rows: seq<Session>, s: Session)
    ensures |rows| == 2 && rows[0].status == Cancelled && rows[0].roster == {} && rows[1].status == Scheduled
    ensures s == rows[0].(room := s.room, start := s.start, end := s.end)
    ensures Accepts(rows, 0, s) && AssertNone(rows, BookingOf(s), Some(0)) == Some((Room, 1))
  {
    var gone := Session("a", "t", "k", "r", 0, 1, Cancelled, None, None, {}, {}, map[]);
    var kept := Session("b", "u", "m", "q", 0, 1, Scheduled, None, None, {}, {}, map[]);
    rows, s := [gone, kept], gone.(room := "q");
    assert Hit(Room, rows, 1, BookingOf(s), Some(0));
    FindClashFindsEarliest(Room, rows, 2, BookingOf(s), Some(0));
    StricterExactly(rows, 0, s);
  }
}

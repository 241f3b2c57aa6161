/** Exam sessions: statuses, rows, and the predicates on them. Times are milliseconds. */
module SessionTypes {
  import opened Options

  datatype Status = Draft | Scheduled | NotReady | Missed | Active | Collecting | Completed | Cancelled

  const AUTO_OPEN_LEAD_MS := 10 * 60 * 1000
  const SUBMISSION_GRACE_PERIOD_MS := 30 * 60 * 1000
  const TEACHER_GAP_MS := 30 * 60 * 1000
  const MIN_EXAM_DURATION_MS := 15 * 60 * 1000
  const MAX_BACKDATE_MS := 30 * 60 * 1000
  const CODE_MAX_ATTEMPTS := 5

  predicate IsExamOver(s: Status) { s == Collecting || s == Completed }

  predicate CanCancel(s: Status) { s == Draft || s == Scheduled || s == NotReady || s == Missed }

  predicate IsAwaitingOpen(s: Status) { s == Scheduled || s == NotReady }

  /** `slotStillHeldSql`: none of the slot-free statuses. */
  predicate HoldsSlot(s: Status) { s != Collecting && s != Completed && s != Cancelled && s != Missed }

  /** A submission row, seeded when the roster freezes: one per student and required file. */
  datatype Seat = NotSubmitted | Absent | Collected

  type SeatKey = (string, string)

  /** `classId` is empty for a session from before sessions had classes. */
  datatype Session = Session(
    code: string, teacher: string, classId: string, room: string,
    start: int, end: int, status: Status,
    completedAt: Option<int>, completedBy: Option<string>,
    deliverables: set<string>, roster: set<string>, seats: map<SeatKey, Seat>)

  /** How far along a session is. Every status change in the system goes up. */
  function Stage(s: Status): nat {
    match s
    case Draft => 0
    case Scheduled => 1
    case NotReady => 2
    case Active => 3
    case Missed => 4
    case Collecting => 4
    case Completed => 5
    case Cancelled => 6
  }

  // ---------- opening ----------

  datatype Refusal = NotFound | Forbidden | BadRequest | Conflict

  datatype Outcome<+T> = Ok(value: T) | Refused(why: Refusal)

  /** A seat for every student and file; existing rows stay as they are. */
  function SeedSeats(seats: map<SeatKey, Seat>, students: set<string>, deliverables: set<string>): map<SeatKey, Seat> {
    var keys := set m, d | m in students && d in deliverables :: (m, d);
    seats + map k | k in keys && k !in seats :: NotSubmitted
  }

  /** What the opening transaction has decided to write: roster rows to add, whose seats to seed, for which files. */
  datatype Opening = Opening(added: set<string>, students: set<string>, files: set<string>)

  /**
   * The reads of `freeze`: refuse, find the session open already, or go on to write. `seen` is the status the
   * caller read before; `enrolled` are the students of the session's class.
   */
  function FreezeRead(s: Session, seen: Status, enrolled: set<string>): Outcome<Option<Opening>> {
    if seen == Missed then Refused(Conflict)
    else if s.classId == "" || s.deliverables == {} then Refused(BadRequest)
    else if s.roster != {} then
      if s.status == Active then Ok(None)
      else if IsAwaitingOpen(s.status) then Ok(Some(Opening({}, s.roster, s.deliverables)))
      else Refused(Conflict)
    else if !IsAwaitingOpen(s.status) then Refused(Conflict)
    else if enrolled == {} then Refused(BadRequest)
    else Ok(Some(Opening(enrolled, enrolled, s.deliverables)))
  }

  predicate WillWrite(read: Outcome<Option<Opening>>) { read.Ok? && read.value.Some? }

  /** The writes of `freeze`. The last of them sets the status of the row whatever it is by then. */
  function OpenedBy(s: Session, o: Opening): Session {
    s.(status := Active, roster := s.roster + o.added, seats := SeedSeats(s.seats, o.students, o.files))
  }

  /** `freeze` when nobody acts between its reads and its writes. */
  function Freeze(s: Session, seen: Status, enrolled: set<string>): Outcome<Session> {
    match FreezeRead(s, seen, enrolled)
    case Refused(why) => Refused(why)
    case Ok(None) => Ok(s)
    case Ok(Some(o)) => Ok(OpenedBy(s, o))
  }

  /**
   * Undisturbed, opening happens exactly from a waiting status with a class, files declared and somebody on the
   * roster or in the class; it leaves a seat for every student and file and never touches a seat that exists.
   */
  lemma FreezeOpensReadySessions(s: Session, seen: Status, enrolled: set<string>)
    ensures (Freeze(s, seen, enrolled).Ok? && s.status != Active) <==>
            && seen != Missed && IsAwaitingOpen(s.status) && s.classId != "" && s.deliverables != {}
            && (s.roster != {} || enrolled != {})
    ensures Freeze(s, seen, enrolled).Ok? ==>
              var t := Freeze(s, seen, enrolled).value;
              && t.status == Active && t.roster != {} && t == s.(status := Active, roster := t.roster, seats := t.seats)
              && t.roster == (if s.roster != {} then s.roster else enrolled)
              && (s.status != Active ==> forall m, d | m in t.roster && d in t.deliverables :: (m, d) in t.seats)
              && (forall k | k in s.seats :: k in t.seats && t.seats[k] == s.seats[k])
              && (forall k | k in t.seats && k !in s.seats ::
                    t.seats[k] == NotSubmitted && k.0 in t.roster && k.1 in t.deliverables)
  {
  }

  /** Why a session does not open: for good once missed or past waiting, for now while something is not prepared. */
  lemma FreezeRefusesExactly(s: Session, seen: Status, enrolled: set<string>)
    ensures var r, prepared := Freeze(s, seen, enrolled), s.classId != "" && s.deliverables != {};
            var waits := s.status in {Scheduled, NotReady};
            && (r == Refused(Conflict) <==>
                  seen == Missed || (prepared && !waits && (s.status != Active || s.roster == {})))
            && (r == Refused(BadRequest) <==>
                  seen != Missed && (!prepared || (waits && s.roster == {} && enrolled == {})))
            && r != Refused(NotFound) && r != Refused(Forbidden)
            && (r.Ok? && s.status == Active ==> r.value == s)
  {
  }

  // ---------- collecting ----------

  /** The `WHERE` clause of `confirmEnd`. */
  predicate ConfirmMatches(s: Session, now: int) {
    || s.status == Collecting
    || (s.status == Completed && s.completedBy.None? && now <= s.end + SUBMISSION_GRACE_PERIOD_MS)
  }

  function MarkAbsentees(seats: map<SeatKey, Seat>): map<SeatKey, Seat> {
    map k | k in seats :: if seats[k] == NotSubmitted then Absent else seats[k]
  }

  function Confirm(s: Session, teacher: string, now: int): Session {
    if ConfirmMatches(s, now) then
      s.(status := Completed, completedAt := Some(now), completedBy := Some(teacher), seats := MarkAbsentees(s.seats))
    else s
  }

  /**
   * Who signs, when, and what it changes: a collecting session, or for half an hour after its end one the backup
   * sweep has closed, gets the teacher's name and the moment; nothing but the seats changes beside that.
   */
  lemma ConfirmExactly(s: Session, teacher: string, now: int)
    ensures Confirm(s, teacher, now) ==
            if s.status == Collecting || (s.status == Completed && s.completedBy == None && now <= s.end + 1_800_000)
            then s.(status := Completed, completedBy := Some(teacher), completedAt := Some(now),
                    seats := MarkAbsentees(s.seats))
            else s
  {
  }

  /** The backup sweep closes without a name, so it concludes nothing about students. */
  function CompleteExpired(s: Session, now: int): Session {
    if s.status == Collecting then s.(status := Completed, completedAt := Some(now)) else s
  }

  function Finalize(s: Session): Session {
    if s.status == Active then s.(status := Collecting) else s
  }

  function TransitionUnopened(s: Session, to: Status): Session {
    if IsAwaitingOpen(s.status) then s.(status := to) else s
  }

  /** Signing concludes absence for exactly the seats without a submission and touches no other seat. */
  lemma AbsenteesAreTheMissing(s: Session, teacher: string, now: int)
    ensures var t := Confirm(s, teacher, now);
            && t.seats.Keys == s.seats.Keys
            && (forall k | k in s.seats && s.seats[k] != NotSubmitted :: t.seats[k] == s.seats[k])
            && (forall k | k in s.seats && s.seats[k] == NotSubmitted ::
                  t.seats[k] == if ConfirmMatches(s, now) then Absent else NotSubmitted)
  {
  }

  ghost predicate SameVerdict(a: Session, b: Session) {
    a.status == b.status && a.completedBy == b.completedBy && a.seats == b.seats
  }

  /**
   * The race at the deadline. From a collecting session the teacher's confirmation and the backup sweep reach
   * the same verdict in either order exactly when the confirmation falls within the grace period; then the
   * session is signed and nobody is left unconcluded.
   */
  lemma DeadlineRace(s: Session, teacher: string, confirmAt: int, sweepAt: int)
    requires s.status == Collecting && s.completedBy == None
    ensures var teacherFirst := CompleteExpired(Confirm(s, teacher, confirmAt), sweepAt);
            var sweepFirst := Confirm(CompleteExpired(s, sweepAt), teacher, confirmAt);
            && (SameVerdict(teacherFirst, sweepFirst) <==> confirmAt <= s.end + SUBMISSION_GRACE_PERIOD_MS)
            && teacherFirst.status == sweepFirst.status == Completed
            && teacherFirst.completedBy == Some(teacher)
            && (forall k | k in teacherFirst.seats :: teacherFirst.seats[k] != NotSubmitted)
            && (confirmAt > s.end + SUBMISSION_GRACE_PERIOD_MS ==> sweepFirst == CompleteExpired(s, sweepAt))
  {
  }
}

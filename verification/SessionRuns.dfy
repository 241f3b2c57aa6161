/**
 * Whole runs over the session table. A guarded update, with what its transaction writes beside it, is one atomic
 * step; opening a session, which reads without a lock and later sets the status unconditionally, is two. The
 * sweeps and the teachers' requests interleave in any order, each possibly acting on what it read long before.
 */
module SessionRuns {
  import opened Options
  import opened SessionTypes
  import opened ScheduleConflict

  /**
   * Row numbers stand for primary keys. `opening` holds the opening transactions that have read but not yet
   * written; `finalized` and `signed` record what happened, in order.
   */
  datatype Db = Db(rows: seq<Session>, opening: multiset<(nat, Opening)>, finalized: seq<nat>, signed: seq<nat>)

  const EMPTY := Db([], multiset{}, [], [])

  datatype Action =
    | Insert(row: Session)
    | WriteSchedule(id: nat, room: string, start: int, end: int)
    | WriteCancelled(id: nat)
    | ReadToOpen(id: nat, seen: Status, enrolled: set<string>)
    | WriteOpened(id: nat, o: Opening)
    | Unopened(id: nat, to: Status)
    | FinalizeExam(id: nat)
    | ConfirmEnd(id: nat, teacher: string, now: int)
    | CloseExpired(id: nat, now: int)
    | EditPapers(id: nat, deliverables: set<string>, roster: set<string>, seats: map<SeatKey, Seat>)

  /** A row as `create` writes it. */
  predicate IsNew(s: Session) {
    && s.status == Scheduled && s.completedAt == None && s.completedBy == None
    && s.roster == {} && s.seats == map[]
  }

  predicate CodeIsFree(rows: seq<Session>, code: string) { forall i | 0 <= i < |rows| :: rows[i].code != code }

  /** Other services may edit rosters, files and submissions, but none of them concludes an absence. */
  predicate NoNewAbsence(before: map<SeatKey, Seat>, after: map<SeatKey, Seat>) {
    forall k | k in after && after[k] == Absent :: k in before && before[k] == Absent
  }

  /**
   * The opening transaction commits unless a roster row it adds exists by now or the row, holding its slot from
   * now on, would clash with another. No status stands in its way.
   */
  predicate Commits(rows: seq<Session>, id: nat, o: Opening)
    requires id < |rows|
  {
    o.added !! rows[id].roster && Accepts(rows, id, OpenedBy(rows[id], o))
  }

  /** The row after a statement that reached it; a statement whose `WHERE` fails leaves it alone. */
  function RowAfter(rows: seq<Session>, a: Action): Session
    requires !a.Insert? && a.id < |rows|
  {
    var s := rows[a.id];
    match a
    case WriteSchedule(_, room, start, end) =>
      var t := s.(room := room, start := start, end := end);
      if start < end && Accepts(rows, a.id, t) then t else s
    case WriteCancelled(_) => s.(status := Cancelled)
    case ReadToOpen(_, _, _) => s
    case WriteOpened(_, o) => if Commits(rows, a.id, o) then OpenedBy(s, o) else s
    case Unopened(_, to) => if to == NotReady || to == Missed then TransitionUnopened(s, to) else s
    case FinalizeExam(_) => Finalize(s)
    case ConfirmEnd(_, teacher, now) => Confirm(s, teacher, now)
    case CloseExpired(_, now) => CompleteExpired(s, now)
    case EditPapers(_, deliverables, roster, seats) =>
      if NoNewAbsence(s.seats, seats) then s.(deliverables := deliverables, roster := roster, seats := seats) else s
  }

  /** The opening transactions under way after a step. */
  function OpeningAfter(db: Db, a: Action): multiset<(nat, Opening)>
    requires !a.Insert? && a.id < |db.rows|
  {
    match a
    case ReadToOpen(id, seen, enrolled) =>
      var r := FreezeRead(db.rows[id], seen, enrolled);
      if WillWrite(r) then db.opening + multiset{(id, r.value.value)} else db.opening
    case WriteOpened(id, o) => db.opening - multiset{(id, o)}
    case _ => db.opening
  }

  /** A statement that finds its row, an opening write also its own earlier read. */
  predicate Reaches(db: Db, a: Action) {
    !a.Insert? && a.id < |db.rows| && (a.WriteOpened? ==> (a.id, a.o) in db.opening)
  }

  function Apply(db: Db, a: Action): Db {
    if a.Insert? then
      if && IsNew(a.row) && a.row.start < a.row.end
         && CodeIsFree(db.rows, a.row.code) && Accepts(db.rows, |db.rows|, a.row)
      then db.(rows := db.rows + [a.row]) else db
    else if !Reaches(db, a) then db
    else
      Db(db.rows[a.id := RowAfter(db.rows, a)],
         OpeningAfter(db, a),
         if Finalizes(db, a) then db.finalized + [a.id] else db.finalized,
         if Signs(db, a) then db.signed + [a.id] else db.signed)
  }

  predicate Finalizes(db: Db, a: Action) {
    a.FinalizeExam? && a.id < |db.rows| && db.rows[a.id].status == Active
  }

  predicate Signs(db: Db, a: Action) {
    a.ConfirmEnd? && a.id < |db.rows| && ConfirmMatches(db.rows[a.id], a.now)
  }

  /** An opening write that takes effect. */
  predicate Opens(db: Db, a: Action) {
    a.WriteOpened? && Reaches(db, a) && Commits(db.rows, a.id, a.o)
  }

  /**
   * When an opening write takes effect: its read is on record, nobody it adds is on the roster by now, and the row,
   * open from now on, clashes with no other. What the row's status has become since does not matter.
   */
  lemma OpensExactly(db: Db, id: nat, o: Opening)
    ensures Opens(db, WriteOpened(id, o)) <==>
            && id < |db.rows| && (id, o) in db.opening
            && (forall m | m in o.added :: m !in db.rows[id].roster)
            && (forall i | 0 <= i < |db.rows| && i != id :: !Clash(db.rows[i], db.rows[id].(status := Active)))
    ensures Opens(db, WriteOpened(id, o)) ==> Apply(db, WriteOpened(id, o)).rows[id].status == Active
  {
    if id < |db.rows| {
      forall i | 0 <= i < |db.rows|
        ensures Clash(db.rows[i], OpenedBy(db.rows[id], o)) <==> Clash(db.rows[i], db.rows[id].(status := Active))
      {
      }
    }
  }

  function Run(db: Db, actions: seq<Action>): Db {
    if actions == [] then db else Apply(Run(db, actions[..|actions| - 1]), actions[|actions| - 1])
  }

  function Count(log: seq<nat>, id: nat): nat {
    if log == [] then 0 else Count(log[..|log| - 1], id) + (if log[|log| - 1] == id then 1 else 0)
  }

  // ---------- what holds in every reachable state ----------

  ghost predicate NoDoubleBooking(rows: seq<Session>) {
    forall i, j | 0 <= i < j < |rows| :: !Clash(rows[i], rows[j])
  }

  ghost predicate CodesDistinct(rows: seq<Session>) {
    forall i, j | 0 <= i < j < |rows| :: rows[i].code != rows[j].code
  }

  /** What no step can break: nobody is absent without a signature, and no signature goes unrecorded. */
  ghost predicate RowSound(s: Session, finalized: nat, signed: nat) {
    && s.start < s.end && s.status != Draft
    && (s.completedBy.Some? ==> s.completedAt.Some?)
    && (s.status == Completed ==> s.completedAt.Some?)
    && (forall k | k in s.seats && s.seats[k] == Absent :: s.completedBy.Some?)
    && (signed == 0 <==> s.completedBy.None?)
    && (IsExamOver(s.status) || s.completedAt.Some? ==> finalized >= 1)
  }

  /** In addition: an unsigned collecting phase, one signature and one `exam:finalize` at most, and in this order. */
  ghost predicate RowOk(s: Session, finalized: nat, signed: nat) {
    && RowSound(s, finalized, signed)
    && (s.completedAt.Some? ==> s.status == Completed || s.status == Cancelled)
    && signed <= 1 && finalized <= 1
    && (!IsExamOver(s.status) && s.status != Cancelled ==> finalized == 0)
  }

  ghost predicate RowSoundAt(db: Db, i: nat)
    requires i < |db.rows|
  {
    RowSound(db.rows[i], Count(db.finalized, i), Count(db.signed, i))
  }

  ghost predicate RowOkAt(db: Db, i: nat)
    requires i < |db.rows|
  {
    RowOk(db.rows[i], Count(db.finalized, i), Count(db.signed, i))
  }

  ghost predicate LogsKnown(db: Db) {
    forall i | i >= |db.rows| :: Count(db.finalized, i) == 0 && Count(db.signed, i) == 0
  }

  ghost predicate Sound(db: Db) {
    && NoDoubleBooking(db.rows) && CodesDistinct(db.rows) && LogsKnown(db)
    && forall i: nat | i < |db.rows| :: RowSoundAt(db, i)
  }

  ghost predicate RowsOk(db: Db) {
    forall i: nat | i < |db.rows| :: RowOkAt(db, i)
  }

  ghost predicate Inv(db: Db) { Sound(db) && RowsOk(db) }

  /** The opening write lands on a session whose exam was finalized after the read. */
  ghost predicate Reopens(db: Db, a: Action) { Opens(db, a) && Count(db.finalized, a.id) > 0 }

  lemma CountAppend(log: seq<nat>, x: nat, id: nat)
    ensures Count(log + [x], id) == Count(log, id) + (if x == id then 1 else 0)
  {
    assert (log + [x])[..|log|] == log;
  }

  lemma ClashSymmetric(a: Session, b: Session)
    ensures Clash(a, b) == Clash(b, a)
  {
  }

  /** A row whose status moved on, or whose schedule or opening was checked, clashes with nobody new. */
  lemma RowFits(db: Db, a: Action, i: nat)
    requires NoDoubleBooking(db.rows) && Reaches(db, a) && i < |db.rows| && i != a.id
    ensures !Clash(db.rows[i], RowAfter(db.rows, a))
  {
    var s, t := db.rows[a.id], RowAfter(db.rows, a);
    assert !Clash(db.rows[i], s) by {
      ClashSymmetric(db.rows[i], s);
      assert if i < a.id then !Clash(db.rows[i], s) else !Clash(s, db.rows[i]);
    }
  }

  lemma ReplacedFits(rows: seq<Session>, id: nat, t: Session)
    requires NoDoubleBooking(rows) && id < |rows| && forall i: nat | i < |rows| && i != id :: !Clash(rows[i], t)
    ensures NoDoubleBooking(rows[id := t])
  {
    var rows' := rows[id := t];
    forall i, j | 0 <= i < j < |rows'| ensures !Clash(rows'[i], rows'[j]) {
      ClashSymmetric(t, rows[j]);
    }
  }

  lemma BookingsKept(db: Db, a: Action)
    requires NoDoubleBooking(db.rows)
    ensures NoDoubleBooking(Apply(db, a).rows)
  {
    if Reaches(db, a) {
      forall i: nat | i < |db.rows| && i != a.id ensures !Clash(db.rows[i], RowAfter(db.rows, a)) { RowFits(db, a, i); }
      ReplacedFits(db.rows, a.id, RowAfter(db.rows, a));
    }
  }

  /** Counts of a row's log entries after a step on it. */
  function CountsAfter(db: Db, a: Action, i: nat): (nat, nat) {
    (Count(db.finalized, i) + (if Finalizes(db, a) && a.id == i then 1 else 0),
     Count(db.signed, i) + (if Signs(db, a) && a.id == i then 1 else 0))
  }

  lemma FinalizedGrows(db: Db, a: Action, i: nat)
    ensures Count(Apply(db, a).finalized, i) == CountsAfter(db, a, i).0
  {
    if Finalizes(db, a) { CountAppend(db.finalized, a.id, i); }
  }

  lemma SignedGrows(db: Db, a: Action, i: nat)
    ensures Count(Apply(db, a).signed, i) == CountsAfter(db, a, i).1
  {
    if Signs(db, a) { CountAppend(db.signed, a.id, i); }
  }

  lemma LogsGrow(db: Db, a: Action, i: nat)
    ensures (Count(Apply(db, a).finalized, i), Count(Apply(db, a).signed, i)) == CountsAfter(db, a, i)
  {
    FinalizedGrows(db, a, i);
    SignedGrows(db, a, i);
  }

  lemma LogsKept(db: Db, a: Action)
    requires LogsKnown(db)
    ensures LogsKnown(Apply(db, a))
  {
    forall i: nat { LogsGrow(db, a, i); }
  }

  lemma CodesKept(db: Db, a: Action)
    requires CodesDistinct(db.rows)
    ensures CodesDistinct(Apply(db, a).rows)
  {
  }

  /** No step but a signature marks anybody absent. */
  lemma AbsencesKept(rows: seq<Session>, a: Action, k: SeatKey)
    requires !a.Insert? && !a.ConfirmEnd? && a.id < |rows|
    requires k in RowAfter(rows, a).seats && RowAfter(rows, a).seats[k] == Absent
    ensures k in rows[a.id].seats && rows[a.id].seats[k] == Absent
  {
  }

  lemma RowStaysSound(db: Db, a: Action)
    requires Reaches(db, a) && RowSoundAt(db, a.id)
    ensures RowSound(RowAfter(db.rows, a), CountsAfter(db, a, a.id).0, CountsAfter(db, a, a.id).1)
  {
    var t := RowAfter(db.rows, a);
    forall k | k in t.seats && t.seats[k] == Absent ensures t.completedBy.Some? {
      if !a.ConfirmEnd? { AbsencesKept(db.rows, a, k); }
    }
  }

  /** A step keeps a row in order exactly when it is not an opening write on a finalized session. */
  lemma RowStaysOk(db: Db, a: Action)
    requires Reaches(db, a) && RowOkAt(db, a.id)
    ensures RowOk(RowAfter(db.rows, a), CountsAfter(db, a, a.id).0, CountsAfter(db, a, a.id).1) <==> !Reopens(db, a)
  {
    RowStaysSound(db, a);
  }

  lemma RowSoundAfter(db: Db, a: Action, i: nat)
    requires Sound(db) && i < |Apply(db, a).rows|
    ensures RowSoundAt(Apply(db, a), i)
  {
    LogsGrow(db, a, i);
    assert i < |db.rows| ==> RowSoundAt(db, i);
    if Reaches(db, a) && a.id == i { RowStaysSound(db, a); }
  }

  /** Whoever acts, and however late: no double booking, distinct codes, no absence without a signature. */
  lemma StepKeepsSound(db: Db, a: Action)
    requires Sound(db)
    ensures Sound(Apply(db, a))
  {
    BookingsKept(db, a);
    CodesKept(db, a);
    LogsKept(db, a);
    forall i: nat | i < |Apply(db, a).rows| ensures RowSoundAt(Apply(db, a), i) { RowSoundAfter(db, a, i); }
  }

  lemma {:induction false} EveryRunIsSound(actions: seq<Action>)
    ensures Sound(Run(EMPTY, actions))
  {
    if actions != [] {
      EveryRunIsSound(actions[..|actions| - 1]);
      StepKeepsSound(Run(EMPTY, actions[..|actions| - 1]), actions[|actions| - 1]);
    }
  }

  lemma RowOkAfter(db: Db, a: Action, i: nat)
    requires Inv(db) && i < |Apply(db, a).rows| && !Reopens(db, a)
    ensures RowOkAt(Apply(db, a), i)
  {
    LogsGrow(db, a, i);
    assert i < |db.rows| ==> RowOkAt(db, i);
    if Reaches(db, a) && a.id == i { RowStaysOk(db, a); }
  }

  /** A step keeps the whole invariant exactly when it is not an opening write on a finalized session. */
  lemma StepKeepsInv(db: Db, a: Action)
    requires Inv(db)
    ensures Inv(Apply(db, a)) <==> !Reopens(db, a)
  {
    StepKeepsSound(db, a);
    if Reopens(db, a) {
      assert RowOkAt(db, a.id);
      RowStaysOk(db, a);
      LogsGrow(db, a, a.id);
      assert !RowOkAt(Apply(db, a), a.id);
    } else {
      forall i: nat | i < |Apply(db, a).rows| ensures RowOkAt(Apply(db, a), i) { RowOkAfter(db, a, i); }
    }
  }

  /** The state of a run after its first `k` steps. */
  function At(actions: seq<Action>, k: nat): Db
    requires k <= |actions|
  {
    Run(EMPTY, actions[..k])
  }

  lemma AtNext(actions: seq<Action>, k: nat)
    requires k < |actions|
    ensures At(actions, k + 1) == Apply(At(actions, k), actions[k])
  {
    assert actions[..k + 1][..k] == actions[..k];
  }

  ghost predicate NeverReopens(actions: seq<Action>) {
    forall k: nat | k < |actions| :: !Reopens(At(actions, k), actions[k])
  }

  ghost predicate InvThroughout(actions: seq<Action>) {
    forall k: nat | k <= |actions| :: Inv(At(actions, k))
  }

  /**
   * Safety over every run. The whole invariant holds throughout (a signature and the conclusion of absences come
   * together, at most once; collecting is unsigned; a session is finalized at most once, exactly once when it
   * reached collecting, and never while it is still to be held or under way) if and only if no opening write
   * lands on a session finalized since its read.
   */
  lemma EveryRunIsSafe(actions: seq<Action>)
    ensures InvThroughout(actions) <==> NeverReopens(actions)
  {
    if NeverReopens(actions) {
      forall k: nat | k <= |actions| ensures Inv(At(actions, k)) { SafeUpTo(actions, k); }
    } else {
      var k: nat :| k < |actions| && Reopens(At(actions, k), actions[k]);
      if Inv(At(actions, k)) {
        StepKeepsInv(At(actions, k), actions[k]);
        AtNext(actions, k);
        assert !Inv(At(actions, k + 1));
      }
    }
  }

  lemma {:induction false} SafeUpTo(actions: seq<Action>, k: nat)
    requires k <= |actions| && NeverReopens(actions)
    ensures Inv(At(actions, k))
  {
    if k > 0 {
      SafeUpTo(actions, k - 1);
      StepKeepsInv(At(actions, k - 1), actions[k - 1]);
      AtNext(actions, k - 1);
    }
  }

  /**
   * What such a write leads to: a further finalize goes out a second time, and from there another confirmation
   * signs the session, over an earlier signature if there was one.
   */
  lemma ReopenedIsFinalizedAgain(db: Db, a: Action, teacher: string, now: int)
    requires Inv(db) && Reopens(db, a)
    ensures var again := Apply(Apply(db, a), FinalizeExam(a.id));
            && Count(again.finalized, a.id) == 2 && again.rows[a.id].status == Collecting
            && Apply(again, ConfirmEnd(a.id, teacher, now)).rows[a.id].completedBy == Some(teacher)
            && Count(Apply(again, ConfirmEnd(a.id, teacher, now)).signed, a.id) == Count(db.signed, a.id) + 1
  {
    assert RowOkAt(db, a.id);
    ReopenedIsActive(db, a);
    FinalizeActive(Apply(db, a), a.id);
    ConfirmCollecting(Apply(Apply(db, a), FinalizeExam(a.id)), a.id, teacher, now);
  }

  lemma ReopenedIsActive(db: Db, a: Action)
    requires Opens(db, a)
    ensures |Apply(db, a).rows| == |db.rows| && Apply(db, a).rows[a.id].status == Active
    ensures Apply(db, a).finalized == db.finalized && Apply(db, a).signed == db.signed
  {
  }

  lemma FinalizeActiveIs(db: Db, id: nat)
    requires id < |db.rows| && db.rows[id].status == Active
    ensures Apply(db, FinalizeExam(id)) ==
            db.(rows := db.rows[id := Finalize(db.rows[id])], finalized := db.finalized + [id])
  {
  }

  lemma FinalizeActive(db: Db, id: nat)
    requires id < |db.rows| && db.rows[id].status == Active
    ensures var after := Apply(db, FinalizeExam(id));
            && |after.rows| == |db.rows| && after.rows[id].status == Collecting && after.signed == db.signed
            && Count(after.finalized, id) == Count(db.finalized, id) + 1
  {
    FinalizeActiveIs(db, id);
    CountAppend(db.finalized, id, id);
  }

  lemma ConfirmCollectingIs(db: Db, id: nat, teacher: string, now: int)
    requires id < |db.rows| && db.rows[id].status == Collecting
    ensures Apply(db, ConfirmEnd(id, teacher, now)) ==
            db.(rows := db.rows[id := Confirm(db.rows[id], teacher, now)], signed := db.signed + [id])
  {
  }

  lemma ConfirmCollecting(db: Db, id: nat, teacher: string, now: int)
    requires id < |db.rows| && db.rows[id].status == Collecting
    ensures var after := Apply(db, ConfirmEnd(id, teacher, now));
            && |after.rows| == |db.rows| && after.rows[id].completedBy == Some(teacher)
            && Count(after.signed, id) == Count(db.signed, id) + 1
  {
    ConfirmCollectingIs(db, id, teacher, now);
    CountAppend(db.signed, id, id);
  }

  // ---------- the exact condition for each of the two ----------

  /** Finalizing any session now would not make it the second time. */
  ghost predicate FinalizesOnce(db: Db) {
    forall id: nat :: Count(Apply(db, FinalizeExam(id)).finalized, id) <= 1
  }

  ghost predicate FinalizesOnceThroughout(actions: seq<Action>) {
    forall k: nat | k <= |actions| :: FinalizesOnce(At(actions, k))
  }

  lemma InOrderFinalizesOnce(db: Db)
    requires Inv(db)
    ensures FinalizesOnce(db)
  {
    forall id: nat ensures Count(Apply(db, FinalizeExam(id)).finalized, id) <= 1 {
      LogsGrow(db, FinalizeExam(id), id);
      if id < |db.rows| { assert RowOkAt(db, id); }
    }
  }

  /**
   * `exam:finalize` goes out at most once per session, wherever the run is stopped and continued with one more
   * finalize, if and only if no opening write of the run lands on a session already finalized.
   */
  lemma FinalizedOnceExactly(actions: seq<Action>)
    ensures FinalizesOnceThroughout(actions) <==> NeverReopens(actions)
  {
    if NeverReopens(actions) {
      forall k: nat | k <= |actions| ensures FinalizesOnce(At(actions, k)) {
        SafeUpTo(actions, k);
        InOrderFinalizesOnce(At(actions, k));
      }
    } else {
      var k: nat :| k < |actions| && Reopens(At(actions, k), actions[k]);
      var id := actions[k].id;
      ReopenedIsActive(At(actions, k), actions[k]);
      AtNext(actions, k);
      FinalizeActive(At(actions, k + 1), id);
      assert !FinalizesOnce(At(actions, k + 1));
    }
  }

  /** The opening write lands on a session somebody has signed. */
  ghost predicate ReopensSigned(db: Db, a: Action) { Opens(db, a) && Count(db.signed, a.id) > 0 }

  ghost predicate NeverReopensSigned(actions: seq<Action>) {
    forall k: nat | k < |actions| :: !ReopensSigned(At(actions, k), actions[k])
  }

  /** The session finalized, if it is active, and its end confirmed. */
  function Closed(db: Db, id: nat, teacher: string, now: int): Db {
    Apply(Apply(db, FinalizeExam(id)), ConfirmEnd(id, teacher, now))
  }

  /** Closing any session now would not make it the second signature. */
  ghost predicate SignsOnce(db: Db) {
    forall id: nat, teacher, now :: Count(Closed(db, id, teacher, now).signed, id) <= 1
  }

  ghost predicate SignsOnceThroughout(actions: seq<Action>) {
    forall k: nat | k <= |actions| :: SignsOnce(At(actions, k))
  }

  /** A signed session is over for good, or cancelled. */
  ghost predicate SignedIsOver(s: Session, signed: nat) {
    && signed <= 1 && (signed == 1 <==> s.completedBy.Some?)
    && (s.completedBy.Some? ==> s.status == Completed || s.status == Cancelled)
  }

  ghost predicate SignaturesOk(db: Db) {
    && (forall i: nat | i < |db.rows| :: SignedIsOver(db.rows[i], Count(db.signed, i)))
    && (forall i: nat | i >= |db.rows| :: Count(db.signed, i) == 0)
  }

  lemma RowStaysSigned(db: Db, a: Action)
    requires Reaches(db, a) && !ReopensSigned(db, a) && SignedIsOver(db.rows[a.id], Count(db.signed, a.id))
    ensures SignedIsOver(RowAfter(db.rows, a), CountsAfter(db, a, a.id).1)
  {
  }

  lemma SignaturesAfter(db: Db, a: Action, i: nat)
    requires SignaturesOk(db) && !ReopensSigned(db, a)
    ensures var after := Apply(db, a);
            if i < |after.rows| then SignedIsOver(after.rows[i], Count(after.signed, i))
            else Count(after.signed, i) == 0
  {
    LogsGrow(db, a, i);
    assert i < |db.rows| ==> SignedIsOver(db.rows[i], Count(db.signed, i));
    if Reaches(db, a) && a.id == i { RowStaysSigned(db, a); }
  }

  lemma StepKeepsSignatures(db: Db, a: Action)
    requires SignaturesOk(db) && !ReopensSigned(db, a)
    ensures SignaturesOk(Apply(db, a))
  {
    forall i: nat { SignaturesAfter(db, a, i); }
  }

  lemma {:induction false} SignaturesUpTo(actions: seq<Action>, k: nat)
    requires k <= |actions| && NeverReopensSigned(actions)
    ensures SignaturesOk(At(actions, k))
  {
    if k > 0 {
      SignaturesUpTo(actions, k - 1);
      StepKeepsSignatures(At(actions, k - 1), actions[k - 1]);
      AtNext(actions, k - 1);
    }
  }

  lemma ClosedIsSignedOnce(db: Db, id: nat, teacher: string, now: int)
    requires SignaturesOk(db)
    ensures Count(Closed(db, id, teacher, now).signed, id) <= 1
  {
    StepKeepsSignatures(db, FinalizeExam(id));
    StepKeepsSignatures(Apply(db, FinalizeExam(id)), ConfirmEnd(id, teacher, now));
    var after := Closed(db, id, teacher, now);
    if id < |after.rows| { assert SignedIsOver(after.rows[id], Count(after.signed, id)); }
  }

  lemma SignedAgain(db: Db, a: Action, teacher: string, now: int)
    requires ReopensSigned(db, a)
    ensures Count(Closed(Apply(db, a), a.id, teacher, now).signed, a.id) > 1
  {
    ReopenedIsActive(db, a);
    FinalizeActive(Apply(db, a), a.id);
    ConfirmCollecting(Apply(Apply(db, a), FinalizeExam(a.id)), a.id, teacher, now);
  }

  /**
   * A session is signed at most once, wherever the run is stopped and continued with one more finalize and
   * confirmation, if and only if no opening write of the run lands on a session already signed.
   */
  lemma SignedOnceExactly(actions: seq<Action>)
    ensures SignsOnceThroughout(actions) <==> NeverReopensSigned(actions)
  {
    if NeverReopensSigned(actions) {
      forall k: nat | k <= |actions| ensures SignsOnce(At(actions, k)) {
        SignaturesUpTo(actions, k);
        forall id: nat, teacher, now { ClosedIsSignedOnce(At(actions, k), id, teacher, now); }
      }
    } else {
      var k: nat :| k < |actions| && ReopensSigned(At(actions, k), actions[k]);
      SignedAgain(At(actions, k), actions[k], "", 0);
      AtNext(actions, k);
      assert !SignsOnce(At(actions, k + 1));
    }
  }

  // ---------- what never changes back ----------

  ghost predicate RowFollows(s: Session, t: Session) {
    && (s.status == t.status || Stage(s.status) < Stage(t.status))
    && (s.completedBy.Some? ==> t.completedBy == s.completedBy && t.completedAt == s.completedAt)
    && s.code == t.code && s.teacher == t.teacher && s.classId == t.classId
  }

  ghost predicate Follows(db: Db, db': Db) {
    && |db.rows| <= |db'.rows|
    && (forall i | 0 <= i < |db.rows| :: RowFollows(db.rows[i], db'.rows[i]))
    && db.finalized <= db'.finalized && db.signed <= db'.signed
  }

  /** An opening write takes effect only on a row still waiting to open, or opened by another. */
  ghost predicate Timely(db: Db, a: Action) {
    Opens(db, a) ==> IsAwaitingOpen(db.rows[a.id].status) || db.rows[a.id].status == Active
  }

  ghost predicate AllTimely(actions: seq<Action>) {
    forall k: nat | k < |actions| :: Timely(At(actions, k), actions[k])
  }

  lemma RowStepFollows(db: Db, a: Action)
    requires Reaches(db, a) && RowOkAt(db, a.id)
    ensures RowFollows(db.rows[a.id], RowAfter(db.rows, a)) <==> Timely(db, a)
  {
  }

  /** A step keeps the order of things exactly when it is a timely one. */
  lemma StepFollows(db: Db, a: Action)
    requires Inv(db)
    ensures Follows(db, Apply(db, a)) <==> Timely(db, a)
  {
    if Reaches(db, a) {
      assert RowOkAt(db, a.id);
      RowStepFollows(db, a);
    }
  }

  /** A late opening write that lands takes back a slot that had been released. */
  lemma LateOpeningTakesSlotBack(db: Db, a: Action)
    requires Inv(db) && !Timely(db, a)
    ensures !HoldsSlot(db.rows[a.id].status) && HoldsSlot(Apply(db, a).rows[a.id].status)
  {
    assert RowOkAt(db, a.id);
  }

  lemma TimelyNeverReopens(db: Db, a: Action)
    requires Inv(db) && Timely(db, a)
    ensures !Reopens(db, a)
  {
    if Opens(db, a) { assert RowOkAt(db, a.id); }
  }

  lemma {:induction false} TimelyIsSafe(actions: seq<Action>, k: nat)
    requires k <= |actions| && forall m: nat | m < k :: Timely(At(actions, m), actions[m])
    ensures Inv(At(actions, k))
  {
    if k > 0 {
      TimelyIsSafe(actions, k - 1);
      TimelyNeverReopens(At(actions, k - 1), actions[k - 1]);
      StepKeepsInv(At(actions, k - 1), actions[k - 1]);
      AtNext(actions, k - 1);
    }
  }

  lemma NextFollows(actions: seq<Action>, k: nat)
    requires k < |actions| && AllTimely(actions)
    ensures Follows(At(actions, k), At(actions, k + 1))
  {
    TimelyIsSafe(actions, k);
    StepFollows(At(actions, k), actions[k]);
    AtNext(actions, k);
  }

  lemma FollowsOn(a: Db, b: Db, c: Db)
    requires Follows(a, b) && Follows(b, c)
    ensures Follows(a, c)
  {
    forall i | 0 <= i < |a.rows| ensures RowFollows(a.rows[i], c.rows[i]) {
      assert RowFollows(a.rows[i], b.rows[i]) && RowFollows(b.rows[i], c.rows[i]);
    }
  }

  lemma FollowsSelf(db: Db)
    ensures Follows(db, db)
  {
  }

  lemma {:induction false} LaterFollows(states: seq<Db>, k: nat, l: nat)
    requires k <= l < |states| && forall m, n :: 0 <= m && n == m + 1 < |states| ==> Follows(states[m], states[n])
    ensures Follows(states[k], states[l])
  {
    if k < l {
      LaterFollows(states, k, l - 1);
      FollowsOn(states[k], states[l - 1], states[l]);
    } else {
      FollowsSelf(states[k]);
    }
  }

  /** All states of a run, from the empty table to the last. */
  function States(actions: seq<Action>): seq<Db> {
    seq(|actions| + 1, k requires 0 <= k <= |actions| => At(actions, k))
  }

  lemma TimelyKeepsOrder(actions: seq<Action>, k: nat, l: nat)
    requires AllTimely(actions) && k <= l <= |actions|
    ensures FollowsAt(actions, k, l)
  {
    forall m, n | 0 <= m && n == m + 1 < |States(actions)| ensures Follows(States(actions)[m], States(actions)[n]) {
      NextFollows(actions, m);
    }
    LaterFollows(States(actions), k, l);
  }

  ghost predicate FollowsAt(actions: seq<Action>, k: nat, l: nat)
    requires k <= |actions| && l <= |actions|
  {
    Follows(At(actions, k), At(actions, l))
  }

  ghost predicate OrderKept(actions: seq<Action>) {
    forall k: nat, l: nat | k <= l <= |actions| :: FollowsAt(actions, k, l)
  }

  lemma {:induction false} FirstLate(actions: seq<Action>, n: nat) returns (k: nat)
    requires n < |actions| && !Timely(At(actions, n), actions[n])
    ensures k <= n && !Timely(At(actions, k), actions[k]) && forall m: nat | m < k :: Timely(At(actions, m), actions[m])
  {
    if m: nat :| m < n && !Timely(At(actions, m), actions[m]) {
      k := FirstLate(actions, m);
    } else {
      k := n;
    }
  }

  /**
   * In a run statuses only ever go up, signatures stay, and the logs only grow, from any moment to any later
   * one, if and only if every opening write that takes effect lands on a row waiting to open or already active.
   */
  lemma OrderKeptExactly(actions: seq<Action>)
    ensures OrderKept(actions) <==> AllTimely(actions)
  {
    if AllTimely(actions) {
      forall k: nat, l: nat | k <= l <= |actions| ensures FollowsAt(actions, k, l) { TimelyKeepsOrder(actions, k, l); }
    } else {
      var n: nat :| n < |actions| && !Timely(At(actions, n), actions[n]);
      var k := FirstLate(actions, n);
      TimelyIsSafe(actions, k);
      StepFollows(At(actions, k), actions[k]);
      AtNext(actions, k);
      assert !FollowsAt(actions, k, k + 1);
    }
  }

  /**
   * In plain terms, along any run whose opening writes are timely: a signature, once there, never changes
   * whatever the backup sweep or a second confirmation does; a session that left active never returns to it; a
   * released slot is never taken back; an exam that is over stays over unless cancelled.
   */
  lemma NothingIsUndone(actions: seq<Action>, k: nat, l: nat, i: nat)
    requires AllTimely(actions) && k <= l <= |actions| && i < |At(actions, k).rows|
    ensures |At(actions, k).rows| <= |At(actions, l).rows|
    ensures Undisturbed(At(actions, k).rows[i], At(actions, l).rows[i])
  {
    TimelyIsSafe(actions, k);
    TimelyKeepsOrder(actions, k, l);
    RowUndisturbed(At(actions, k), At(actions, l), i);
  }

  ghost predicate Undisturbed(now: Session, later: Session) {
    && (now.completedBy.Some? ==> later.completedBy == now.completedBy && later.completedAt == now.completedAt)
    && (later.status == Active ==> now.status in {Scheduled, NotReady, Active})
    && (HoldsSlot(later.status) ==> HoldsSlot(now.status))
    && (IsExamOver(now.status) ==> IsExamOver(later.status) || later.status == Cancelled)
  }

  lemma RowUndisturbed(now: Db, later: Db, i: nat)
    requires Inv(now) && Follows(now, later) && i < |now.rows|
    ensures Undisturbed(now.rows[i], later.rows[i])
  {
    assert RowOkAt(now, i);
    assert RowFollows(now.rows[i], later.rows[i]);
  }

  /** Double booking in plain terms, in every reachable state, late opening writes included. */
  lemma SlotsAreExclusive(actions: seq<Action>, i: nat, j: nat)
    requires i < |Run(EMPTY, actions).rows| && j < |Run(EMPTY, actions).rows| && i != j
    ensures var a, b := Run(EMPTY, actions).rows[i], Run(EMPTY, actions).rows[j];
            a.status in {Draft, Scheduled, NotReady, Active} && b.status in {Draft, Scheduled, NotReady, Active} ==>
              && (a.room == b.room || (a.classId == b.classId && a.classId != "") ==>
                    a.end <= b.start || b.end <= a.start)
              && (a.teacher == b.teacher ==> a.end + 1_800_000 <= b.start || b.end + 1_800_000 <= a.start)
  {
    var db := Run(EMPTY, actions);
    EveryRunIsSound(actions);
    assert RowSoundAt(db, i) && RowSoundAt(db, j);
    assert !Clash(db.rows[i], db.rows[j]) by {
      ClashSymmetric(db.rows[i], db.rows[j]);
      assert if i < j then !Clash(db.rows[i], db.rows[j]) else !Clash(db.rows[j], db.rows[i]);
    }
  }

  // ---------- opening without and with interference ----------

  /** A row that opens keeps its booking, so no constraint stops it. */
  lemma OpeningFits(rows: seq<Session>, id: nat, o: Opening)
    requires NoDoubleBooking(rows) && id < |rows| && HoldsSlot(rows[id].status) && o.added !! rows[id].roster
    ensures Commits(rows, id, o)
  {
    var t := OpenedBy(rows[id], o);
    forall i | 0 <= i < |rows| && i != id ensures !Clash(rows[i], t) {
      assert if i < id then !Clash(rows[i], rows[id]) else !Clash(rows[id], rows[i]);
      ClashSymmetric(rows[i], rows[id]);
      assert Clash(rows[i], t) == Clash(rows[i], rows[id]);
    }
  }

  lemma ReadNotes(db: Db, id: nat, seen: Status, enrolled: set<string>, o: Opening)
    requires id < |db.rows| && FreezeRead(db.rows[id], seen, enrolled) == Ok(Some(o))
    ensures Apply(db, ReadToOpen(id, seen, enrolled)) == db.(opening := db.opening + multiset{(id, o)})
  {
    assert db.rows[id := db.rows[id]] == db.rows;
  }

  lemma WriteLands(db: Db, id: nat, o: Opening)
    requires id < |db.rows| && (id, o) in db.opening && Commits(db.rows, id, o)
    ensures Apply(db, WriteOpened(id, o)) ==
            db.(rows := db.rows[id := OpenedBy(db.rows[id], o)], opening := db.opening - multiset{(id, o)})
  {
  }

  /** The opening write right after its read. */
  lemma ReadThenWrite(db: Db, id: nat, seen: Status, enrolled: set<string>, o: Opening)
    requires NoDoubleBooking(db.rows) && id < |db.rows| && FreezeRead(db.rows[id], seen, enrolled) == Ok(Some(o))
    ensures Apply(Apply(db, ReadToOpen(id, seen, enrolled)), WriteOpened(id, o)) ==
            db.(rows := db.rows[id := OpenedBy(db.rows[id], o)])
  {
    ReadNotes(db, id, seen, enrolled, o);
    OpeningFits(db.rows, id, o);
    WriteLands(db.(opening := db.opening + multiset{(id, o)}), id, o);
    assert db.opening + multiset{(id, o)} - multiset{(id, o)} == db.opening;
  }

  lemma OpeningKeepsBookings(db: Db, id: nat, seen: Status, enrolled: set<string>, o: Opening)
    requires NoDoubleBooking(db.rows) && id < |db.rows| && FreezeRead(db.rows[id], seen, enrolled) == Ok(Some(o))
    ensures var after := Apply(Apply(db, ReadToOpen(id, seen, enrolled)), WriteOpened(id, o));
            after == db.(rows := db.rows[id := OpenedBy(db.rows[id], o)]) && NoDoubleBooking(after.rows)
  {
    ReadThenWrite(db, id, seen, enrolled, o);
    BookingsKept(db, ReadToOpen(id, seen, enrolled));
    BookingsKept(Apply(db, ReadToOpen(id, seen, enrolled)), WriteOpened(id, o));
  }

  lemma ReadOnly(db: Db, id: nat, seen: Status, enrolled: set<string>)
    requires id < |db.rows| && !WillWrite(FreezeRead(db.rows[id], seen, enrolled))
    ensures Apply(db, ReadToOpen(id, seen, enrolled)) == db
  {
    assert db.rows[id := db.rows[id]] == db.rows;
  }

  /** Some steps lead from one state of the table to another. */
  ghost predicate Leads(db: Db, db': Db) { exists actions :: Run(db, actions) == db' }

  lemma Stays(db: Db)
    ensures Leads(db, db)
  {
    assert Run(db, []) == db;
  }

  lemma LeadsOn(db: Db, db': Db, a: Action)
    requires Leads(db, db')
    ensures Leads(db, Apply(db', a))
  {
    var actions :| Run(db, actions) == db';
    assert (actions + [a])[..|actions|] == actions;
    assert Run(db, actions + [a]) == Apply(db', a);
  }

  /** A table of one row. */
  function Table(s: Session, opening: multiset<(nat, Opening)>, finalized: seq<nat>): Db {
    Db([s], opening, finalized, [])
  }

  function Sample(roster: set<string>, file: string): Session {
    Session("c", "t", "k", "r", 0, 1, Scheduled, None, None, {file}, roster, map[])
  }

  lemma Inserted(file: string)
    ensures Leads(EMPTY, Table(Sample({}, file), multiset{}, []))
  {
    Stays(EMPTY);
    LeadsOn(EMPTY, EMPTY, Insert(Sample({}, file)));
    assert Apply(EMPTY, Insert(Sample({}, file))) == Table(Sample({}, file), multiset{}, []);
  }

  lemma ReadStep(db: Db, s: Session, opening: multiset<(nat, Opening)>, enrolled: set<string>, o: Opening)
    requires Leads(db, Table(s, opening, [])) && FreezeRead(s, Scheduled, enrolled) == Ok(Some(o))
    ensures Leads(db, Table(s, opening + multiset{(0, o)}, []))
  {
    LeadsOn(db, Table(s, opening, []), ReadToOpen(0, Scheduled, enrolled));
    assert [s][0 := s] == [s];
  }

  lemma WriteStep(db: Db, s: Session, o: Opening, others: multiset<(nat, Opening)>, finalized: seq<nat>)
    requires Leads(db, Table(s, others + multiset{(0, o)}, finalized)) && o.added !! s.roster
    ensures Leads(db, Table(OpenedBy(s, o), others, finalized))
  {
    var opening := others + multiset{(0, o)};
    LeadsOn(db, Table(s, opening, finalized), WriteOpened(0, o));
    assert [s][0 := OpenedBy(s, o)] == [OpenedBy(s, o)];
    assert opening - multiset{(0, o)} == others;
  }

  lemma FinalizeStep(db: Db, s: Session, opening: multiset<(nat, Opening)>, finalized: seq<nat>)
    requires Leads(db, Table(s, opening, finalized)) && s.status == Active
    ensures Leads(db, Table(s.(status := Collecting), opening, finalized + [0]))
  {
    LeadsOn(db, Table(s, opening, finalized), FinalizeExam(0));
    assert [s][0 := s.(status := Collecting)] == [s.(status := Collecting)];
  }

  lemma CancelStep(db: Db, s: Session, opening: multiset<(nat, Opening)>)
    requires Leads(db, Table(s, opening, []))
    ensures Leads(db, Table(s.(status := Cancelled), opening, []))
  {
    LeadsOn(db, Table(s, opening, []), WriteCancelled(0));
    assert [s][0 := s.(status := Cancelled)] == [s.(status := Cancelled)];
  }

  lemma RosterEdited(file: string, roster: set<string>)
    ensures RowAfter([Sample({}, file)], EditPapers(0, {file}, roster, map[])) == Sample(roster, file)
  {
  }

  lemma RosterStep(file: string, roster: set<string>)
    ensures Leads(EMPTY, Table(Sample(roster, file), multiset{}, []))
  {
    Inserted(file);
    var before, edit := Table(Sample({}, file), multiset{}, []), EditPapers(0, {file}, roster, map[]);
    LeadsOn(EMPTY, before, edit);
    RosterEdited(file, roster);
    assert [Sample({}, file)][0 := Sample(roster, file)] == [Sample(roster, file)];
  }

  /** A run in which a cancelled session becomes active: the cancellation commits between read and write. */
  lemma CancelledSessionReturns()
    ensures exists before, after ::
              && Leads(EMPTY, before) && Leads(before, after) && |before.rows| == |after.rows| == 1
              && before.rows[0].status == Cancelled && after.rows[0].status == Active
  {
    var o := Opening({"s"}, {"s"}, {"f"});
    var s := Sample({}, "f");
    Inserted("f");
    ReadStep(EMPTY, s, multiset{}, {"s"}, o);
    var read := multiset{} + multiset{(0, o)};
    CancelStep(EMPTY, s, read);
    var before := Table(s.(status := Cancelled), read, []);
    Stays(before);
    WriteStep(before, s.(status := Cancelled), o, multiset{}, []);
  }

  /** Two openings of one session with a roster of its own have read; none has written. */
  lemma ReadTwice(s: Session, o: Opening)
    requires s == Sample({"s"}, "f") && o == Opening({}, {"s"}, {"f"})
    ensures Leads(EMPTY, Table(s, multiset{(0, o)} + multiset{(0, o)}, []))
  {
    RosterStep("f", {"s"});
    ReadStep(EMPTY, s, multiset{}, {}, o);
    assert multiset{} + multiset{(0, o)} == multiset{(0, o)};
    ReadStep(EMPTY, s, multiset{(0, o)}, {}, o);
  }

  /** A run in which `exam:finalize` goes out twice: the session is opened, finalized, and opened again. */
  lemma FinalizedTwice()
    ensures exists db :: Leads(EMPTY, db) && db.finalized == [0, 0]
  {
    var s, o := Sample({"s"}, "f"), Opening({}, {"s"}, {"f"});
    ReadTwice(s, o);
    WriteStep(EMPTY, s, o, multiset{(0, o)}, []);
    var active := OpenedBy(s, o);
    FinalizeStep(EMPTY, active, multiset{(0, o)}, []);
    var over := active.(status := Collecting);
    assert multiset{} + multiset{(0, o)} == multiset{(0, o)};
    WriteStep(EMPTY, over, o, multiset{}, [0]);
    FinalizeStep(EMPTY, OpenedBy(over, o), multiset{}, [0]);
  }
}

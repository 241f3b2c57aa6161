/** The three timed sweeps, row by row, and how soon they settle every session. */
module SessionSweeps {
  import opened Options
  import opened SessionTypes

  datatype Sweep = FinalizeDue | CollectionDue | AutoOpenDue

  /** The work list queries. */
  predicate Due(k: Sweep, now: int, s: Session) {
    match k
    case FinalizeDue => s.status == Active && s.end <= now
    case CollectionDue => s.status == Collecting && s.end + SUBMISSION_GRACE_PERIOD_MS <= now
    case AutoOpenDue => IsAwaitingOpen(s.status) && s.start <= now + AUTO_OPEN_LEAD_MS
  }

  /** `advanceAutoOpen` on one row, `enrolled` being the students of its class. */
  function Advance(s: Session, now: int, enrolled: set<string>): Session {
    if !IsAwaitingOpen(s.status) then s
    else if now >= s.end then s.(status := Missed)
    else
      match Freeze(s, s.status, enrolled)
      case Ok(active) => active
      case Refused(why) =>
        if why == BadRequest then s.(status := if now >= s.start then Missed else NotReady) else s
  }

  type Enrollment = map<string, set<string>>

  function Enrolled(e: Enrollment, classId: string): set<string> { if classId in e then e[classId] else {} }

  function SweepRow(k: Sweep, now: int, e: Enrollment, s: Session): Session {
    if !Due(k, now, s) then s
    else
      match k
      case FinalizeDue => Finalize(s)
      case CollectionDue => CompleteExpired(s, now)
      case AutoOpenDue => Advance(s, now, Enrolled(e, s.classId))
  }

  /** One tick of one sweep over the whole table, nobody else acting. */
  datatype Tick = Tick(kind: Sweep, now: int, enrollment: Enrollment)

  function AfterTicks(s: Session, ticks: seq<Tick>): Session
    decreases ticks
  {
    if ticks == [] then s
    else AfterTicks(SweepRow(ticks[0].kind, ticks[0].now, ticks[0].enrollment, s), ticks[1..])
  }

  /**
   * Auto-open inside its window: a session that can open opens, one that cannot is not ready before its start
   * and missed from its start on, and after its end it is missed whatever its papers say.
   */
  lemma AutoOpenVerdict(s: Session, now: int, e: Enrollment)
    requires IsAwaitingOpen(s.status) && s.start < s.end && s.start <= now + AUTO_OPEN_LEAD_MS
    ensures var t := SweepRow(AutoOpenDue, now, e, s);
            var ready := s.classId != "" && s.deliverables != {} && (s.roster != {} || Enrolled(e, s.classId) != {});
            && (t.status == Active <==> now < s.end && ready)
            && (t.status == Missed <==> now >= s.end || (now >= s.start && !ready))
            && (t.status == NotReady <==> now < s.start && !ready)
  {
  }

  // ---------- at any clock ----------

  /** Some finalize tick comes at or after the end of the exam. */
  ghost predicate EndsExam(s: Session, ticks: seq<Tick>) {
    exists i :: 0 <= i < |ticks| && ticks[i].kind == FinalizeDue && s.end <= ticks[i].now
  }

  /** Some collection tick comes half an hour after the end or later. */
  ghost predicate EndsCollection(s: Session, ticks: seq<Tick>) {
    exists i :: 0 <= i < |ticks| && ticks[i].kind == CollectionDue && s.end + 1_800_000 <= ticks[i].now
  }

  /** Some auto-open tick comes ten minutes before the start or later. */
  ghost predicate TriesToOpen(s: Session, ticks: seq<Tick>) {
    exists i :: 0 <= i < |ticks| && ticks[i].kind == AutoOpenDue && s.start - 600_000 <= ticks[i].now
  }

  /** Some collection tick half an hour after the end follows some finalize tick at or after the end. */
  ghost predicate EndsBoth(s: Session, ticks: seq<Tick>) {
    exists i ::
      0 <= i < |ticks| && ticks[i].kind == FinalizeDue && s.end <= ticks[i].now && EndsCollection(s, ticks[i..])
  }

  lemma AnyOf(s: Session, ticks: seq<Tick>)
    requires ticks != []
    ensures EndsExam(s, ticks) <==> (ticks[0].kind == FinalizeDue && s.end <= ticks[0].now) || EndsExam(s, ticks[1..])
    ensures EndsCollection(s, ticks) <==>
            (ticks[0].kind == CollectionDue && s.end + 1_800_000 <= ticks[0].now) || EndsCollection(s, ticks[1..])
    ensures TriesToOpen(s, ticks) <==>
            (ticks[0].kind == AutoOpenDue && s.start - 600_000 <= ticks[0].now) || TriesToOpen(s, ticks[1..])
  {
    var rest := ticks[1..];
    assert forall i :: 0 <= i < |rest| ==> rest[i] == ticks[i + 1];
    assert forall i :: 0 < i < |ticks| ==> ticks[i] == rest[i - 1];
  }

  lemma BothOf(s: Session, ticks: seq<Tick>)
    requires ticks != []
    ensures EndsBoth(s, ticks) <==>
            || (ticks[0].kind == FinalizeDue && s.end <= ticks[0].now && EndsCollection(s, ticks[1..]))
            || EndsBoth(s, ticks[1..])
  {
    var rest := ticks[1..];
    AnyOf(s, ticks);
    assert ticks[0..] == ticks;
    if EndsBoth(s, rest) {
      var i :| 0 <= i < |rest| && rest[i].kind == FinalizeDue && s.end <= rest[i].now && EndsCollection(s, rest[i..]);
      assert rest[i] == ticks[i + 1] && rest[i..] == ticks[i + 1..];
    }
    if EndsBoth(s, ticks) {
      var i :|
        0 <= i < |ticks| && ticks[i].kind == FinalizeDue && s.end <= ticks[i].now && EndsCollection(s, ticks[i..]);
      if i > 0 { assert ticks[i] == rest[i - 1] && ticks[i..] == rest[i - 1..]; }
    }
  }

  /**
   * Whatever the clocks of the ticks: collection stays open until a collection tick half an hour after the end,
   * and then closes at that tick's moment without a name and without touching a seat.
   */
  lemma {:induction false} CollectionEndsExactly(s: Session, ticks: seq<Tick>)
    requires s.status == Collecting
    ensures var r := AfterTicks(s, ticks);
            && r.status == (if EndsCollection(s, ticks) then Completed else Collecting)
            && (!EndsCollection(s, ticks) ==> r == s)
            && r.completedBy == s.completedBy && r.seats == s.seats
            && (r.status == Completed ==>
                  exists i :: 0 <= i < |ticks| && ticks[i].kind == CollectionDue
                    && s.end + 1_800_000 <= ticks[i].now && r.completedAt == Some(ticks[i].now))
    decreases ticks
  {
    if ticks != [] {
      AnyOf(s, ticks);
      var r := SweepRow(ticks[0].kind, ticks[0].now, ticks[0].enrollment, s);
      if r.status == Collecting {
        CollectionEndsExactly(r, ticks[1..]);
        var rest := ticks[1..];
        assert forall i :: 0 <= i < |rest| ==> rest[i] == ticks[i + 1];
      } else {
        OverStays(r, ticks[1..]);
      }
    }
  }

  lemma {:induction false} OverStays(s: Session, ticks: seq<Tick>)
    requires !IsAwaitingOpen(s.status) && s.status != Active && s.status != Collecting
    ensures AfterTicks(s, ticks) == s
    decreases ticks
  {
    if ticks != [] { OverStays(s, ticks[1..]); }
  }

  /**
   * An exam stays active until a finalize tick at or after its end, is then collected, and completes exactly when
   * a collection tick half an hour after the end follows.
   */
  lemma {:induction false} ExamEndsExactly(s: Session, ticks: seq<Tick>)
    requires s.status == Active
    ensures var r := AfterTicks(s, ticks).status;
            && (r == Active <==> !EndsExam(s, ticks)) && (r == Completed <==> EndsBoth(s, ticks))
            && (r == Active || r == Collecting || r == Completed)
    decreases ticks
  {
    if ticks != [] {
      AnyOf(s, ticks);
      BothOf(s, ticks);
      var r := SweepRow(ticks[0].kind, ticks[0].now, ticks[0].enrollment, s);
      if r.status == Active {
        ExamEndsExactly(r, ticks[1..]);
      } else {
        CollectionEndsExactly(r, ticks[1..]);
        BothNeedsCollection(s, ticks[1..]);
      }
    }
  }

  lemma {:induction false} BothNeedsCollection(s: Session, ticks: seq<Tick>)
    ensures EndsBoth(s, ticks) ==> EndsCollection(s, ticks)
    decreases ticks
  {
    if ticks != [] {
      BothOf(s, ticks);
      AnyOf(s, ticks);
      BothNeedsCollection(s, ticks[1..]);
    }
  }

  /** A session is left alone until ten minutes before its start; a scheduled one is not left alone after that. */
  lemma {:induction false} WaitsExactly(s: Session, ticks: seq<Tick>)
    requires IsAwaitingOpen(s.status)
    ensures !TriesToOpen(s, ticks) ==> AfterTicks(s, ticks) == s
    ensures s.status == Scheduled ==> (AfterTicks(s, ticks).status == Scheduled <==> !TriesToOpen(s, ticks))
    decreases ticks
  {
    if ticks != [] {
      AnyOf(s, ticks);
      var r := SweepRow(ticks[0].kind, ticks[0].now, ticks[0].enrollment, s);
      if r == s {
        WaitsExactly(s, ticks[1..]);
      } else if s.status == Scheduled {
        NeverScheduledAgain(r, ticks[1..]);
      }
    }
  }

  lemma {:induction false} NeverScheduledAgain(s: Session, ticks: seq<Tick>)
    requires s.status != Scheduled
    ensures AfterTicks(s, ticks).status != Scheduled
    decreases ticks
  {
    if ticks != [] {
      NeverScheduledAgain(SweepRow(ticks[0].kind, ticks[0].now, ticks[0].enrollment, s), ticks[1..]);
    }
  }

  // ---------- settling ----------

  predicate IsSettled(s: Status) { s == Completed || s == Missed || s == Cancelled }

  ghost predicate AllPast(s: Session, ticks: seq<Tick>) {
    s.start < s.end && forall t | t in ticks :: s.end + SUBMISSION_GRACE_PERIOD_MS <= t.now
  }

  predicate Runs(k: Sweep, ticks: seq<Tick>) { exists i :: 0 <= i < |ticks| && ticks[i].kind == k }

  /** Some finalize tick comes before some collection tick. */
  ghost predicate CollectsAfterFinalize(ticks: seq<Tick>) {
    exists i :: 0 <= i < |ticks| && ticks[i].kind == FinalizeDue && Runs(CollectionDue, ticks[i..])
  }

  ghost predicate Settles(ticks: seq<Tick>) { Runs(AutoOpenDue, ticks) && CollectsAfterFinalize(ticks) }

  /** Past the deadline a tick only ever moves a row forward. */
  lemma TickPastDeadline(s: Session, t: Tick)
    requires AllPast(s, [t])
    ensures var r := SweepRow(t.kind, t.now, t.enrollment, s);
            && r.start == s.start && r.end == s.end
            && (r.status == s.status || Stage(s.status) < Stage(r.status))
            && r.status == (if IsAwaitingOpen(s.status) && t.kind == AutoOpenDue then Missed
                            else if s.status == Active && t.kind == FinalizeDue then Collecting
                            else if s.status == Collecting && t.kind == CollectionDue then Completed
                            else s.status)
  {
    assert t in [t];
  }

  /** The status a row ends in, from what the remaining ticks contain. */
  lemma {:induction false} StatusAfterTicks(s: Session, ticks: seq<Tick>)
    requires AllPast(s, ticks)
    ensures var r := AfterTicks(s, ticks).status;
            && (IsAwaitingOpen(s.status) ==> r == if Runs(AutoOpenDue, ticks) then Missed else s.status)
            && (s.status == Collecting ==> r == if Runs(CollectionDue, ticks) then Completed else Collecting)
            && (s.status == Active ==> (r == Completed <==> CollectsAfterFinalize(ticks)))
            && (s.status == Active ==> r == Active || r == Collecting || r == Completed)
            && (IsSettled(s.status) || s.status == Draft ==> r == s.status)
    decreases ticks
  {
    if ticks != [] {
      var t, rest := ticks[0], ticks[1..];
      assert t in ticks && forall x | x in rest :: x in ticks;
      TickPastDeadline(s, t);
      StatusAfterTicks(SweepRow(t.kind, t.now, t.enrollment, s), rest);
      RunsFirst(AutoOpenDue, ticks);
      RunsFirst(CollectionDue, ticks);
      FinalizeThenCollect(ticks);
    }
  }

  lemma RunsFirst(k: Sweep, ticks: seq<Tick>)
    requires ticks != []
    ensures Runs(k, ticks) <==> ticks[0].kind == k || Runs(k, ticks[1..])
  {
    if Runs(k, ticks[1..]) {
      var i :| 0 <= i < |ticks[1..]| && ticks[1..][i].kind == k;
      assert ticks[i + 1].kind == k;
    }
    if Runs(k, ticks) && ticks[0].kind != k {
      var i :| 0 <= i < |ticks| && ticks[i].kind == k;
      assert ticks[1..][i - 1].kind == k;
    }
  }

  lemma FinalizeThenCollect(ticks: seq<Tick>)
    requires ticks != []
    ensures CollectsAfterFinalize(ticks) <==>
            (ticks[0].kind == FinalizeDue && Runs(CollectionDue, ticks[1..])) || CollectsAfterFinalize(ticks[1..])
  {
    RunsFirst(CollectionDue, ticks);
    assert ticks[0..] == ticks;
    forall i | 0 < i < |ticks| ensures ticks[i..] == ticks[1..][i - 1..] {}
    if CollectsAfterFinalize(ticks[1..]) {
      var i :| 0 <= i < |ticks[1..]| && ticks[1..][i].kind == FinalizeDue && Runs(CollectionDue, ticks[1..][i..]);
      assert ticks[i + 1].kind == FinalizeDue && Runs(CollectionDue, ticks[i + 1..]);
    }
    if CollectsAfterFinalize(ticks) {
      var i :| 0 <= i < |ticks| && ticks[i].kind == FinalizeDue && Runs(CollectionDue, ticks[i..]);
      if i > 0 { assert ticks[1..][i - 1].kind == FinalizeDue && Runs(CollectionDue, ticks[1..][i - 1..]); }
    }
  }

  /**
   * Exactly which tick orders settle everything: once all clocks are past end plus grace and nobody else acts,
   * a sequence of ticks settles every non-draft session if and only if auto-open ticks and some finalize tick
   * precedes some collection tick.
   */
  lemma SettlesExactly(ticks: seq<Tick>)
    ensures Settles(ticks) <==>
            forall s | AllPast(s, ticks) && s.status != Draft :: IsSettled(AfterTicks(s, ticks).status)
  {
    if Settles(ticks) {
      forall s | AllPast(s, ticks) && s.status != Draft ensures IsSettled(AfterTicks(s, ticks).status) {
        StatusAfterTicks(s, ticks);
      }
    } else {
      var long := LongGone(ticks);
      var s := Session("c", "t", "k", "r", long, long + 1, if Runs(AutoOpenDue, ticks) then Active else Scheduled,
                       None, None, {}, {}, map[]);
      StatusAfterTicks(s, ticks);
      assert AllPast(s, ticks) && !IsSettled(AfterTicks(s, ticks).status);
    }
  }

  lemma {:induction false} LongGone(ticks: seq<Tick>) returns (start: int)
    ensures forall t | t in ticks :: start + 1 + SUBMISSION_GRACE_PERIOD_MS <= t.now
  {
    if ticks == [] { return 0; }
    var rest := LongGone(ticks[1..]);
    start := if rest + 1 + SUBMISSION_GRACE_PERIOD_MS <= ticks[0].now then rest
             else ticks[0].now - 1 - SUBMISSION_GRACE_PERIOD_MS;
  }

  /** Two rounds of the three sweeps settle everything, whatever the order inside each round. */
  lemma TwoRoundsSettle(first: seq<Tick>, second: seq<Tick>, s: Session)
    requires forall k: Sweep :: Runs(k, first) && Runs(k, second)
    requires AllPast(s, first + second) && s.status != Draft
    ensures IsSettled(AfterTicks(s, first + second).status)
  {
    var ticks := first + second;
    assert Runs(AutoOpenDue, first) && Runs(FinalizeDue, first) && Runs(CollectionDue, second);
    var a :| 0 <= a < |first| && first[a].kind == AutoOpenDue;
    assert ticks[a].kind == AutoOpenDue;
    var i :| 0 <= i < |first| && first[i].kind == FinalizeDue;
    var j :| 0 <= j < |second| && second[j].kind == CollectionDue;
    assert ticks[i].kind == FinalizeDue && ticks[i..][|first| - i + j].kind == CollectionDue;
    SettlesExactly(ticks);
  }
}

/** The sliding-window limiter on model calls: a pruned map against the full history. */
module GenerateQuota {

  /** With a limit of 0 there is no oldest call to wait for: the source then computes NaN and still refuses. */
  datatype Outcome = Accepted | Refused(retryAfterMs: int) | RefusedForGood

  /** Calls allowed per teacher in any window of this length. */
  datatype Options = Options(burstLimit: nat, burstWindowMs: int)

  type Attempts = map<string, seq<int>>

  /** `times.filter((t) => t > floor)` */
  function Alive(times: seq<int>, floor: int): seq<int> {
    if times == [] then []
    else
      var rest := Alive(times[..|times| - 1], floor);
      if times[|times| - 1] > floor then rest + [times[|times| - 1]] else rest
  }

  function Of(a: Attempts, teacher: string): seq<int> { if teacher in a then a[teacher] else [] }

  function Prune(a: Attempts, floor: int): Attempts {
    map k | k in a && Alive(a[k], floor) != [] :: Alive(a[k], floor)
  }

  function Decide(mine: seq<int>, now: int, o: Options): Outcome
  {
    if |mine| < o.burstLimit then Accepted
    else if mine == [] then RefusedForGood
    else Refused(mine[0] + o.burstWindowMs - now)
  }

  function Step(a: Attempts, teacher: string, now: int, o: Options): (Attempts, Outcome)
  {
    var pruned := Prune(a, now - o.burstWindowMs);
    var mine := Of(pruned, teacher);
    var d := Decide(mine, now, o);
    (if d.Accepted? then pruned[teacher := mine + [now]] else pruned, d)
  }

  class GenerateQuota {
    const options: Options
    var attempts: Attempts

    constructor (options: Options)
      ensures this.options == options && attempts == map[]
    {
      this.options := options;
      attempts := map[];
    }

    /** `assertBurst`: prune everybody, then decide and record at once. */
    method AssertBurst(teacher: string, now: int) returns (d: Outcome)
      modifies this
      ensures (attempts, d) == Step(old(attempts), teacher, now, options)
    {
      var floor := now - options.burstWindowMs;
      PruneAll(floor);
      var mine := Of(attempts, teacher);
      d := Decide(mine, now, options);
      if d.Accepted? { attempts := attempts[teacher := mine + [now]]; }
    }

    /** Drops the cold teachers and the expired times of the others. */
    method PruneAll(floor: int)
      modifies this
      ensures attempts == Prune(old(attempts), floor)
    {
      var before := attempts;
      var left := before.Keys;
      while left != {}
        invariant left <= before.Keys
        invariant attempts == map k | k in before && (k in left || Alive(before[k], floor) != []) ::
                    if k in left then before[k] else Alive(before[k], floor)
      {
        var key :| key in left;
        var alive := Alive(attempts[key], floor);
        if alive == [] {
          attempts := attempts - {key};
        } else {
          attempts := attempts[key := alive];
        }
        left := left - {key};
      }
    }
  }

  // ---------- the full history ----------

  datatype Call = Call(teacher: string, now: int)

  /** Accepted calls, oldest first; nothing is ever dropped. */
  type History = seq<Call>

  function Times(h: History, teacher: string): seq<int> {
    if h == [] then []
    else
      var rest := Times(h[..|h| - 1], teacher);
      if h[|h| - 1].teacher == teacher then rest + [h[|h| - 1].now] else rest
  }

  function HistoryStep(h: History, c: Call, o: Options): (History, Outcome)
  {
    var d := Decide(Alive(Times(h, c.teacher), c.now - o.burstWindowMs), c.now, o);
    (if d.Accepted? then h + [c] else h, d)
  }

  /** A run of calls on the pruned map. */
  function RunPruned(calls: seq<Call>, o: Options): (Attempts, seq<Outcome>)
  {
    if calls == [] then (map[], [])
    else
      var (a, ds) := RunPruned(calls[..|calls| - 1], o);
      var c := calls[|calls| - 1];
      var (a', d) := Step(a, c.teacher, c.now, o);
      (a', ds + [d])
  }

  /** The same run on the full history. */
  function RunHistory(calls: seq<Call>, o: Options): (History, seq<Outcome>)
  {
    if calls == [] then ([], [])
    else
      var (h, ds) := RunHistory(calls[..|calls| - 1], o);
      var (h', d) := HistoryStep(h, calls[|calls| - 1], o);
      (h', ds + [d])
  }

  ghost predicate ClockMonotone(calls: seq<Call>) {
    forall i, j :: 0 <= i < j < |calls| ==> calls[i].now <= calls[j].now
  }

  // ---------- pruning changes no decision ----------

  lemma {:induction false} AliveTwice(times: seq<int>, floor: int, higher: int)
    requires floor <= higher
    ensures Alive(Alive(times, floor), higher) == Alive(times, higher)
  {
    if times != [] {
      var n := |times| - 1;
      AliveTwice(times[..n], floor, higher);
      AliveAppend(Alive(times[..n], floor), times[n], higher);
    }
  }

  lemma AliveAppend(times: seq<int>, t: int, floor: int)
    ensures Alive(times + [t], floor) == if t > floor then Alive(times, floor) + [t] else Alive(times, floor)
  {
    assert (times + [t])[..|times|] == times;
  }

  /** From the given floor on, the map and the history show the same live times. */
  ghost predicate Agree(a: Attempts, h: History, floor: int) {
    forall k, f | f >= floor :: Alive(Of(a, k), f) == Alive(Times(h, k), f)
  }

  lemma PruneAgrees(a: Attempts, k: string, floor: int)
    ensures Of(Prune(a, floor), k) == Alive(Of(a, k), floor)
  {
  }

  lemma SameDecision(a: Attempts, h: History, c: Call, o: Options)
    requires Alive(Of(a, c.teacher), c.now - o.burstWindowMs) == Alive(Times(h, c.teacher), c.now - o.burstWindowMs)
    ensures Step(a, c.teacher, c.now, o).1 == HistoryStep(h, c, o).1
  {
    PruneAgrees(a, c.teacher, c.now - o.burstWindowMs);
  }

  /** What the map holds for `k` after a step. */
  lemma StepHolds(a: Attempts, c: Call, o: Options, k: string)
    ensures var f0 := c.now - o.burstWindowMs;
            Of(Step(a, c.teacher, c.now, o).0, k) ==
            if k == c.teacher && Step(a, c.teacher, c.now, o).1.Accepted? then Alive(Of(a, k), f0) + [c.now]
            else Alive(Of(a, k), f0)
  {
    PruneAgrees(a, k, c.now - o.burstWindowMs);
    PruneAgrees(a, c.teacher, c.now - o.burstWindowMs);
  }

  lemma HistoryHolds(h: History, c: Call, o: Options, k: string)
    ensures Times(HistoryStep(h, c, o).0, k) ==
            if k == c.teacher && HistoryStep(h, c, o).1.Accepted? then Times(h, k) + [c.now] else Times(h, k)
  {
    TimesAppend(h, c, k);
  }

  /** Pruning at a lower floor and appending keep two lists alike above a floor. */
  lemma AliveAgrees(held: seq<int>, times: seq<int>, floor: int, higher: int, now: int)
    requires floor <= higher && Alive(held, higher) == Alive(times, higher)
    ensures Alive(Alive(held, floor), higher) == Alive(times, higher)
    ensures Alive(Alive(held, floor) + [now], higher) == Alive(times + [now], higher)
  {
    AliveTwice(held, floor, higher);
    AliveAppend(Alive(held, floor), now, higher);
    AliveAppend(times, now, higher);
  }

  lemma StepAgrees(a: Attempts, h: History, c: Call, o: Options, floor: int)
    requires Agree(a, h, floor) && floor <= c.now - o.burstWindowMs
    ensures Step(a, c.teacher, c.now, o).1 == HistoryStep(h, c, o).1
    ensures Agree(Step(a, c.teacher, c.now, o).0, HistoryStep(h, c, o).0, c.now - o.burstWindowMs)
  {
    SameDecision(a, h, c, o);
    var a', h' := Step(a, c.teacher, c.now, o).0, HistoryStep(h, c, o).0;
    forall k, f | f >= c.now - o.burstWindowMs ensures Alive(Of(a', k), f) == Alive(Times(h', k), f) {
      StepHolds(a, c, o, k);
      HistoryHolds(h, c, o, k);
      AliveAgrees(Of(a, k), Times(h, k), c.now - o.burstWindowMs, f, c.now);
    }
  }

  lemma TimesAppend(h: History, c: Call, k: string)
    ensures Times(h + [c], k) == if c.teacher == k then Times(h, k) + [c.now] else Times(h, k)
  {
    assert (h + [c])[..|h|] == h;
  }

  /**
   * Under a clock that never runs backwards the pruned map decides every call exactly as the full history
   * would: clearing cold teachers and expired times changes nothing.
   */
  lemma {:induction false} PruningRefinesHistory(calls: seq<Call>, o: Options)
    requires ClockMonotone(calls)
    ensures RunPruned(calls, o).1 == RunHistory(calls, o).1
    ensures calls != [] ==>
              Agree(RunPruned(calls, o).0, RunHistory(calls, o).0, calls[|calls| - 1].now - o.burstWindowMs)
  {
    if calls != [] {
      var n := |calls| - 1;
      PruningRefinesHistory(calls[..n], o);
      var a, h := RunPruned(calls[..n], o).0, RunHistory(calls[..n], o).0;
      var floor := if n > 0 then calls[n - 1].now - o.burstWindowMs else calls[n].now - o.burstWindowMs;
      assert Agree(a, h, floor);
      StepAgrees(a, h, calls[n], o, floor);
    }
  }

  lemma {:induction false} AliveIsAbove(times: seq<int>, floor: int)
    ensures forall t | t in Alive(times, floor) :: t > floor && t in times
  {
    if times != [] {
      AliveIsAbove(times[..|times| - 1], floor);
      assert times == times[..|times| - 1] + [times[|times| - 1]];
    }
  }

  /** After every call the map holds no cold teacher, and of the others nothing but times inside the window. */
  lemma MapHoldsOnlyLiveTimes(a: Attempts, teacher: string, now: int, o: Options, k: string)
    requires k in Step(a, teacher, now, o).0
    ensures var times := Step(a, teacher, now, o).0[k];
            && times != [] && (forall t | t in times :: now - o.burstWindowMs < t || t == now)
            && (k == teacher || (k in a && forall t | t in times :: t in a[k]))
  {
    if k in a { AliveIsAbove(a[k], now - o.burstWindowMs); }
  }

  // ---------- what the limiter guarantees ----------

  /** Accepted times in the half-open window (lo, hi]. */
  function CountIn(times: seq<int>, lo: int, hi: int): nat {
    if times == [] then 0
    else CountIn(times[..|times| - 1], lo, hi) + (if lo < times[|times| - 1] <= hi then 1 else 0)
  }

  ghost predicate Ascending(times: seq<int>) { forall i, j :: 0 <= i < j < |times| ==> times[i] <= times[j] }

  /** Accepted times in the window of the configured length that ends at `t`. */
  function InWindow(times: seq<int>, t: int, o: Options): nat { CountIn(times, t - o.burstWindowMs, t) }

  ghost predicate AllWindowsWithin(times: seq<int>, o: Options) {
    forall t :: InWindow(times, t, o) <= o.burstLimit
  }

  ghost predicate UpTo(times: seq<int>, b: int) { forall i :: 0 <= i < |times| ==> times[i] <= b }

  lemma {:induction false} CountIsAlive(times: seq<int>, lo: int, hi: int)
    requires UpTo(times, hi)
    ensures CountIn(times, lo, hi) == |Alive(times, lo)|
  {
    if times != [] { CountIsAlive(times[..|times| - 1], lo, hi); }
  }

  lemma {:induction false} CountAtMostAlive(times: seq<int>, lo: int, hi: int, floor: int)
    requires floor <= lo
    ensures CountIn(times, lo, hi) <= |Alive(times, floor)|
  {
    if times != [] { CountAtMostAlive(times[..|times| - 1], lo, hi, floor); }
  }

  lemma AcceptKeepsWindows(times: seq<int>, now: int, o: Options)
    requires AllWindowsWithin(times, o) && |Alive(times, now - o.burstWindowMs)| < o.burstLimit && UpTo(times, now)
    ensures AllWindowsWithin(times + [now], o)
  {
    forall t ensures InWindow(times + [now], t, o) <= o.burstLimit {
      assert (times + [now])[..|times|] == times;
      assert InWindow(times, t, o) <= o.burstLimit;
      if t - o.burstWindowMs < now <= t {
        CountWithin(times, now, t, o);
      }
    }
  }

  /** A window reaching past `now` holds no more old times than are still alive at `now`. */
  lemma CountWithin(times: seq<int>, now: int, t: int, o: Options)
    requires now <= t
    ensures InWindow(times, t, o) <= |Alive(times, now - o.burstWindowMs)|
  {
    CountAtMostAlive(times, t - o.burstWindowMs, t, now - o.burstWindowMs);
  }

  ghost predicate TimesOk(times: seq<int>, latest: int, o: Options) {
    AllWindowsWithin(times, o) && Ascending(times) && UpTo(times, latest)
  }

  lemma StepKeepsTimesOk(h: History, c: Call, o: Options, teacher: string)
    requires TimesOk(Times(h, teacher), c.now, o)
    ensures TimesOk(Times(HistoryStep(h, c, o).0, teacher), c.now, o)
  {
    HistoryHolds(h, c, o, teacher);
    if HistoryStep(h, c, o).1.Accepted? && c.teacher == teacher {
      assert |Alive(Times(h, teacher), c.now - o.burstWindowMs)| < o.burstLimit;
      AcceptKeepsWindows(Times(h, teacher), c.now, o);
    }
  }

  lemma {:induction false} TimesStayOk(calls: seq<Call>, o: Options, teacher: string, t: int)
    requires ClockMonotone(calls) && (calls != [] ==> calls[|calls| - 1].now <= t)
    ensures TimesOk(Times(RunHistory(calls, o).0, teacher), t, o)
  {
    if calls == [] {
      forall u ensures InWindow([], u, o) == 0 {}
    } else {
      var n := |calls| - 1;
      assert n > 0 ==> calls[n - 1].now <= calls[n].now;
      TimesStayOk(calls[..n], o, teacher, calls[n].now);
      StepKeepsTimesOk(RunHistory(calls[..n], o).0, calls[n], o, teacher);
    }
  }

  /** In every run, no teacher gets more than the limit in any window, wherever the window is placed. */
  lemma EveryWindowWithinLimit(calls: seq<Call>, o: Options, teacher: string)
    requires ClockMonotone(calls)
    ensures AllWindowsWithin(Times(RunHistory(calls, o).0, teacher), o)
  {
    TimesStayOk(calls, o, teacher, if calls == [] then 0 else calls[|calls| - 1].now);
  }

  /** What the next call of a teacher meets after a run. */
  function NextOutcome(calls: seq<Call>, c: Call, o: Options): Outcome {
    HistoryStep(RunHistory(calls, o).0, c, o).1
  }

  lemma NextIsLast(calls: seq<Call>, c: Call, o: Options)
    requires ClockMonotone(calls + [c])
    ensures |RunPruned(calls + [c], o).1| == |calls| + 1
    ensures RunPruned(calls + [c], o).1[|calls|] == NextOutcome(calls, c, o)
  {
    assert (calls + [c])[..|calls|] == calls;
    OneOutcomeEach(calls, o);
    PruningRefinesHistory(calls + [c], o);
  }

  lemma {:induction false} OneOutcomeEach(calls: seq<Call>, o: Options)
    ensures |RunHistory(calls, o).1| == |calls|
  {
    if calls != [] { OneOutcomeEach(calls[..|calls| - 1], o); }
  }

  /** A call is refused exactly when the window that ends with it already holds the full limit. */
  lemma RefusedExactlyWhenFull(calls: seq<Call>, c: Call, o: Options)
    requires ClockMonotone(calls + [c])
    ensures !NextOutcome(calls, c, o).Accepted? <==>
            InWindow(Times(RunHistory(calls, o).0, c.teacher), c.now, o) == o.burstLimit
  {
    var times := Settled(calls, c, o);
    OutcomeIs(RunHistory(calls, o).0, c, o, times);
    CountIsAlive(times, c.now - o.burstWindowMs, c.now);
  }

  /** The teacher's accepted times when the call `c` arrives. */
  lemma Settled(calls: seq<Call>, c: Call, o: Options) returns (times: seq<int>)
    requires ClockMonotone(calls + [c])
    ensures times == Times(RunHistory(calls, o).0, c.teacher) && TimesOk(times, c.now, o)
    ensures InWindow(times, c.now, o) <= o.burstLimit
  {
    times := Times(RunHistory(calls, o).0, c.teacher);
    forall i, j | 0 <= i < j < |calls| ensures calls[i].now <= calls[j].now {
      assert (calls + [c])[i].now <= (calls + [c])[j].now;
    }
    if calls != [] { assert (calls + [c])[|calls| - 1].now <= (calls + [c])[|calls|].now; }
    TimesStayOk(calls, o, c.teacher, c.now);
  }

  lemma {:induction false} AliveAscending(times: seq<int>, floor: int, b: int)
    requires Ascending(times) && UpTo(times, b)
    ensures Ascending(Alive(times, floor)) && UpTo(Alive(times, floor), b)
    ensures forall i :: 0 <= i < |Alive(times, floor)| ==> Alive(times, floor)[i] > floor
  {
    if times != [] {
      var n := |times| - 1;
      AliveAscending(times[..n], floor, b);
      AliveAscending(times[..n], floor, times[n]);
    }
  }

  /** Ascending times all survive a floor or the first of them does not. */
  lemma {:induction false} FirstExpiresFirst(times: seq<int>, floor: int)
    requires times != [] && Ascending(times)
    ensures |Alive(times, floor)| <= |times|
    ensures |Alive(times, floor)| == |times| <==> times[0] > floor
  {
    var n := |times| - 1;
    if n > 0 {
      FirstExpiresFirst(times[..n], floor);
      assert times[0] <= times[n];
    }
  }

  /** The decision at a later moment, the teacher's accepted times being unchanged since the refusal. */
  lemma DecisionLater(times: seq<int>, now: int, later: int, o: Options)
    requires TimesOk(times, now, o) && now <= later
    requires Decide(Alive(times, now - o.burstWindowMs), now, o).Refused?
    ensures var r := Decide(Alive(times, now - o.burstWindowMs), now, o).retryAfterMs;
            && r > 0
            && (Decide(Alive(times, later - o.burstWindowMs), later, o).Accepted? <==> later >= now + r)
  {
    var floor := now - o.burstWindowMs;
    var mine := Alive(times, floor);
    CountIsAlive(times, floor, now);
    assert InWindow(times, now, o) <= o.burstLimit;
    AliveAscending(times, floor, now);
    AliveTwice(times, floor, later - o.burstWindowMs);
    FirstExpiresFirst(mine, later - o.burstWindowMs);
  }

  /** Calls of the refused teacher that come too early; calls of anybody else at any moment. */
  ghost predicate TooEarly(between: seq<Call>, teacher: string, until: int) {
    forall i :: 0 <= i < |between| && between[i].teacher == teacher ==> between[i].now < until
  }

  lemma RunSnoc(calls: seq<Call>, x: Call, o: Options)
    ensures RunHistory(calls + [x], o).0 == HistoryStep(RunHistory(calls, o).0, x, o).0
  {
    assert (calls + [x])[..|calls|] == calls;
  }

  lemma MonotoneParts(calls: seq<Call>, c: Call, between: seq<Call>, x: Call)
    requires ClockMonotone(calls + [c] + between + [x])
    ensures ClockMonotone(calls + [c]) && ClockMonotone(calls + [c] + between) && c.now <= x.now
  {
    var all := calls + [c] + between + [x];
    assert calls + [c] == all[..|calls| + 1];
    assert calls + [c] + between == all[..|all| - 1];
    assert all[|calls|] == c && all[|all| - 1] == x;
  }

  /** One more early retry, or a call of somebody else, leaves the refused teacher's accepted times alone. */
  lemma EarlyCallChangesNothing(h: History, times: seq<int>, c: Call, x: Call, o: Options)
    requires Times(h, c.teacher) == times && TimesOk(times, c.now, o) && c.now <= x.now
    requires Decide(Alive(times, c.now - o.burstWindowMs), c.now, o).Refused?
    requires x.teacher == c.teacher ==>
               x.now < c.now + Decide(Alive(times, c.now - o.burstWindowMs), c.now, o).retryAfterMs
    ensures Times(HistoryStep(h, x, o).0, c.teacher) == times
  {
    TimesAppend(h, x, c.teacher);
    if x.teacher == c.teacher { DecisionLater(times, c.now, x.now, o); }
  }

  /** Until the announced moment every retry is refused and leaves the teacher's accepted times as they were. */
  lemma {:induction false} EarlyRetriesChangeNothing(calls: seq<Call>, c: Call, between: seq<Call>, o: Options)
    requires ClockMonotone(calls + [c] + between) && NextOutcome(calls, c, o).Refused?
    requires TooEarly(between, c.teacher, c.now + NextOutcome(calls, c, o).retryAfterMs)
    ensures Times(RunHistory(calls + [c] + between, o).0, c.teacher) == Times(RunHistory(calls, o).0, c.teacher)
  {
    if between == [] {
      assert calls + [c] + between == calls + [c];
      RunSnoc(calls, c, o);
    } else {
      var n := |between| - 1;
      var earlier, x := between[..n], between[n];
      var prev := calls + [c] + earlier;
      assert calls + [c] + between == prev + [x];
      MonotoneParts(calls, c, earlier, x);
      EarlyRetriesChangeNothing(calls, c, earlier, o);
      RunSnoc(prev, x, o);
      var times := Settled(calls, c, o);
      EarlyCallChangesNothing(RunHistory(prev, o).0, times, c, x, o);
    }
  }

  /**
   * The announced wait is exact: whatever other teachers do and however often the refused one knocks too
   * early, the next call is accepted if and only if the wait is over.
   */
  lemma RetryAfterIsExact(calls: seq<Call>, c: Call, between: seq<Call>, next: Call, o: Options)
    requires ClockMonotone(calls + [c] + between + [next]) && next.teacher == c.teacher
    requires NextOutcome(calls, c, o).Refused?
    requires TooEarly(between, c.teacher, c.now + NextOutcome(calls, c, o).retryAfterMs)
    ensures NextOutcome(calls, c, o).retryAfterMs > 0
    ensures NextOutcome(calls + [c] + between, next, o).Accepted? <==>
            next.now >= c.now + NextOutcome(calls, c, o).retryAfterMs
  {
    var h, later := RunHistory(calls, o).0, RunHistory(calls + [c] + between, o).0;
    MonotoneParts(calls, c, between, next);
    EarlyRetriesChangeNothing(calls, c, between, o);
    var times := Settled(calls, c, o);
    RetryFrom(h, later, times, c, next, o);
  }

  /** The wait announced at `c` is exact for a later call that finds the same accepted times. */
  lemma RetryFrom(h: History, later: History, times: seq<int>, c: Call, next: Call, o: Options)
    requires Times(h, c.teacher) == times && Times(later, next.teacher) == times
    requires TimesOk(times, c.now, o) && c.now <= next.now && HistoryStep(h, c, o).1.Refused?
    ensures HistoryStep(h, c, o).1.retryAfterMs > 0
    ensures HistoryStep(later, next, o).1.Accepted? <==> next.now >= c.now + HistoryStep(h, c, o).1.retryAfterMs
  {
    OutcomeIs(h, c, o, times);
    OutcomeIs(later, next, o, times);
    DecisionLater(times, c.now, next.now, o);
  }

  lemma OutcomeIs(h: History, c: Call, o: Options, times: seq<int>)
    requires Times(h, c.teacher) == times
    ensures HistoryStep(h, c, o).1 == Decide(Alive(times, c.now - o.burstWindowMs), c.now, o)
  {
  }
}

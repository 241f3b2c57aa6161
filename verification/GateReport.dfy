/** What the gate lists of a run say, in terms of what the attempts yielded. Case ids are not repeated. */
module GateReport {
  import opened Bags
  import opened Options
  import opened Gates
  import opened Runner
  import opened RunnerVerdict

  /** A correct program that lost points. */
  predicate LosesPoints(a: Attempt, max: int) { a.ok && a.score.Some? && a.score.value < max }

  /** A wrong program with full marks. */
  predicate GetsFullMarks(a: Attempt, max: int) { a.ok && a.score.Some? && max <= a.score.value }

  /** An injected program that did better than every attempt of a twin whose fault was always found. */
  predicate BeatsTwin(a: Attempt, twin: seq<Attempt>, max: int) {
    && a.ok && a.score.Some? && twin != []
    && forall t | t in twin :: LosesPoints(t, max) && t.score.value < a.score.value
  }

  /** The item of the clean twin, if the data set has it. */
  function TwinOf(all: seq<Item>, x: Item): Option<Item> {
    if all == [] || x.c.cleanTwin.None? then None
    else
      var y := all[|all| - 1];
      if KeyOf(y) == (x.de, x.c.cleanTwin.value) then Some(y) else TwinOf(all[..|all| - 1], x)
  }

  predicate Misjudged(x: Item, a: Attempt, twin: seq<Attempt>) {
    || (x.c.group == 2 && LosesPoints(a, x.maxHundredths))
    || (x.c.group == 4 && GetsFullMarks(a, x.maxHundredths))
    || (x.c.group == 3 && BeatsTwin(a, twin, x.maxHundredths))
  }

  /** What the first attempt of the twin yields. */
  function TwinFirst(all: seq<Item>, x: Item): seq<Attempt> {
    match TwinOf(all, x)
    case None => []
    case Some(y) => [y.yields1]
  }

  /** The attempts a case is given: three in the full tier and when its first one was misjudged, else one. */
  function Made(all: seq<Item>, tier: Tier, x: Item): seq<Attempt> {
    if tier == Full || Misjudged(x, x.yields1, TwinFirst(all, x))
    then [x.yields1, x.yields2, x.yields3]
    else [x.yields1]
  }

  function TwinMade(all: seq<Item>, tier: Tier, x: Item): seq<Attempt> {
    match TwinOf(all, x)
    case None => []
    case Some(y) => Made(all, tier, y)
  }

  function CountMisjudged(x: Item, made: seq<Attempt>, twin: seq<Attempt>): nat {
    if made == [] then 0 else CountMisjudged(x, made[1..], twin) + (if Misjudged(x, made[0], twin) then 1 else 0)
  }

  /** How often a case ends up misjudged, its twin's attempts all in. */
  function Misjudgements(all: seq<Item>, tier: Tier, x: Item): nat {
    CountMisjudged(x, Made(all, tier, x), TwinMade(all, tier, x))
  }

  // ---------- one attempt ----------

  /** The gate of a group. */
  function GateOf(g: Group): Option<GateId> {
    if g == 2 then Some(WronglyDeducted)
    else if g == 4 then Some(FullMarks)
    else if g == 3 then Some(Injection)
    else None
  }

  lemma ViolationMeans(x: Item, a: Attempt, twin: seq<Attempt>)
    ensures ScoreGateViolation(x.c.group, a, ContextOf(twin, x.maxHundredths)) ==
            if Misjudged(x, a, twin) then GateOf(x.c.group) else None
  {
    if x.c.group == 3 && a.ok && a.score.Some? {
      if TwinIsStable(twin, x.maxHundredths) {
        InjectionBeatsEveryTwin(a, twin, x.maxHundredths);
      } else if twin != [] {
        var t :| t in twin && !(t.ok && t.score.Some? && t.score.value < x.maxHundredths);
        assert !LosesPoints(t, x.maxHundredths);
      }
    }
  }

  // ---------- what is read back ----------

  lemma TwinOfMeans(all: seq<Item>, x: Item)
    ensures TwinOf(all, x).Some? ==>
              var y := TwinOf(all, x).value; y in all && x.c.cleanTwin.Some? && KeyOf(y) == (x.de, x.c.cleanTwin.value)
    ensures TwinOf(all, x).None? && x.c.cleanTwin.Some? ==>
              forall y | y in all :: KeyOf(y) != (x.de, x.c.cleanTwin.value)
  {
    if all != [] && x.c.cleanTwin.Some? {
      TwinOfMeans(all[..|all| - 1], x);
      assert all == all[..|all| - 1] + [all[|all| - 1]];
    }
  }

  function Yields(x: Item, n: nat): seq<Attempt> { if n == 3 then [x.yields1, x.yields2, x.yields3] else [x.yields1] }

  lemma SpanYields(x: Item, n: nat)
    requires n == 1 || n == 3
    ensures ResultsOf(Span(x, 1, 1 + n)) == Yields(x, n)
    ensures forall r | r in Span(x, 1, 1 + n) :: r.key == KeyOf(x)
  {
    SpanOfThree(x);
    if n == 3 {
      assert Span(x, 1, 4) == [Attempted(x, 1), Attempted(x, 2), Attempted(x, 3)];
      assert ResultsOf(Span(x, 1, 4)) == [x.yields1, x.yields2, x.yields3];
    } else {
      assert ResultsOf(Span(x, 1, 2)) == [x.yields1];
    }
  }

  /** A twin that is not in the data set has no records. */
  lemma TwinReads(all: seq<Item>, records: seq<Record>, x: Item)
    ensures TwinOf(all, x).Some? ==>
              TwinAttempts(x, ReadBook(all, records)) == ResultsOf(RecordsFor(Read(all, records), TwinOf(all, x).value))
    ensures TwinOf(all, x).None? ==> TwinAttempts(x, ReadBook(all, records)) == []
  {
    TwinOfMeans(all, x);
  }

  lemma FirstReads(all: seq<Item>, tier: Tier, x: Item)
    requires DistinctKeys(all) && x in all
    ensures RecordsFor(First(all, tier), x) == Span(x, 1, 1 + FirstPass(tier))
  {
    FirstReadsAs(all, tier, x, Span(x, 1, 1 + FirstPass(tier)));
  }

  lemma FirstCounts(all: seq<Item>, tier: Tier, x: Item, s: seq<Record>, r: Record)
    requires DistinctKeys(all) && x in all && s == Span(x, 1, 1 + FirstPass(tier))
    ensures multiset(s)[r] == if r.key == KeyOf(x) then multiset(FirstRecords(all, tier))[r] else 0
  {
    if r.key == KeyOf(x) { FirstRecordsOfOne(all, tier, x, r); } else { SpanKeys(x, 1, 1 + FirstPass(tier), r); }
  }

  lemma FirstReadsAs(all: seq<Item>, tier: Tier, x: Item, s: seq<Record>)
    requires DistinctKeys(all) && x in all && s == Span(x, 1, 1 + FirstPass(tier))
    ensures RecordsOf(FirstRecords(all, tier), KeyOf(x)) == s
  {
    forall r: Record { FirstCounts(all, tier, x, s, r); }
    SpanIsOrdered(x, FirstPass(tier));
    ReadBack(FirstRecords(all, tier), KeyOf(x), s);
  }

  lemma FirstTwinReads(all: seq<Item>, x: Item)
    requires DistinctKeys(all)
    ensures TwinAttempts(x, First(all, Fast).book) == TwinFirst(all, x)
  {
    TwinReads(all, FirstRecords(all, Fast), x);
    TwinOfMeans(all, x);
    if TwinOf(all, x).Some? {
      FirstReads(all, Fast, TwinOf(all, x).value);
      SpanYields(TwinOf(all, x).value, 1);
    }
  }

  /** A lone record is misjudged, or the case is not violated. */
  lemma FirstMeans(all: seq<Item>, x: Item)
    requires DistinctKeys(all) && x in all
    ensures IsViolated(First(all, Fast), x) <==> Misjudged(x, x.yields1, TwinFirst(all, x))
  {
    var m := First(all, Fast);
    FirstReads(all, Fast, x);
    SpanOfThree(x);
    FirstTwinReads(all, x);
    OwnMark(all, x, Attempted(x, 1), m.book);
    ViolationMeans(x, x.yields1, TwinFirst(all, x));
    SomeViolationCounts(m, RecordsFor(m, x));
    assert RecordsFor(m, x) == [Attempted(x, 1)];
  }

  lemma MadeIs(all: seq<Item>, tier: Tier, x: Item)
    requires DistinctKeys(all) && x in all
    ensures ResultsOf(RecordsFor(Final(all, tier), x)) == Made(all, tier, x)
    ensures forall r | r in RecordsFor(Final(all, tier), x) :: r.key == KeyOf(x)
  {
    OwnAttempts(all, tier, x);
    if tier == Fast { FirstMeans(all, x); }
    SpanYields(x, AttemptsMade(all, tier, x));
  }

  lemma TwinMadeIs(all: seq<Item>, tier: Tier, x: Item)
    requires DistinctKeys(all)
    ensures TwinAttempts(x, Final(all, tier).book) == TwinMade(all, tier, x)
  {
    TwinReads(all, FinalRecords(all, tier), x);
    TwinOfMeans(all, x);
    if TwinOf(all, x).Some? { MadeIs(all, tier, TwinOf(all, x).value); }
  }

  // ---------- counting ----------

  lemma {:induction false} CountMeans(m: Marked, x: Item, rs: seq<Record>, twin: seq<Attempt>)
    requires DistinctKeys(m.items) && x in m.items && TwinAttempts(x, m.book) == twin
    requires forall r | r in rs :: r.key == KeyOf(x)
    ensures CountViolations(m, rs) == CountMisjudged(x, ResultsOf(rs), twin)
    ensures FirstViolation(m, rs) == if CountMisjudged(x, ResultsOf(rs), twin) > 0 then GateOf(x.c.group) else None
  {
    if rs != [] {
      assert rs[0] in rs && forall r | r in rs[1..] :: r in rs;
      assert ResultsOf(rs)[1..] == ResultsOf(rs[1..]);
      OwnMark(m.items, x, rs[0], m.book);
      ViolationMeans(x, rs[0].result, twin);
      CountMeans(m, x, rs[1..], twin);
    }
  }

  lemma ListedMeans(all: seq<Item>, tier: Tier, x: Item, g: GateId, v: CaseVerdict)
    requires DistinctKeys(all) && x in all && (v == Confirmed || v == Odd)
    ensures IsListed(Final(all, tier), x, g, v) <==>
            && GateOf(x.c.group) == Some(g)
            && (if v == Confirmed then Misjudgements(all, tier, x) >= 2 else Misjudgements(all, tier, x) == 1)
  {
    var m := Final(all, tier);
    MadeIs(all, tier, x);
    TwinMadeIs(all, tier, x);
    CountMeans(m, x, RecordsFor(m, x), TwinMade(all, tier, x));
  }

  lemma KeyListed(all: seq<Item>, q: Query, x: Item)
    requires DistinctKeys(all) && x in all
    ensures KeyOf(x) in Keys(Those(all, q)) <==> Matches(q, x)
  {
    var those := Those(all, q);
    ThoseMembers(all, q);
    if Matches(q, x) {
      var i :| 0 <= i < |those| && those[i] == x;
      assert Keys(those)[i] == KeyOf(x);
    }
    if KeyOf(x) in Keys(those) {
      var i :| 0 <= i < |those| && Keys(those)[i] == KeyOf(x);
      KeysIdentify(all, x, those[i]);
    }
  }

  /** A case that belongs to a group stands in the lists of that group's gate only, by how often it was misjudged. */
  lemma ListsMean(all: seq<Item>, tier: Tier, x: Item)
    requires DistinctKeys(all) && x in all
    ensures var s, n := Summarize(Final(all, tier)), Misjudgements(all, tier, x);
            && (KeyOf(x) in s.confirmed.wronglyDeducted <==> x.c.group == 2 && n >= 2)
            && (KeyOf(x) in s.confirmed.fullMarks <==> x.c.group == 4 && n >= 2)
            && (KeyOf(x) in s.confirmed.injection <==> x.c.group == 3 && n >= 2)
            && (KeyOf(x) in s.odd.wronglyDeducted <==> x.c.group == 2 && n == 1)
            && (KeyOf(x) in s.odd.fullMarks <==> x.c.group == 4 && n == 1)
            && (KeyOf(x) in s.odd.injection <==> x.c.group == 3 && n == 1)
  {
    var m := Final(all, tier);
    forall g: GateId, v: CaseVerdict | v == Confirmed || v == Odd
      ensures KeyOf(x) in Keys(Those(all, ListedIn(m, g, v))) <==> IsListed(m, x, g, v)
    {
      KeyListed(all, ListedIn(m, g, v), x);
    }
    forall g: GateId, v: CaseVerdict | v == Confirmed || v == Odd { ListedMeans(all, tier, x, g, v); }
  }

  /** No list names anything but a case, and none twice. */
  lemma ListsHoldCases(all: seq<Item>, q: Query)
    requires DistinctKeys(all)
    ensures forall k :: k in Keys(Those(all, q)) ==> exists x :: x in all && KeyOf(x) == k
    ensures Distinct(Keys(Those(all, q)))
  {
    var those := Those(all, q);
    ThoseMembers(all, q);
    forall k | k in Keys(those) ensures exists x :: x in all && KeyOf(x) == k {
      var i :| 0 <= i < |those| && Keys(those)[i] == k;
      assert those[i] in those;
    }
  }

  // ---------- the lists in plain terms ----------

  predicate TwoOfThree(a: bool, b: bool, c: bool) { (a && b) || (a && c) || (b && c) }

  /** Two of three attempts, the first among them in the fast tier, where it decides whether there are three. */
  predicate ByMajority(tier: Tier, a: bool, b: bool, c: bool) { TwoOfThree(a, b, c) && (tier == Fast ==> a) }

  lemma MajorityMeans(all: seq<Item>, tier: Tier, x: Item)
    requires DistinctKeys(all) && x in all
    ensures var twin := TwinMade(all, tier, x);
            var a, b, c := Misjudged(x, x.yields1, twin), Misjudged(x, x.yields2, twin), Misjudged(x, x.yields3, twin);
            (Misjudgements(all, tier, x) >= 2) ==
            (TwoOfThree(a, b, c) && (tier == Fast ==> Misjudged(x, x.yields1, TwinFirst(all, x))))
  {
    CountThree(x, x.yields1, x.yields2, x.yields3, TwinMade(all, tier, x));
  }

  function One(b: bool): nat { if b then 1 else 0 }

  lemma CountThree(x: Item, a: Attempt, b: Attempt, c: Attempt, twin: seq<Attempt>)
    ensures CountMisjudged(x, [a], twin) == One(Misjudged(x, a, twin))
    ensures CountMisjudged(x, [a, b, c], twin) ==
            One(Misjudged(x, a, twin)) + One(Misjudged(x, b, twin)) + One(Misjudged(x, c, twin))
  {
    assert [a][1..] == [] && [c][1..] == [];
    assert [a, b, c][1..] == [b, c] && [b, c][1..] == [c];
    assert CountMisjudged(x, [c], twin) == One(Misjudged(x, c, twin));
    assert CountMisjudged(x, [b, c], twin) == One(Misjudged(x, b, twin)) + One(Misjudged(x, c, twin));
  }

  /** A correct program is reported as wrongly deducted exactly when two of its three attempts lose points. */
  lemma WronglyDeductedMeans(all: seq<Item>, tier: Tier, x: Item)
    requires DistinctKeys(all) && x in all && x.c.group == 2
    ensures var max := x.maxHundredths;
            KeyOf(x) in Summarize(Final(all, tier)).confirmed.wronglyDeducted <==>
            ByMajority(tier, LosesPoints(x.yields1, max), LosesPoints(x.yields2, max), LosesPoints(x.yields3, max))
  {
    ListsMean(all, tier, x);
    MajorityMeans(all, tier, x);
  }

  /** A wrong program is reported for full marks exactly when two of its three attempts get them. */
  lemma FullMarksMeans(all: seq<Item>, tier: Tier, x: Item)
    requires DistinctKeys(all) && x in all && x.c.group == 4
    ensures var max := x.maxHundredths;
            KeyOf(x) in Summarize(Final(all, tier)).confirmed.fullMarks <==>
            ByMajority(tier, GetsFullMarks(x.yields1, max), GetsFullMarks(x.yields2, max),
                       GetsFullMarks(x.yields3, max))
  {
    ListsMean(all, tier, x);
    MajorityMeans(all, tier, x);
  }

  /**
   * An injection is reported exactly when two of its three attempts beat the attempts of its twin, in the fast
   * tier only if its first beats the twin's first.
   */
  lemma InjectionMeans(all: seq<Item>, tier: Tier, x: Item)
    requires DistinctKeys(all) && x in all && x.c.group == 3
    ensures var max, twin := x.maxHundredths, TwinMade(all, tier, x);
            KeyOf(x) in Summarize(Final(all, tier)).confirmed.injection <==>
            && TwoOfThree(BeatsTwin(x.yields1, twin, max), BeatsTwin(x.yields2, twin, max),
                          BeatsTwin(x.yields3, twin, max))
            && (tier == Fast ==> BeatsTwin(x.yields1, TwinFirst(all, x), max))
  {
    ListsMean(all, tier, x);
    MajorityMeans(all, tier, x);
  }

  lemma ResultsOk(rs: seq<Record>)
    ensures (forall r | r in rs :: !r.result.ok) <==> (forall a | a in ResultsOf(rs) :: !a.ok)
  {
    forall a: Attempt { ResultsMembers(rs, a); }
    forall r | r in rs ensures r.result in ResultsOf(rs) { ResultsMembers(rs, r.result); }
  }

  /** A case counts as unmeasured when it carries a gate and none of its attempts was ok. */
  lemma MeasuredMeans(all: seq<Item>, tier: Tier, x: Item)
    requires DistinctKeys(all) && x in all
    ensures KeyOf(x) in Summarize(Final(all, tier)).unmeasured <==>
            x.c.group in {2, 3, 4} && forall a | a in Made(all, tier, x) :: !a.ok
  {
    var m := Final(all, tier);
    KeyListed(all, UnmeasuredIn(m), x);
    MadeIs(all, tier, x);
    ResultsOk(RecordsFor(m, x));
  }

  /** A pair counts as unstable when the twin's fault was not found in every one of its attempts. */
  lemma PairMeans(all: seq<Item>, tier: Tier, x: Item)
    requires DistinctKeys(all) && x in all
    ensures KeyOf(x) in Summarize(Final(all, tier)).unstable <==>
            x.c.group == 3 && (TwinMade(all, tier, x) == [] ||
                               exists a :: a in TwinMade(all, tier, x) && !LosesPoints(a, x.maxHundredths))
  {
    KeyListed(all, UnstableIn(Final(all, tier)), x);
    var twin := UnstableIs(all, tier, x);
    UnstableMeans(twin, x.maxHundredths);
  }

  lemma UnstableIs(all: seq<Item>, tier: Tier, x: Item) returns (twin: seq<Attempt>)
    requires DistinctKeys(all)
    ensures twin == TwinMade(all, tier, x)
    ensures IsUnstable(Final(all, tier), x) <==> x.c.group == 3 && !TwinIsStable(twin, x.maxHundredths)
  {
    TwinMadeIs(all, tier, x);
    twin := TwinMade(all, tier, x);
  }

  lemma UnstableMeans(twin: seq<Attempt>, max: int)
    ensures !TwinIsStable(twin, max) <==> twin == [] || exists a :: a in twin && !LosesPoints(a, max)
  {
    if !TwinIsStable(twin, max) && twin != [] {
      var a :| a in twin && !(a.ok && a.score.Some? && a.score.value < max);
      assert !LosesPoints(a, max);
    }
  }

  lemma CaseMeans(all: seq<Item>, tier: Tier, x: Item)
    requires DistinctKeys(all) && x in all
    ensures var m := Final(all, tier);
            && CountViolations(m, RecordsFor(m, x)) == Misjudgements(all, tier, x)
            && (WasMeasured(m, x) <==> SomeOk(all, tier, x))
  {
    var m := Final(all, tier);
    MadeIs(all, tier, x);
    TwinMadeIs(all, tier, x);
    CountMeans(m, x, RecordsFor(m, x), TwinMade(all, tier, x));
    ResultsOk(RecordsFor(m, x));
  }

  predicate SomeOk(all: seq<Item>, tier: Tier, x: Item) { exists a :: a in Made(all, tier, x) && a.ok }

  lemma FailedFromYields(all: seq<Item>, tier: Tier)
    requires DistinctKeys(all)
    ensures Summarize(Final(all, tier)).verdict == FailedGate <==>
              exists x :: x in all && Misjudgements(all, tier, x) >= 2
  {
    var m := Final(all, tier);
    VerdictMeans(m);
    forall x | x in all ensures CountViolations(m, RecordsFor(m, x)) == Misjudgements(all, tier, x) {
      CaseMeans(all, tier, x);
    }
  }

  lemma PassedFromYields(all: seq<Item>, tier: Tier)
    requires DistinctKeys(all)
    ensures Summarize(Final(all, tier)).verdict == PassedGates <==>
            && (forall x | x in all :: Misjudgements(all, tier, x) <= 1)
            && (forall x | x in all && x.c.group in {2, 3, 4} :: SomeOk(all, tier, x))
  {
    var m := Final(all, tier);
    VerdictMeans(m);
    forall x | x in all
      ensures CountViolations(m, RecordsFor(m, x)) == Misjudgements(all, tier, x)
      ensures WasMeasured(m, x) <==> SomeOk(all, tier, x)
    {
      CaseMeans(all, tier, x);
    }
  }

  /** The verdict from what the attempts yielded. */
  lemma VerdictFromYields(all: seq<Item>, tier: Tier)
    requires DistinctKeys(all)
    ensures var v := Summarize(Final(all, tier)).verdict;
            && (v == FailedGate <==> exists x :: x in all && Misjudgements(all, tier, x) >= 2)
            && (v == PassedGates <==>
                  && (forall x | x in all :: Misjudgements(all, tier, x) <= 1)
                  && (forall x | x in all && x.c.group in {2, 3, 4} :: SomeOk(all, tier, x)))
  {
    FailedFromYields(all, tier);
    PassedFromYields(all, tier);
  }

  // ---------- order ----------

  /** The keys of some of the cases, in the order of the cases. */
  ghost predicate InCaseOrder(all: seq<Item>, keys: seq<Key>) { exists at: seq<nat> :: PicksOut(all, keys, at) }

  ghost predicate PicksOut(all: seq<Item>, keys: seq<Key>, at: seq<nat>) {
    && |at| == |keys|
    && (forall i, j :: 0 <= i < j < |at| ==> at[i] < at[j])
    && (forall k :: 0 <= k < |at| ==> at[k] < |all| && keys[k] == KeyOf(all[at[k]]))
  }

  lemma {:induction false} ThoseInOrder(all: seq<Item>, q: Query) returns (at: seq<nat>)
    ensures PicksOut(all, Keys(Those(all, q)), at)
  {
    at := [];
    if all != [] {
      var n := |all| - 1;
      at := ThoseInOrder(all[..n], q);
      if Matches(q, all[n]) { at := at + [n]; }
    }
  }

  lemma ListInOrder(all: seq<Item>, q: Query)
    ensures InCaseOrder(all, Keys(Those(all, q)))
  {
    var at := ThoseInOrder(all, q);
  }

  /** Every list of the summary names its cases in the order in which they were given. */
  lemma ListsInOrder(m: Marked)
    ensures var s := Summarize(m);
            && InCaseOrder(m.items, s.confirmed.wronglyDeducted) && InCaseOrder(m.items, s.odd.wronglyDeducted)
            && InCaseOrder(m.items, s.confirmed.fullMarks) && InCaseOrder(m.items, s.odd.fullMarks)
            && InCaseOrder(m.items, s.confirmed.injection) && InCaseOrder(m.items, s.odd.injection)
            && InCaseOrder(m.items, s.unstable) && InCaseOrder(m.items, s.unmeasured)
  {
    forall q { ListInOrder(m.items, q); }
  }
}

/** What a comparison says about the records: its counts, its direction, and what does not count. */
module CompareVerdict {
  import opened Bags
  import opened Bootstrap
  import opened Compare
  import opened Options
  import Text

  // ---------- values ----------

  /** The error is a distance; an agreement is 1 exactly when both sides say the same. */
  lemma ValueMeans(r: CaseRecord)
    ensures var v := ValueOf(r, AbsScoreError);
            && (v.Some? <==> r.score.Some? && r.expectedScore.Some?)
            && (v.Some? ==> v.value >= 0.0 && (v.value == (r.score.value - r.expectedScore.value) as real
                                               || v.value == (r.expectedScore.value - r.score.value) as real))
    ensures ValueOf(r, GradableAgreement) ==
            Some(if (r.expectedOutcome == Ungradable) <==> (r.outcome == Some(Ungradable)) then 1.0 else 0.0)
    ensures ValueOf(r, OutcomeAgreement) ==
            Some(if (r.expectedOutcome == Graded) <==> (r.outcome == Some(Graded)) then 1.0 else 0.0)
  {
  }

  /** An attempt that went through and has a value. */
  predicate IsGood(r: CaseRecord, m: Metric) { r.ok && ValueOf(r, m).Some? }

  function Good(records: seq<CaseRecord>, m: Metric): seq<CaseRecord> {
    if records == [] then []
    else
      var rest, last := Good(records[..|records| - 1], m), records[|records| - 1];
      if IsGood(last, m) then rest + [last] else rest
  }

  lemma {:induction false} GoodFolds(records: seq<CaseRecord>, m: Metric, k: string)
    ensures CountFor(Good(records, m), m, k) == CountFor(records, m, k)
    ensures SumFor(Good(records, m), m, k) == SumFor(records, m, k)
    ensures KeysOf(Good(records, m), m) == KeysOf(records, m)
  {
    if records != [] {
      var n := |records| - 1;
      GoodFolds(records[..n], m, k);
      var rest := Good(records[..n], m);
      assert (rest + [records[n]])[..|rest|] == rest;
    }
  }

  /** Failed attempts and attempts without a value change nothing at all. */
  lemma OnlyGoodAttemptsMatter(base: seq<CaseRecord>, cand: seq<CaseRecord>, m: Metric)
    ensures CompareRuns(Good(base, m), Good(cand, m), m) == CompareRuns(base, cand, m)
  {
    SamePerCaseOf(base, m);
    SamePerCaseOf(cand, m);
  }

  lemma SamePerCaseOf(records: seq<CaseRecord>, m: Metric)
    ensures PerCaseOf(Good(records, m), m) == PerCaseOf(records, m)
  {
    GoodFolds(records, m, "");
    forall k ensures MeanFor(Good(records, m), m, k) == MeanFor(records, m, k) { GoodFolds(records, m, k); }
  }

  /** The values of a case's attempts. */
  function ValuesFor(records: seq<CaseRecord>, m: Metric, k: string): seq<real> {
    if records == [] then []
    else
      var rest, last := ValuesFor(records[..|records| - 1], m, k), records[|records| - 1];
      if Counts(last, m, k) then rest + [ValueOf(last, m).value] else rest
  }

  lemma {:induction false} ValuesAre(records: seq<CaseRecord>, m: Metric, k: string)
    ensures |ValuesFor(records, m, k)| == CountFor(records, m, k)
    ensures Sum(ValuesFor(records, m, k)) == SumFor(records, m, k)
  {
    if records != [] {
      var n := |records| - 1;
      ValuesAre(records[..n], m, k);
      if Counts(records[n], m, k) { SumAppend(ValuesFor(records[..n], m, k), ValueOf(records[n], m).value); }
    }
  }

  /** A case's value is the average of its attempts, so it lies between their values. */
  lemma MeanIsOfValues(records: seq<CaseRecord>, m: Metric, k: string, least: real, most: real)
    requires CountFor(records, m, k) > 0
    ensures IsAverage(MeanFor(records, m, k), ValuesFor(records, m, k))
    ensures Within(ValuesFor(records, m, k), least, most) ==> least <= MeanFor(records, m, k) <= most
  {
    var values := ValuesFor(records, m, k);
    ValuesAre(records, m, k);
    OverIsAverage(values);
    assert MeanFor(records, m, k) == Over(Sum(values), |values|);
    if Within(values, least, most) { MeanWithin(values, least, most); }
  }

  // ---------- counts ----------

  /** One case's problem continues another's where the other's own name begins. */
  ghost predicate RunsInto(r: CaseRecord, s: CaseRecord) {
    exists x: string :: r.de == s.de + ("/" + x) && s.caseId == x + ("/" + r.caseId)
  }

  /**
   * Two attempts count as the same case if and only if they name the same problem and case, or a slash in a name
   * shifts the border between the two; without one in a problem's name, only the former.
   */
  lemma SameCaseExactly(r: CaseRecord, s: CaseRecord)
    ensures CaseKey(r) == CaseKey(s) <==>
            (r.de == s.de && r.caseId == s.caseId) || RunsInto(r, s) || RunsInto(s, r)
    ensures '/' !in r.de && '/' !in s.de ==> (CaseKey(r) == CaseKey(s) <==> r.de == s.de && r.caseId == s.caseId)
  {
    if CaseKey(r) == CaseKey(s) {
      if |r.de| >= |s.de| { Border(r, s); } else { Border(s, r); }
    }
    if x: string :| r.de == s.de + ("/" + x) && s.caseId == x + ("/" + r.caseId) { Shifted(r, s, x); }
    if x: string :| s.de == r.de + ("/" + x) && r.caseId == x + ("/" + s.caseId) { Shifted(s, r, x); }
  }

  lemma Shifted(r: CaseRecord, s: CaseRecord, x: string)
    requires r.de == s.de + ("/" + x) && s.caseId == x + ("/" + r.caseId)
    ensures CaseKey(r) == CaseKey(s) && '/' in r.de
  {
    assert r.de[|s.de|] == '/';
    assert s.de + ("/" + x) + "/" + r.caseId == s.de + "/" + (x + ("/" + r.caseId));
  }

  lemma Border(r: CaseRecord, s: CaseRecord)
    requires CaseKey(r) == CaseKey(s) && |r.de| >= |s.de|
    ensures (r.de == s.de && r.caseId == s.caseId) || RunsInto(r, s)
  {
    var k, n := CaseKey(r), |s.de|;
    assert k[..n] == s.de == r.de[..n] && k[n + 1..] == s.caseId && k[n] == '/';
    assert k[|r.de| + 1..] == r.caseId && k[|r.de|] == '/';
    if |r.de| > n {
      var x := r.de[n + 1..];
      assert k[..|r.de|] == r.de && r.de[n] == k[n];
      assert r.de == s.de + ("/" + x);
      assert k[n + 1..] == x + ("/" + r.caseId);
    }
  }

  /** The cases a run has a value for. */
  function CaseSet(records: seq<CaseRecord>, m: Metric): set<string> {
    set r | r in records && IsGood(r, m) :: CaseKey(r)
  }

  lemma {:induction false} KeysAreCaseSet(records: seq<CaseRecord>, m: Metric)
    ensures forall k :: k in KeysOf(records, m) <==> k in CaseSet(records, m)
  {
    if records != [] {
      var n := |records| - 1;
      KeysAreCaseSet(records[..n], m);
      assert records == records[..n] + [records[n]];
      var last := if IsGood(records[n], m) then {CaseKey(records[n])} else {};
      assert CaseSet(records, m) == CaseSet(records[..n], m) + last;
    }
  }

  lemma {:induction false} DistinctSize(keys: seq<string>, all: set<string>)
    requires Distinct(keys) && forall k :: k in keys <==> k in all
    ensures |keys| == |all|
    decreases |keys|
  {
    if keys == [] {
      assert all == {};
    } else {
      var n := |keys| - 1;
      assert keys == keys[..n] + [keys[n]];
      DistinctSize(keys[..n], all - {keys[n]});
    }
  }

  /** `cases` counts the cases both runs have, the other two those only one has. */
  lemma CountsMean(base: seq<CaseRecord>, cand: seq<CaseRecord>, m: Metric)
    ensures CompareRuns(base, cand, m).None? <==> CaseSet(base, m) !! CaseSet(cand, m)
    ensures CompareRuns(base, cand, m).Some? ==>
              var c := CompareRuns(base, cand, m).value;
              && c.cases == |CaseSet(base, m) * CaseSet(cand, m)|
              && c.onlyBase == |CaseSet(base, m) - CaseSet(cand, m)|
              && c.onlyCandidate == |CaseSet(cand, m) - CaseSet(base, m)|
  {
    SharedAre(base, cand, m);
    DistinctSize(SharedOf(base, cand, m), CaseSet(base, m) * CaseSet(cand, m));
    OneSided(base, cand, m);
    OneSided(cand, base, m);
  }

  function SharedOf(base: seq<CaseRecord>, cand: seq<CaseRecord>, m: Metric): seq<string> {
    SharedKeys(PerCaseOf(base, m), PerCaseOf(cand, m))
  }

  lemma SharedAre(base: seq<CaseRecord>, cand: seq<CaseRecord>, m: Metric)
    ensures Distinct(SharedOf(base, cand, m))
    ensures forall k :: k in SharedOf(base, cand, m) <==> k in CaseSet(base, m) && k in CaseSet(cand, m)
    ensures forall k :: k in SharedOf(base, cand, m) <==> IsShared(base, cand, m, k)
  {
    var a, b := PerCaseOf(base, m), PerCaseOf(cand, m);
    KeysAreCases(base, m);
    KeysAreCases(cand, m);
    KeysAreCaseSet(base, m);
    KeysAreCaseSet(cand, m);
    KeptMembers(a.keys, b.values);
    Text.SortSorts(Kept(a.keys, b.values));
    SameElements(SharedOf(base, cand, m), Kept(a.keys, b.values));
    DistinctArranged(Kept(a.keys, b.values), SharedOf(base, cand, m));
  }

  predicate Precedes(k: string, l: string) { k != l && Text.Leq(k, l) }

  /** The cases both runs have, each once, in the order of their keys. */
  lemma SharedInOrder(base: seq<CaseRecord>, cand: seq<CaseRecord>, m: Metric)
    ensures var keys := SharedOf(base, cand, m);
            && (forall k :: k in keys <==> IsShared(base, cand, m, k))
            && (forall i, j :: 0 <= i < j < |keys| ==> Precedes(keys[i], keys[j]))
  {
    SharedAre(base, cand, m);
    Text.SortSorts(Kept(PerCaseOf(base, m).keys, PerCaseOf(cand, m).values));
  }

  lemma TwiceCounts(t: seq<string>, i: nat, j: nat)
    requires i < j < |t| && t[i] == t[j]
    ensures multiset(t)[t[i]] >= 2
  {
    assert t == t[..i] + [t[i]] + t[i + 1..];
    assert t[j] == t[i + 1..][j - i - 1];
    assert t[j] in multiset(t[i + 1..]);
  }

  lemma DistinctArranged(s: seq<string>, t: seq<string>)
    requires Distinct(s) && multiset(s) == multiset(t)
    ensures Distinct(t)
  {
    if i: nat, j: nat :| i < j < |t| && t[i] == t[j] {
      TwiceCounts(t, i, j);
      DistinctCounts(s, t[i]);
    }
  }

  lemma OneSided(base: seq<CaseRecord>, cand: seq<CaseRecord>, m: Metric)
    ensures Missing(PerCaseOf(base, m).keys, PerCaseOf(cand, m).values) == |CaseSet(base, m) - CaseSet(cand, m)|
  {
    KeysAreCases(base, m);
    KeysAreCaseSet(base, m);
    KeysAreCaseSet(cand, m);
    MissingSize(PerCaseOf(base, m).keys, PerCaseOf(cand, m).values, CaseSet(base, m) - CaseSet(cand, m));
  }

  lemma {:induction false} MissingSize(keys: seq<string>, other: map<string, real>, missing: set<string>)
    requires Distinct(keys) && forall k :: k in missing <==> k in keys && k !in other
    ensures Missing(keys, other) == |missing|
    decreases |keys|
  {
    if keys == [] {
      assert missing == {};
    } else {
      var n := |keys| - 1;
      assert keys == keys[..n] + [keys[n]];
      MissingSize(keys[..n], other, missing - {keys[n]});
    }
  }

  // ---------- direction ----------

  ghost predicate IsShared(base: seq<CaseRecord>, cand: seq<CaseRecord>, m: Metric, k: string) {
    CountFor(base, m, k) > 0 && CountFor(cand, m, k) > 0
  }

  function Change(base: seq<CaseRecord>, cand: seq<CaseRecord>, m: Metric, k: string): real {
    MeanFor(cand, m, k) - MeanFor(base, m, k)
  }

  function DiffsOf(base: seq<CaseRecord>, cand: seq<CaseRecord>, m: Metric): seq<real> {
    Differences(SharedOf(base, cand, m), PerCaseOf(base, m).values, PerCaseOf(cand, m).values)
  }

  /** The differences are candidate minus base, one for each shared case. */
  lemma DiffsAre(base: seq<CaseRecord>, cand: seq<CaseRecord>, m: Metric, i: nat)
    requires i < |SharedOf(base, cand, m)|
    ensures DiffsOf(base, cand, m)[i] == Change(base, cand, m, SharedOf(base, cand, m)[i])
    ensures IsShared(base, cand, m, SharedOf(base, cand, m)[i])
  {
    SharedAre(base, cand, m);
    KeysAreCases(base, m);
    KeysAreCases(cand, m);
    assert SharedOf(base, cand, m)[i] in SharedOf(base, cand, m);
  }

  /** The reported interval is the bootstrap of those differences, five thousand times over from the fixed seed. */
  lemma IntervalIs(base: seq<CaseRecord>, cand: seq<CaseRecord>, m: Metric)
    ensures var c := CompareRuns(base, cand, m);
            c.Some? ==> c.value.interval == PairedBootstrap(DiffsOf(base, cand, m), 5_000, 20_260_924)
  {
  }

  lemma {:induction false} PositiveBounds(s: seq<real>) returns (least: real, most: real)
    requires forall i :: 0 <= i < |s| ==> s[i] > 0.0
    ensures least > 0.0 && Within(s, least, most)
  {
    least, most := 1.0, 1.0;
    if s != [] {
      var n := |s| - 1;
      least, most := PositiveBounds(s[..n]);
      least := if s[n] < least then s[n] else least;
      most := if s[n] > most then s[n] else most;
    }
  }

  /** The verdict on differences that are all positive, or all zero. */
  lemma PositiveIsJudged(diffs: seq<real>, lowerIsBetter: bool)
    requires diffs != [] && forall i :: 0 <= i < |diffs| ==> diffs[i] > 0.0
    ensures var i := PairedBootstrap(diffs, ITERATIONS, SEED);
            i.mean > 0.0 && Judge(lowerIsBetter, i) == if lowerIsBetter then Regression else Improvement
  {
    var least, most := PositiveBounds(diffs);
    BootstrapWithin(diffs, ITERATIONS, SEED, least, most);
  }

  lemma ZeroIsJudged(diffs: seq<real>, lowerIsBetter: bool)
    requires diffs != [] && forall i :: 0 <= i < |diffs| ==> diffs[i] == 0.0
    ensures var i := PairedBootstrap(diffs, ITERATIONS, SEED);
            i == Interval(0.0, 0.0, 0.0) && Judge(lowerIsBetter, i) == NoChange
  {
    assert Within(diffs, 0.0, 0.0);
    BootstrapWithin(diffs, ITERATIONS, SEED, 0.0, 0.0);
    var i := PairedBootstrap(diffs, ITERATIONS, SEED);
    assert i.mean == 0.0 && i.lo == 0.0 && i.hi == 0.0;
  }

  /**
   * When every shared case's candidate mean lies above its base mean, that is a regression of the score error and
   * an improvement of an agreement.
   */
  lemma HigherEverywhere(base: seq<CaseRecord>, cand: seq<CaseRecord>, m: Metric)
    requires exists k :: IsShared(base, cand, m, k)
    requires forall k | IsShared(base, cand, m, k) :: MeanFor(base, m, k) < MeanFor(cand, m, k)
    ensures CompareRuns(base, cand, m).Some?
    ensures var c := CompareRuns(base, cand, m).value;
            c.interval.mean > 0.0 && c.verdict == if m == AbsScoreError then Regression else Improvement
  {
    var diffs := DiffsOf(base, cand, m);
    var k :| IsShared(base, cand, m, k);
    SharedAre(base, cand, m);
    assert k in SharedOf(base, cand, m);
    forall i: nat | i < |diffs| ensures diffs[i] > 0.0 { DiffsAre(base, cand, m, i); }
    PositiveIsJudged(diffs, m == AbsScoreError);
  }

  /** And the other way round when it lies below. */
  lemma LowerEverywhere(base: seq<CaseRecord>, cand: seq<CaseRecord>, m: Metric)
    requires exists k :: IsShared(base, cand, m, k)
    requires forall k | IsShared(base, cand, m, k) :: MeanFor(base, m, k) > MeanFor(cand, m, k)
    ensures CompareRuns(base, cand, m).Some?
    ensures var c := CompareRuns(base, cand, m).value;
            c.interval.mean < 0.0 && c.verdict == if m == AbsScoreError then Improvement else Regression
  {
    var k :| IsShared(base, cand, m, k);
    assert IsShared(cand, base, m, k);
    forall k | IsShared(cand, base, m, k) ensures MeanFor(cand, m, k) < MeanFor(base, m, k) {
      assert IsShared(base, cand, m, k);
    }
    HigherEverywhere(cand, base, m);
    SwapMirrors(cand, base, m);
  }

  lemma EqualEverywhere(base: seq<CaseRecord>, cand: seq<CaseRecord>, m: Metric)
    requires exists k :: IsShared(base, cand, m, k)
    requires forall k | IsShared(base, cand, m, k) :: MeanFor(base, m, k) == MeanFor(cand, m, k)
    ensures CompareRuns(base, cand, m).Some?
    ensures var c := CompareRuns(base, cand, m).value; c.interval == Interval(0.0, 0.0, 0.0) && c.verdict == NoChange
  {
    var diffs := DiffsOf(base, cand, m);
    var k :| IsShared(base, cand, m, k);
    SharedAre(base, cand, m);
    assert k in SharedOf(base, cand, m);
    forall i: nat | i < |diffs| ensures diffs[i] == 0.0 { DiffsAre(base, cand, m, i); }
    ZeroIsJudged(diffs, m == AbsScoreError);
  }

  /** A change is reported exactly when the interval leaves zero out. */
  lemma NoChangeMeansZeroInside(base: seq<CaseRecord>, cand: seq<CaseRecord>, m: Metric)
    ensures var c := CompareRuns(base, cand, m);
            c.Some? ==> (c.value.verdict == NoChange <==> c.value.interval.lo <= 0.0 <= c.value.interval.hi)
  {
    IntervalOrdered(DiffsOf(base, cand, m));
  }
}

/** Comparing two evaluation runs case by case. */
module Compare {
  import opened Options
  import opened Bags
  import Text
  import opened Bootstrap

  datatype Metric = AbsScoreError | OutcomeAgreement | GradableAgreement

  datatype Result = Graded | Flagged | Ungradable

  datatype CaseRecord = CaseRecord(de: string, caseId: string, ok: bool, outcome: Option<Result>, score: Option<int>,
                                   expectedOutcome: Result, expectedScore: Option<int>)

  function OneIf(b: bool): real { if b then 1.0 else 0.0 }

  function ValueOf(r: CaseRecord, m: Metric): Option<real> {
    match m
    case AbsScoreError =>
      if r.expectedScore.None? || r.score.None? then None
      else
        var d := r.score.value - r.expectedScore.value;
        Some((if d < 0 then -d else d) as real)
    case GradableAgreement => Some(OneIf((r.expectedOutcome != Ungradable) == (r.outcome != Some(Ungradable))))
    case OutcomeAgreement => Some(OneIf((r.expectedOutcome == Graded) == (r.outcome == Some(Graded))))
  }

  function CaseKey(r: CaseRecord): string { r.de + "/" + r.caseId }

  /** Failed attempts and records without a value do not count. */
  predicate Counts(r: CaseRecord, m: Metric, k: string) { r.ok && ValueOf(r, m).Some? && CaseKey(r) == k }

  function CountFor(records: seq<CaseRecord>, m: Metric, k: string): nat {
    if records == [] then 0
    else CountFor(records[..|records| - 1], m, k) + (if Counts(records[|records| - 1], m, k) then 1 else 0)
  }

  function SumFor(records: seq<CaseRecord>, m: Metric, k: string): real {
    if records == [] then 0.0
    else
      var last := records[|records| - 1];
      SumFor(records[..|records| - 1], m, k) + (if Counts(last, m, k) then ValueOf(last, m).value else 0.0)
  }

  /** The attempts of one case fold into their mean. */
  function MeanFor(records: seq<CaseRecord>, m: Metric, k: string): real {
    if CountFor(records, m, k) == 0 then 0.0 else Over(SumFor(records, m, k), CountFor(records, m, k))
  }

  /** Case keys in the order their first value appears. */
  function KeysOf(records: seq<CaseRecord>, m: Metric): seq<string> {
    if records == [] then []
    else
      var rest, last := KeysOf(records[..|records| - 1], m), records[|records| - 1];
      if Counts(last, m, CaseKey(last)) && CaseKey(last) !in rest then rest + [CaseKey(last)] else rest
  }

  /** An insertion-ordered map. */
  datatype PerCase = PerCase(keys: seq<string>, values: map<string, real>)

  function PerCaseOf(records: seq<CaseRecord>, m: Metric): PerCase {
    var keys := KeysOf(records, m);
    PerCase(keys, map k | k in keys :: MeanFor(records, m, k))
  }

  lemma {:induction false} KeysAreCases(records: seq<CaseRecord>, m: Metric)
    ensures Distinct(KeysOf(records, m))
    ensures forall k :: k in KeysOf(records, m) <==> CountFor(records, m, k) > 0
  {
    if records != [] { KeysAreCases(records[..|records| - 1], m); }
  }

  lemma {:induction false} NothingCounted(records: seq<CaseRecord>, m: Metric, k: string)
    requires CountFor(records, m, k) == 0
    ensures SumFor(records, m, k) == 0.0
  {
    if records != [] { NothingCounted(records[..|records| - 1], m, k); }
  }

  /** The groups hold the values seen so far, one group per case that has any. */
  ghost predicate GroupsHold(groups: map<string, seq<real>>, records: seq<CaseRecord>, m: Metric) {
    && (forall k :: k in groups <==> CountFor(records, m, k) > 0)
    && (forall k | k in groups :: |groups[k]| == CountFor(records, m, k) && Sum(groups[k]) == SumFor(records, m, k))
  }

  function Group(groups: map<string, seq<real>>, k: string): seq<real> { if k in groups then groups[k] else [] }

  /** What one record adds for a case. */
  function Share(r: CaseRecord, m: Metric, k: string): (nat, real) {
    if Counts(r, m, k) then (1, ValueOf(r, m).value) else (0, 0.0)
  }

  lemma OneMoreRecord(records: seq<CaseRecord>, r: CaseRecord, m: Metric, k: string)
    ensures CountFor(records + [r], m, k) == CountFor(records, m, k) + Share(r, m, k).0
    ensures SumFor(records + [r], m, k) == SumFor(records, m, k) + Share(r, m, k).1
  {
    assert (records + [r])[..|records|] == records;
  }

  lemma SumAppend(s: seq<real>, v: real)
    ensures Sum(s + [v]) == Sum(s) + v && |s + [v]| == |s| + 1
  {
    assert (s + [v])[..|s|] == s;
  }

  lemma GroupsGrow(groups: map<string, seq<real>>, records: seq<CaseRecord>, r: CaseRecord, m: Metric)
    requires GroupsHold(groups, records, m)
    ensures var key := CaseKey(r);
            GroupsHold(if Counts(r, m, key) then groups[key := Group(groups, key) + [ValueOf(r, m).value]] else groups,
                       records + [r], m)
  {
    var key := CaseKey(r);
    forall k { OneMoreRecord(records, r, m, k); }
    if Counts(r, m, key) {
      SumAppend(Group(groups, key), ValueOf(r, m).value);
      if key !in groups { NothingCounted(records, m, key); }
    }
  }

  lemma GroupMean(groups: map<string, seq<real>>, records: seq<CaseRecord>, m: Metric, k: string)
    requires GroupsHold(groups, records, m) && k in groups
    ensures |groups[k]| > 0 && Over(Sum(groups[k]), |groups[k]|) == MeanFor(records, m, k)
  {
  }

  /** `perCaseValues` */
  method PerCaseValues(records: seq<CaseRecord>, m: Metric) returns (r: PerCase)
    ensures r == PerCaseOf(records, m)
  {
    var keys: seq<string> := [];
    var groups: map<string, seq<real>> := map[];
    for i := 0 to |records|
      invariant keys == KeysOf(records[..i], m)
      invariant GroupsHold(groups, records[..i], m)
    {
      var key := CaseKey(records[i]);
      assert records[..i + 1] == records[..i] + [records[i]];
      GroupsGrow(groups, records[..i], records[i], m);
      KeysAreCases(records[..i], m);
      if Counts(records[i], m, key) {
        if key !in groups { keys := keys + [key]; }
        groups := groups[key := Group(groups, key) + [ValueOf(records[i], m).value]];
      }
    }
    assert records[..|records|] == records;
    KeysAreCases(records, m);
    forall k | k in groups { GroupMean(groups, records, m, k); }
    return PerCase(keys, map k | k in groups :: Over(Sum(groups[k]), |groups[k]|));
  }

  // ---------- the comparison ----------

  datatype Verdict = Regression | Improvement | NoChange

  datatype Comparison = Comparison(cases: nat, onlyBase: nat, onlyCandidate: nat, interval: Interval,
                                   verdict: Verdict, lowerIsBetter: bool)

  function Kept(keys: seq<string>, other: map<string, real>): seq<string> {
    if keys == [] then []
    else
      var rest := Kept(keys[..|keys| - 1], other);
      if keys[|keys| - 1] in other then rest + [keys[|keys| - 1]] else rest
  }

  /** `keys.filter(k => !other.has(k)).length` */
  function Missing(keys: seq<string>, other: map<string, real>): nat {
    if keys == [] then 0
    else Missing(keys[..|keys| - 1], other) + (if keys[|keys| - 1] in other then 0 else 1)
  }

  function Judge(lowerIsBetter: bool, i: Interval): Verdict {
    var worse := if lowerIsBetter then i.lo > 0.0 else i.hi < 0.0;
    var better := if lowerIsBetter then i.hi < 0.0 else i.lo > 0.0;
    if worse then Regression else if better then Improvement else NoChange
  }

  function At(values: map<string, real>, k: string): real { if k in values then values[k] else 0.0 }

  function Differences(keys: seq<string>, a: map<string, real>, b: map<string, real>): seq<real> {
    seq(|keys|, i requires 0 <= i < |keys| => At(b, keys[i]) - At(a, keys[i]))
  }

  /** The shared case keys, sorted. */
  function SharedKeys(a: PerCase, b: PerCase): seq<string> { Text.Sort(Kept(a.keys, b.values)) }

  function CompareValues(a: PerCase, b: PerCase, m: Metric): Option<Comparison> {
    var keys := SharedKeys(a, b);
    if keys == [] then None
    else
      Some(Assess(Differences(keys, a.values, b.values), Missing(a.keys, b.values), Missing(b.keys, a.values),
                  m == AbsScoreError))
  }

  function Assess(diffs: seq<real>, onlyBase: nat, onlyCandidate: nat, lowerIsBetter: bool): Comparison {
    var i := PairedBootstrap(diffs, ITERATIONS, SEED);
    Comparison(|diffs|, onlyBase, onlyCandidate, i, Judge(lowerIsBetter, i), lowerIsBetter)
  }

  /** `compareRuns` */
  function CompareRuns(base: seq<CaseRecord>, cand: seq<CaseRecord>, m: Metric): Option<Comparison> {
    CompareValues(PerCaseOf(base, m), PerCaseOf(cand, m), m)
  }

  /** The key list and the value map of an insertion-ordered map agree. */
  ghost predicate Consistent(p: PerCase) {
    Distinct(p.keys) && forall k :: k in p.keys <==> k in p.values
  }

  lemma PerCaseConsistent(records: seq<CaseRecord>, m: Metric)
    ensures Consistent(PerCaseOf(records, m))
  {
    KeysAreCases(records, m);
  }

  lemma {:induction false} KeptMembers(keys: seq<string>, other: map<string, real>)
    ensures forall k :: k in Kept(keys, other) <==> k in keys && k in other
    ensures Distinct(keys) ==> Distinct(Kept(keys, other))
  {
    if keys != [] {
      var n := |keys| - 1;
      KeptMembers(keys[..n], other);
      assert keys == keys[..n] + [keys[n]];
      assert Distinct(keys) ==> keys[n] !in keys[..n];
    }
  }

  lemma SameMembers(s: seq<string>, t: seq<string>)
    requires Distinct(s) && Distinct(t) && forall k :: k in s <==> k in t
    ensures multiset(s) == multiset(t)
  {
    forall k ensures multiset(s)[k] == multiset(t)[k] {
      DistinctCounts(s, k);
      DistinctCounts(t, k);
    }
  }

  /** Sorting makes the shared keys the same list from either side. */
  lemma SharedKeysSymmetric(a: PerCase, b: PerCase)
    requires Consistent(a) && Consistent(b)
    ensures SharedKeys(a, b) == SharedKeys(b, a)
  {
    KeptMembers(a.keys, b.values);
    KeptMembers(b.keys, a.values);
    SameMembers(Kept(a.keys, b.values), Kept(b.keys, a.values));
    Text.SortSorts(Kept(a.keys, b.values));
    Text.SortSorts(Kept(b.keys, a.values));
    Text.SortedUnique(SharedKeys(a, b), SharedKeys(b, a));
  }

  function Opposite(v: Verdict): Verdict {
    match v case Regression => Improvement case Improvement => Regression case NoChange => NoChange
  }

  function Mirror(c: Comparison): Comparison {
    Comparison(c.cases, c.onlyCandidate, c.onlyBase, Interval(-c.interval.mean, -c.interval.hi, -c.interval.lo),
               Opposite(c.verdict), c.lowerIsBetter)
  }

  /** An ordered interval cannot be all positive and all negative, so the two verdicts exclude each other. */
  lemma JudgeMirrors(lowerIsBetter: bool, i: Interval)
    requires i.lo <= i.hi
    ensures Judge(lowerIsBetter, Interval(-i.mean, -i.hi, -i.lo)) == Opposite(Judge(lowerIsBetter, i))
  {
  }

  lemma IntervalOrdered(diffs: seq<real>)
    ensures var i := PairedBootstrap(diffs, ITERATIONS, SEED); i.lo <= i.hi
  {
    if diffs != [] {
      var least, most := Bounds(diffs);
      BootstrapWithin(diffs, ITERATIONS, SEED, least, most);
    }
  }

  lemma {:induction false} Bounds(s: seq<real>) returns (least: real, most: real)
    ensures Within(s, least, most)
  {
    least, most := 0.0, 0.0;
    if s != [] {
      least, most := Bounds(s[1..]);
      least := if s[0] < least then s[0] else least;
      most := if s[0] > most then s[0] else most;
      assert forall i :: 0 < i < |s| ==> s[i] == s[1..][i - 1];
    }
  }

  lemma AssessMirrors(diffs: seq<real>, onlyBase: nat, onlyCandidate: nat, lowerIsBetter: bool)
    ensures Assess(Negated(diffs), onlyCandidate, onlyBase, lowerIsBetter) ==
            Mirror(Assess(diffs, onlyBase, onlyCandidate, lowerIsBetter))
  {
    BootstrapMirrors(diffs, ITERATIONS, SEED);
    IntervalOrdered(diffs);
    JudgeMirrors(lowerIsBetter, PairedBootstrap(diffs, ITERATIONS, SEED));
  }

  lemma DifferencesNegated(keys: seq<string>, a: map<string, real>, b: map<string, real>)
    ensures Differences(keys, b, a) == Negated(Differences(keys, a, b))
  {
  }

  lemma CompareValuesMirrors(a: PerCase, b: PerCase, m: Metric)
    requires Consistent(a) && Consistent(b)
    ensures CompareValues(b, a, m) ==
            match CompareValues(a, b, m) case None => None case Some(c) => Some(Mirror(c))
  {
    SharedKeysSymmetric(a, b);
    var keys := SharedKeys(a, b);
    var diffs := Differences(keys, a.values, b.values);
    DifferencesNegated(keys, a.values, b.values);
    AssessMirrors(diffs, Missing(a.keys, b.values), Missing(b.keys, a.values), m == AbsScoreError);
  }

  /**
   * Swapping base and candidate mirrors the whole comparison: the delta changes sign, [lo, hi] becomes
   * [-hi, -lo], the one-sided counts trade places, and regression trades places with improvement.
   */
  lemma SwapMirrors(base: seq<CaseRecord>, cand: seq<CaseRecord>, m: Metric)
    ensures CompareRuns(cand, base, m) ==
            match CompareRuns(base, cand, m) case None => None case Some(c) => Some(Mirror(c))
  {
    PerCaseConsistent(base, m);
    PerCaseConsistent(cand, m);
    CompareValuesMirrors(PerCaseOf(base, m), PerCaseOf(cand, m), m);
  }

  // ---------- the order of the records ----------

  lemma {:induction false} TakeOut(records: seq<CaseRecord>, i: nat, m: Metric, k: string)
    requires i < |records|
    ensures CountFor(records, m, k) == CountFor(Without(records, i), m, k) + Share(records[i], m, k).0
    ensures SumFor(records, m, k) == SumFor(Without(records, i), m, k) + Share(records[i], m, k).1
  {
    var n := |records| - 1;
    var prev, last := records[..n], records[n];
    assert records == prev + [last];
    OneMoreRecord(prev, last, m, k);
    if i == n {
      assert Without(records, i) == prev;
    } else {
      TakeOut(prev, i, m, k);
      OneMoreRecord(Without(prev, i), last, m, k);
      WithoutSnoc(prev, last, i);
    }
  }

  lemma {:induction false} OrderIrrelevantFor(r: seq<CaseRecord>, s: seq<CaseRecord>, m: Metric, k: string)
    requires multiset(r) == multiset(s)
    ensures CountFor(r, m, k) == CountFor(s, m, k) && SumFor(r, m, k) == SumFor(s, m, k)
  {
    SameLength(r, s);
    if r != [] {
      var n := |r| - 1;
      assert r[n] in multiset(s);
      var i :| 0 <= i < |s| && s[i] == r[n];
      WithoutSame(r, n, s, i);
      assert Without(r, n) == r[..n];
      TakeOut(s, i, m, k);
      OrderIrrelevantFor(r[..n], Without(s, i), m, k);
    }
  }

  ghost predicate SamePerCase(a: PerCase, b: PerCase) { multiset(a.keys) == multiset(b.keys) && a.values == b.values }

  lemma OrderIrrelevant(r: seq<CaseRecord>, s: seq<CaseRecord>, m: Metric)
    requires multiset(r) == multiset(s)
    ensures SamePerCase(PerCaseOf(r, m), PerCaseOf(s, m))
  {
    forall k { OrderIrrelevantFor(r, s, m, k); }
    KeysAreCases(r, m);
    KeysAreCases(s, m);
    SameMembers(KeysOf(r, m), KeysOf(s, m));
  }

  lemma {:induction false} KeptCounts(keys: seq<string>, other: map<string, real>, k: string)
    ensures multiset(Kept(keys, other))[k] == if k in other then multiset(keys)[k] else 0
    ensures Missing(keys, other) == |keys| - |Kept(keys, other)|
  {
    if keys != [] {
      var n := |keys| - 1;
      assert keys == keys[..n] + [keys[n]];
      KeptCounts(keys[..n], other, k);
    }
  }

  lemma KeptOfSame(s: seq<string>, t: seq<string>, other: map<string, real>)
    requires multiset(s) == multiset(t)
    ensures multiset(Kept(s, other)) == multiset(Kept(t, other)) && Missing(s, other) == Missing(t, other)
  {
    forall k ensures multiset(Kept(s, other))[k] == multiset(Kept(t, other))[k] {
      KeptCounts(s, other, k);
      KeptCounts(t, other, k);
    }
    KeptCounts(s, other, "");
    KeptCounts(t, other, "");
    SameLength(s, t);
    SameLength(Kept(s, other), Kept(t, other));
  }

  /**
   * Runs push their records as attempts finish, so the order differs from run to run; the comparison does not
   * depend on it.
   */
  lemma CompletionOrderIrrelevant(base: seq<CaseRecord>, base': seq<CaseRecord>,
                                  cand: seq<CaseRecord>, cand': seq<CaseRecord>, m: Metric)
    requires multiset(base) == multiset(base') && multiset(cand) == multiset(cand')
    ensures CompareRuns(base, cand, m) == CompareRuns(base', cand', m)
  {
    OrderIrrelevant(base, base', m);
    OrderIrrelevant(cand, cand', m);
    SameComparison(PerCaseOf(base, m), PerCaseOf(base', m), PerCaseOf(cand, m), PerCaseOf(cand', m), m);
  }

  lemma SameComparison(a: PerCase, a': PerCase, b: PerCase, b': PerCase, m: Metric)
    requires SamePerCase(a, a') && SamePerCase(b, b')
    ensures CompareValues(a, b, m) == CompareValues(a', b', m)
  {
    KeptOfSame(a.keys, a'.keys, b.values);
    KeptOfSame(b.keys, b'.keys, a.values);
    Text.SortSorts(Kept(a.keys, b.values));
    Text.SortSorts(Kept(a'.keys, b.values));
    Text.SortedUnique(SharedKeys(a, b), SharedKeys(a', b'));
  }

  /** The comparison as the program runs it. */
  method RunComparison(base: seq<CaseRecord>, cand: seq<CaseRecord>, m: Metric) returns (r: Option<Comparison>)
    ensures r == CompareRuns(base, cand, m)
  {
    var a := PerCaseValues(base, m);
    var b := PerCaseValues(cand, m);
    var keys := SharedKeys(a, b);
    if keys == [] { return None; }
    var lowerIsBetter := m == AbsScoreError;
    var outcome := RunBootstrap(Differences(keys, a.values, b.values), ITERATIONS, SEED);
    var i := outcome.interval;
    return Some(Comparison(|keys|, Missing(a.keys, b.values), Missing(b.keys, a.values), i,
                           Judge(lowerIsBetter, i), lowerIsBetter));
  }
}

/** From records to the gate lists and the verdict, and why concurrency cannot change them. */
module RunnerVerdict {
  import opened Options
  import opened Gates
  import opened Runner
  import opened Bags

  datatype Tier = Fast | Full

  datatype Verdict = PassedGates | FailedGate | Inconclusive

  datatype GateLists = GateLists(wronglyDeducted: seq<Key>, fullMarks: seq<Key>, injection: seq<Key>)

  datatype Summary = Summary(
    verdict: Verdict,
    confirmed: GateLists,
    odd: GateLists,
    unstable: seq<Key>,
    unmeasured: seq<Key>)

  ghost predicate DistinctKeys(all: seq<Item>) {
    forall i, j :: 0 <= i < j < |all| ==> KeyOf(all[i]) != KeyOf(all[j])
  }

  lemma KeysIdentify(all: seq<Item>, x: Item, y: Item)
    requires DistinctKeys(all) && x in all && y in all && KeyOf(x) == KeyOf(y)
    ensures x == y
  {
    var i :| 0 <= i < |all| && all[i] == x;
    var j :| 0 <= j < |all| && all[j] == y;
    assert KeyOf(all[i]) == KeyOf(all[j]);
  }

  // ---------- judging the cases ----------

  /** What `recordsOf` answers for each case. */
  type Book = map<Key, seq<Record>>

  function Lookup(b: Book, k: Key): seq<Record> { if k in b then b[k] else [] }

  function ResultsOf(rs: seq<Record>): seq<Attempt> { seq(|rs|, i requires 0 <= i < |rs| => rs[i].result) }

  function TwinAttempts(x: Item, b: Book): seq<Attempt> {
    if x.c.cleanTwin.None? then [] else ResultsOf(Lookup(b, (x.de, x.c.cleanTwin.value)))
  }

  /** `ctxFor` for `x`, and what the visit of `x` by `markViolations` writes on a record. */
  function ViolationBy(x: Item, r: Record, b: Book): Option<GateId> {
    ScoreGateViolation(x.c.group, r.result, ContextOf(TwinAttempts(x, b), x.maxHundredths))
  }

  /**
   * The `violation` field of a record after `markViolations` has visited the items in order: of several cases
   * under one key each overwrites what the one before wrote.
   */
  function Mark(items: seq<Item>, r: Record, b: Book): Option<GateId> {
    if items == [] then None
    else
      var x := items[|items| - 1];
      if KeyOf(x) == r.key then ViolationBy(x, r, b) else Mark(items[..|items| - 1], r, b)
  }

  /** A book whose records were marked for the given items. */
  datatype Marked = Marked(items: seq<Item>, book: Book)

  function RecordsFor(m: Marked, x: Item): seq<Record> { Lookup(m.book, KeyOf(x)) }

  function CountViolations(m: Marked, rs: seq<Record>): nat {
    if rs == [] then 0 else CountViolations(m, rs[1..]) + (if Mark(m.items, rs[0], m.book).Some? then 1 else 0)
  }

  function FirstViolation(m: Marked, rs: seq<Record>): Option<GateId> {
    if rs == [] then None
    else if Mark(m.items, rs[0], m.book).Some? then Mark(m.items, rs[0], m.book)
    else FirstViolation(m, rs[1..])
  }

  predicate IsViolated(m: Marked, x: Item) { FirstViolation(m, RecordsFor(m, x)).Some? }

  predicate IsUnmeasured(m: Marked, x: Item) {
    2 <= x.c.group <= 4 && forall r | r in RecordsFor(m, x) :: !r.result.ok
  }

  predicate IsUnstable(m: Marked, x: Item) {
    x.c.group == 3 && !TwinIsStable(TwinAttempts(x, m.book), x.maxHundredths)
  }

  /** The gate a case is listed under, and whether it is confirmed or odd. */
  predicate IsListed(m: Marked, x: Item, g: GateId, v: CaseVerdict) {
    var rs := RecordsFor(m, x);
    FirstViolation(m, rs) == Some(g) && ConfirmCase(CountViolations(m, rs)) == v
  }

  /** The conditions the runner filters its cases by. */
  datatype Query =
    | GroupThree(wanted: bool)
    | ViolatedIn(m: Marked)
    | ListedIn(m: Marked, g: GateId, v: CaseVerdict)
    | UnmeasuredIn(m: Marked)
    | UnstableIn(m: Marked)

  predicate Matches(q: Query, x: Item) {
    match q
    case GroupThree(wanted) => (x.c.group == 3) == wanted
    case ViolatedIn(m) => IsViolated(m, x)
    case ListedIn(m, g, v) => IsListed(m, x, g, v)
    case UnmeasuredIn(m) => IsUnmeasured(m, x)
    case UnstableIn(m) => IsUnstable(m, x)
  }

  /** `all.filter(...)` */
  function Those(all: seq<Item>, q: Query): seq<Item> {
    if all == [] then []
    else
      var rest := Those(all[..|all| - 1], q);
      if Matches(q, all[|all| - 1]) then rest + [all[|all| - 1]] else rest
  }

  function Keys(all: seq<Item>): seq<Key> { seq(|all|, i requires 0 <= i < |all| => KeyOf(all[i])) }

  function Listed(m: Marked, v: CaseVerdict): GateLists {
    GateLists(Keys(Those(m.items, ListedIn(m, WronglyDeducted, v))),
              Keys(Those(m.items, ListedIn(m, FullMarks, v))),
              Keys(Those(m.items, ListedIn(m, Injection, v))))
  }

  function VerdictOf(confirmed: GateLists, unmeasured: seq<Key>): Verdict {
    if confirmed.wronglyDeducted != [] || confirmed.fullMarks != [] || confirmed.injection != [] then FailedGate
    else if unmeasured != [] then Inconclusive
    else PassedGates
  }

  function Summarize(m: Marked): Summary {
    var confirmed := Listed(m, Confirmed);
    var unmeasured := Keys(Those(m.items, UnmeasuredIn(m)));
    var unstable := Keys(Those(m.items, UnstableIn(m)));
    Summary(VerdictOf(confirmed, unmeasured), confirmed, Listed(m, Odd), unstable, unmeasured)
  }

  lemma {:induction false} ThoseMembers(all: seq<Item>, q: Query)
    ensures forall x :: x in Those(all, q) <==> x in all && Matches(q, x)
    ensures DistinctKeys(all) ==> DistinctKeys(Those(all, q))
  {
    if all != [] {
      var n := |all| - 1;
      ThoseMembers(all[..n], q);
      assert all == all[..n] + [all[n]];
      forall i | 0 <= i < |Those(all[..n], q)| && DistinctKeys(all)
        ensures KeyOf(Those(all[..n], q)[i]) != KeyOf(all[n])
      {
        var x := Those(all[..n], q)[i];
        assert x in all[..n];
      }
    }
  }

  lemma {:induction false} SomeViolationCounts(m: Marked, rs: seq<Record>)
    ensures FirstViolation(m, rs).Some? <==> CountViolations(m, rs) >= 1
    ensures FirstViolation(m, rs).Some? ==> exists r :: r in rs && Mark(m.items, r, m.book) == FirstViolation(m, rs)
    ensures FirstViolation(m, rs).None? ==> forall r :: r in rs ==> Mark(m.items, r, m.book).None?
  {
    if rs != [] {
      SomeViolationCounts(m, rs[1..]);
      assert rs == [rs[0]] + rs[1..];
      if Mark(m.items, rs[0], m.book).None? && FirstViolation(m, rs).Some? {
        var r :| r in rs[1..] && Mark(m.items, r, m.book) == FirstViolation(m, rs[1..]);
        assert r in rs;
      } else if FirstViolation(m, rs).Some? {
        assert rs[0] in rs;
      }
    }
  }

  predicate WasMeasured(m: Marked, x: Item) { exists r :: r in RecordsFor(m, x) && r.result.ok }

  /**
   * What the verdict means, case by case: a gate fails exactly when some case violates in two attempts or more,
   * and a run passes exactly when every case violates at most once and every case carrying a gate was measured.
   */
  lemma VerdictMeans(m: Marked)
    ensures var v := Summarize(m).verdict;
            && (v == FailedGate <==> exists x :: x in m.items && CountViolations(m, RecordsFor(m, x)) >= 2)
            && (v == PassedGates <==>
                  && (forall x | x in m.items :: CountViolations(m, RecordsFor(m, x)) <= 1)
                  && (forall x | x in m.items && 2 <= x.c.group <= 4 :: WasMeasured(m, x)))
  {
    var all := m.items;
    ThoseNonempty(all, ListedIn(m, WronglyDeducted, Confirmed));
    ThoseNonempty(all, ListedIn(m, FullMarks, Confirmed));
    ThoseNonempty(all, ListedIn(m, Injection, Confirmed));
    ThoseNonempty(all, UnmeasuredIn(m));
    forall x | x in all ensures Matches(UnmeasuredIn(m), x) <==> IsUnmeasured(m, x) {}
    forall x | x in all { ConfirmedMeansTwice(m, x); }
  }

  lemma ConfirmedMeansTwice(m: Marked, x: Item)
    ensures CountViolations(m, RecordsFor(m, x)) >= 2 <==>
            || Matches(ListedIn(m, WronglyDeducted, Confirmed), x) || Matches(ListedIn(m, FullMarks, Confirmed), x)
            || Matches(ListedIn(m, Injection, Confirmed), x)
  {
    var rs := RecordsFor(m, x);
    SomeViolationCounts(m, rs);
    if CountViolations(m, rs) >= 2 {
      var g := FirstViolation(m, rs).value;
      assert g == WronglyDeducted || g == FullMarks || g == Injection;
    }
  }

  lemma ThoseNonempty(all: seq<Item>, q: Query)
    ensures Keys(Those(all, q)) != [] <==> exists x :: x in all && Matches(q, x)
  {
    ThoseMembers(all, q);
    if Those(all, q) != [] { assert Those(all, q)[0] in Those(all, q); }
  }

  // ---------- the order of the records does not matter ----------

  ghost predicate SameRecords(b: Book, c: Book) {
    b.Keys == c.Keys && forall k | k in b :: multiset(b[k]) == multiset(c[k])
  }

  lemma SameLookup(b: Book, c: Book, k: Key)
    requires SameRecords(b, c)
    ensures multiset(Lookup(b, k)) == multiset(Lookup(c, k))
    ensures forall r :: r in Lookup(b, k) <==> r in Lookup(c, k)
  {
    forall r ensures r in Lookup(b, k) <==> r in Lookup(c, k) {
      assert r in Lookup(b, k) <==> r in multiset(Lookup(b, k));
      assert r in Lookup(c, k) <==> r in multiset(Lookup(c, k));
    }
  }

  lemma ResultsMembers(rs: seq<Record>, t: Attempt)
    ensures t in ResultsOf(rs) <==> exists r :: r in rs && r.result == t
  {
    if t in ResultsOf(rs) {
      var i :| 0 <= i < |rs| && ResultsOf(rs)[i] == t;
      assert rs[i] in rs && rs[i].result == t;
    }
    if r :| r in rs && r.result == t {
      var i :| 0 <= i < |rs| && rs[i] == r;
      assert ResultsOf(rs)[i] == t;
    }
  }

  lemma SameTwinContext(x: Item, b: Book, c: Book)
    requires SameRecords(b, c)
    ensures ContextOf(TwinAttempts(x, b), x.maxHundredths) == ContextOf(TwinAttempts(x, c), x.maxHundredths)
  {
    if x.c.cleanTwin.Some? {
      var k := (x.de, x.c.cleanTwin.value);
      SameLookup(b, c, k);
      forall t ensures t in TwinAttempts(x, b) <==> t in TwinAttempts(x, c) {
        ResultsMembers(Lookup(b, k), t);
        ResultsMembers(Lookup(c, k), t);
      }
      SameContext(TwinAttempts(x, b), TwinAttempts(x, c), x.maxHundredths);
    }
  }

  lemma {:induction false} SameMark(items: seq<Item>, r: Record, b: Book, c: Book)
    requires SameRecords(b, c)
    ensures Mark(items, r, b) == Mark(items, r, c)
  {
    if items != [] {
      SameTwinContext(items[|items| - 1], b, c);
      SameMark(items[..|items| - 1], r, b, c);
    }
  }

  /** All violating records under one key violate the same gate: that of the last case with the key. */
  lemma {:induction false} OneGatePerKey(items: seq<Item>, r: Record, s: Record, b: Book)
    requires r.key == s.key && Mark(items, r, b).Some? && Mark(items, s, b).Some?
    ensures Mark(items, r, b) == Mark(items, s, b)
  {
    if KeyOf(items[|items| - 1]) != r.key { OneGatePerKey(items[..|items| - 1], r, s, b); }
  }

  lemma {:induction false} CountWithout(m: Marked, rs: seq<Record>, i: nat)
    requires i < |rs|
    ensures CountViolations(m, rs) ==
            CountViolations(m, Without(rs, i)) + (if Mark(m.items, rs[i], m.book).Some? then 1 else 0)
  {
    if i == 0 {
      assert Without(rs, 0) == rs[1..];
    } else {
      CountWithout(m, rs[1..], i - 1);
      assert Without(rs, i)[1..] == Without(rs[1..], i - 1);
    }
  }

  lemma {:induction false} SameCount(m: Marked, n: Marked, rs: seq<Record>, ss: seq<Record>)
    requires m.items == n.items && SameRecords(m.book, n.book) && multiset(rs) == multiset(ss)
    ensures CountViolations(m, rs) == CountViolations(n, ss)
  {
    SameLength(rs, ss);
    if rs != [] {
      assert rs[0] in multiset(ss);
      var i :| 0 <= i < |ss| && ss[i] == rs[0];
      WithoutSame(rs, 0, ss, i);
      assert Without(rs, 0) == rs[1..];
      CountWithout(n, ss, i);
      SameMark(m.items, rs[0], m.book, n.book);
      SameCount(m, n, rs[1..], Without(ss, i));
    }
  }

  ghost predicate WellKeyed(b: Book) { forall k, r | k in b && r in b[k] :: r.key == k }

  lemma SameFirstViolation(m: Marked, n: Marked, k: Key)
    requires m.items == n.items && SameRecords(m.book, n.book) && WellKeyed(m.book)
    ensures FirstViolation(m, Lookup(m.book, k)) == FirstViolation(n, Lookup(n.book, k))
  {
    var rs, ss := Lookup(m.book, k), Lookup(n.book, k);
    SameLookup(m.book, n.book, k);
    SameCount(m, n, rs, ss);
    SomeViolationCounts(m, rs);
    SomeViolationCounts(n, ss);
    if FirstViolation(m, rs).Some? {
      var r :| r in rs && Mark(m.items, r, m.book) == FirstViolation(m, rs);
      var s :| s in ss && Mark(n.items, s, n.book) == FirstViolation(n, ss);
      SameMark(m.items, s, m.book, n.book);
      assert s in rs;
      OneGatePerKey(m.items, r, s, m.book);
    }
  }

  lemma SameListing(m: Marked, n: Marked, x: Item, g: GateId, v: CaseVerdict)
    requires m.items == n.items && SameRecords(m.book, n.book) && WellKeyed(m.book)
    ensures IsListed(m, x, g, v) == IsListed(n, x, g, v) && IsViolated(m, x) == IsViolated(n, x)
  {
    SameLookup(m.book, n.book, KeyOf(x));
    SameFirstViolation(m, n, KeyOf(x));
    SameCount(m, n, RecordsFor(m, x), RecordsFor(n, x));
  }

  lemma SameJudgement(m: Marked, n: Marked, x: Item)
    requires m.items == n.items && SameRecords(m.book, n.book)
    ensures IsUnmeasured(m, x) == IsUnmeasured(n, x) && IsUnstable(m, x) == IsUnstable(n, x)
  {
    SameLookup(m.book, n.book, KeyOf(x));
    SameTwinContext(x, m.book, n.book);
  }

  lemma {:induction false} ThoseAlike(all: seq<Item>, p: Query, q: Query)
    requires forall x | x in all :: Matches(p, x) == Matches(q, x)
    ensures Those(all, p) == Those(all, q)
  {
    if all != [] {
      assert all[|all| - 1] in all && forall x | x in all[..|all| - 1] :: x in all;
      ThoseAlike(all[..|all| - 1], p, q);
    }
  }

  lemma SameLists(m: Marked, n: Marked, v: CaseVerdict)
    requires m.items == n.items && SameRecords(m.book, n.book) && WellKeyed(m.book)
    ensures Listed(m, v) == Listed(n, v)
  {
    forall g: GateId ensures Those(m.items, ListedIn(m, g, v)) == Those(m.items, ListedIn(n, g, v)) {
      forall x | x in m.items { SameListing(m, n, x, g, v); }
      ThoseAlike(m.items, ListedIn(m, g, v), ListedIn(n, g, v));
    }
  }

  lemma SameSummary(m: Marked, n: Marked)
    requires m.items == n.items && SameRecords(m.book, n.book) && WellKeyed(m.book)
    ensures Summarize(m) == Summarize(n)
  {
    SameLists(m, n, Confirmed);
    SameLists(m, n, Odd);
    forall x | x in m.items { SameJudgement(m, n, x); }
    ThoseAlike(m.items, UnmeasuredIn(m), UnmeasuredIn(n));
    ThoseAlike(m.items, UnstableIn(m), UnstableIn(n));
  }

  // ---------- reading the records ----------

  function KeySet(all: seq<Item>): set<Key> { set x | x in all :: KeyOf(x) }

  function ReadBook(all: seq<Item>, records: seq<Record>): Book {
    map k | k in KeySet(all) :: RecordsOf(records, k)
  }

  lemma RecordsOfCounts(records: seq<Record>, k: Key, r: Record)
    ensures multiset(RecordsOf(records, k))[r] == if r.key == k then multiset(records)[r] else 0
    ensures r in RecordsOf(records, k) <==> r in records && r.key == k
  {
    FilterCounts(records, k, r);
    SortByAttemptSorts(Filter(records, k));
    assert r in RecordsOf(records, k) <==> r in multiset(RecordsOf(records, k));
    assert r in records <==> r in multiset(records);
  }

  lemma ReadBookIsKeyed(all: seq<Item>, records: seq<Record>)
    ensures WellKeyed(ReadBook(all, records))
  {
    forall k, r | k in KeySet(all) && r in RecordsOf(records, k) ensures r.key == k { RecordsOfCounts(records, k, r); }
  }

  lemma SameReading(all: seq<Item>, records: seq<Record>, others: seq<Record>)
    requires multiset(records) == multiset(others)
    ensures SameRecords(ReadBook(all, records), ReadBook(all, others))
  {
    forall k | k in KeySet(all) ensures multiset(RecordsOf(records, k)) == multiset(RecordsOf(others, k)) {
      forall r: Record ensures multiset(RecordsOf(records, k))[r] == multiset(RecordsOf(others, k))[r] {
        RecordsOfCounts(records, k, r);
        RecordsOfCounts(others, k, r);
      }
    }
  }

  /** The cases marked with what was recorded. */
  function Read(all: seq<Item>, records: seq<Record>): Marked { Marked(all, ReadBook(all, records)) }

  /**
   * For any cases, repeated ids included, the gate lists, the unstable and unmeasured cases, the verdict and the
   * cases to top up depend only on which records there are, never on the order in which they were pushed.
   */
  lemma PushOrderIrrelevant(all: seq<Item>, records: seq<Record>, others: seq<Record>)
    requires multiset(records) == multiset(others)
    ensures Summarize(Read(all, records)) == Summarize(Read(all, others))
    ensures Those(all, ViolatedIn(Read(all, records))) == Those(all, ViolatedIn(Read(all, others)))
  {
    var m, n := Read(all, records), Read(all, others);
    SameReading(all, records, others);
    ReadBookIsKeyed(all, records);
    SameSummary(m, n);
    forall x | x in all { SameListing(m, n, x, Injection, Clean); }
    ThoseAlike(all, ViolatedIn(m), ViolatedIn(n));
  }

  // ---------- which attempts are made ----------

  /** Attempts `lo` up to but not including `hi`. */
  function Span(x: Item, lo: nat, hi: nat): seq<Record>
    requires lo <= hi
  {
    if lo == hi then [] else Span(x, lo, hi - 1) + [Attempted(x, hi - 1)]
  }

  /** `cases.flatMap(x => attempts.map(a => ...))`, with what each attempt yields. */
  function Outcomes(items: seq<Item>, lo: nat, hi: nat): seq<Record>
    requires lo <= hi
  {
    if items == [] then []
    else Outcomes(items[..|items| - 1], lo, hi) + Span(items[|items| - 1], lo, hi)
  }

  function FirstPass(tier: Tier): nat { if tier == Full then 3 else 1 }

  /** The first pass by a single worker, group 3 after the rest. */
  function FirstRecords(all: seq<Item>, tier: Tier): seq<Record> {
    var k := FirstPass(tier);
    Outcomes(Those(all, GroupThree(false)), 1, 1 + k) + Outcomes(Those(all, GroupThree(true)), 1, 1 + k)
  }

  /** In the fast tier a case that violates in the first pass gets two more attempts. */
  function TopUps(all: seq<Item>, tier: Tier): seq<Item> {
    if tier == Fast then Those(all, ViolatedIn(Read(all, FirstRecords(all, tier)))) else []
  }

  /** The records of the whole run by a single worker. */
  function FinalRecords(all: seq<Item>, tier: Tier): seq<Record> {
    FirstRecords(all, tier) + Outcomes(TopUps(all, tier), 2, 4)
  }

  function First(all: seq<Item>, tier: Tier): Marked { Read(all, FirstRecords(all, tier)) }

  function Final(all: seq<Item>, tier: Tier): Marked { Read(all, FinalRecords(all, tier)) }

  /**
   * `runCases` down to the gate summary: group 3 after the rest, top-up in the fast tier, then judging. The
   * contract does not mention the pool size: for every concurrency and every interleaving the summary is that of
   * a single worker.
   */
  method RunCases(all: seq<Item>, tier: Tier, concurrency: int) returns (s: Summary)
    ensures s == Summarize(Final(all, tier))
  {
    var k := FirstPass(tier);
    var r1 := Pool(Outcomes(Those(all, GroupThree(false)), 1, 1 + k), concurrency);
    var r2 := Pool(Outcomes(Those(all, GroupThree(true)), 1, 1 + k), concurrency);
    var records := r1 + r2;
    assert multiset(records) == multiset(FirstRecords(all, tier));
    if tier == Fast {
      var topUp := Those(all, ViolatedIn(Read(all, records)));
      PushOrderIrrelevant(all, records, FirstRecords(all, tier));
      var r3 := Pool(Outcomes(topUp, 2, 4), concurrency);
      records := records + r3;
    } else {
      assert FinalRecords(all, tier) == FirstRecords(all, tier);
    }
    assert multiset(records) == multiset(FinalRecords(all, tier));
    PushOrderIrrelevant(all, records, FinalRecords(all, tier));
    return Summarize(Read(all, records));
  }

  lemma {:induction false} SpanKeys(x: Item, lo: nat, hi: nat, r: Record)
    requires lo <= hi && r.key != KeyOf(x)
    ensures multiset(Span(x, lo, hi))[r] == 0
  {
    if lo < hi { SpanKeys(x, lo, hi - 1, r); }
  }

  /** A first attempt and two top-up attempts are the attempts of a full run. */
  lemma SpanOfThree(x: Item)
    ensures Span(x, 1, 4) == Span(x, 1, 2) + Span(x, 2, 4)
    ensures Span(x, 1, 2) == [Attempted(x, 1)] && Span(x, 2, 4) == [Attempted(x, 2), Attempted(x, 3)]
  {
    assert Span(x, 1, 1) == Span(x, 2, 2) == [];
    assert Span(x, 1, 3) == Span(x, 1, 2) + [Attempted(x, 2)];
    assert Span(x, 2, 3) == [Attempted(x, 2)];
  }

  lemma {:induction false} OutcomesOfOthers(items: seq<Item>, lo: nat, hi: nat, r: Record)
    requires lo <= hi && forall x | x in items :: KeyOf(x) != r.key
    ensures multiset(Outcomes(items, lo, hi))[r] == 0
  {
    if items != [] {
      assert items[|items| - 1] in items && forall x | x in items[..|items| - 1] :: x in items;
      OutcomesOfOthers(items[..|items| - 1], lo, hi, r);
      SpanKeys(items[|items| - 1], lo, hi, r);
    }
  }

  lemma {:induction false} OutcomesOfOne(items: seq<Item>, lo: nat, hi: nat, x: Item, r: Record)
    requires lo <= hi && DistinctKeys(items) && x in items && r.key == KeyOf(x)
    ensures multiset(Outcomes(items, lo, hi))[r] == multiset(Span(x, lo, hi))[r]
  {
    var n := |items| - 1;
    assert items == items[..n] + [items[n]];
    if x == items[n] {
      OutcomesOfOthers(items[..n], lo, hi, r);
    } else {
      OutcomesOfOne(items[..n], lo, hi, x, r);
      var i :| 0 <= i < n && items[i] == x;
      SpanKeys(items[n], lo, hi, r);
    }
  }

  /** The records a work list contributes for case `x`. */
  lemma OutcomesFor(items: seq<Item>, lo: nat, hi: nat, x: Item, r: Record, all: seq<Item>)
    requires lo <= hi && DistinctKeys(all) && DistinctKeys(items) && (forall y | y in items :: y in all)
    requires x in all && r.key == KeyOf(x)
    ensures multiset(Outcomes(items, lo, hi))[r] == if x in items then multiset(Span(x, lo, hi))[r] else 0
  {
    if x in items {
      OutcomesOfOne(items, lo, hi, x, r);
    } else {
      forall y | y in items ensures KeyOf(y) != r.key {
        if KeyOf(y) == KeyOf(x) { KeysIdentify(all, x, y); }
      }
      OutcomesOfOthers(items, lo, hi, r);
    }
  }

  lemma {:induction false} SpanIsOrdered(x: Item, n: nat)
    ensures var s := Span(x, 1, 1 + n); |s| == n && forall i :: 0 <= i < n ==> s[i].attempt == 1 + i
    ensures ByAttempt(Span(x, 1, 1 + n)) && AttemptsDistinct(Span(x, 1, 1 + n))
  {
    if n > 0 { SpanIsOrdered(x, n - 1); }
  }

  /** A case on a work list has all its attempts among the records. */
  lemma {:induction false} OutcomesHold(items: seq<Item>, lo: nat, hi: nat, x: Item, a: nat)
    requires x in items && lo <= a < hi
    ensures Attempted(x, a) in Outcomes(items, lo, hi)
  {
    var n := |items| - 1;
    assert items == items[..n] + [items[n]];
    if x in items[..n] { OutcomesHold(items[..n], lo, hi, x, a); } else { SpanHolds(x, lo, hi, a); }
  }

  lemma {:induction false} SpanHolds(x: Item, lo: nat, hi: nat, a: nat)
    requires lo <= a < hi
    ensures Attempted(x, a) in Span(x, lo, hi)
  {
    if a < hi - 1 { SpanHolds(x, lo, hi - 1, a); }
  }

  lemma FirstRecordsHold(all: seq<Item>, tier: Tier, x: Item, a: nat)
    requires x in all && 1 <= a <= FirstPass(tier)
    ensures Attempted(x, a) in FirstRecords(all, tier)
  {
    var q := GroupThree(x.c.group == 3);
    ThoseMembers(all, q);
    OutcomesHold(Those(all, q), 1, 1 + FirstPass(tier), x, a);
  }

  // ---------- three attempts behind every listed case ----------

  /** Every case keeps its first records and may gain more; a key without records stays without. */
  ghost predicate Extends(first: Book, final: Book) {
    forall k ::
      && (forall r | r in Lookup(first, k) :: r in Lookup(final, k))
      && (Lookup(first, k) == [] ==> Lookup(final, k) == [])
  }

  lemma TopUpExtends(all: seq<Item>, tier: Tier)
    ensures Extends(First(all, tier).book, Final(all, tier).book)
  {
    var first, final := First(all, tier).book, Final(all, tier).book;
    forall k ensures (forall r | r in Lookup(first, k) :: r in Lookup(final, k)) &&
                     (Lookup(first, k) == [] ==> Lookup(final, k) == [])
    {
      forall r | r in Lookup(first, k) ensures r in Lookup(final, k) {
        RecordsOfCounts(FirstRecords(all, tier), k, r);
        RecordsOfCounts(FinalRecords(all, tier), k, r);
      }
      if k in KeySet(all) {
        var x :| x in all && KeyOf(x) == k;
        FirstRecordsHold(all, tier, x, 1);
        RecordsOfCounts(FirstRecords(all, tier), k, Attempted(x, 1));
      }
    }
  }

  lemma TwinGrows(x: Item, first: Book, final: Book)
    requires Extends(first, final)
    ensures forall t | t in TwinAttempts(x, first) :: t in TwinAttempts(x, final)
    ensures TwinAttempts(x, first) == [] ==> TwinAttempts(x, final) == []
  {
    if x.c.cleanTwin.Some? {
      var k := (x.de, x.c.cleanTwin.value);
      forall t | t in TwinAttempts(x, first) ensures t in TwinAttempts(x, final) {
        ResultsMembers(Lookup(first, k), t);
        ResultsMembers(Lookup(final, k), t);
      }
    }
  }

  /** A record that violates after the top-up violated before it. */
  lemma {:induction false} ViolationIsOld(items: seq<Item>, r: Record, first: Book, final: Book)
    requires Extends(first, final) && Mark(items, r, final).Some?
    ensures Mark(items, r, first) == Mark(items, r, final)
  {
    var x := items[|items| - 1];
    if KeyOf(x) == r.key {
      TwinGrows(x, first, final);
      TwinGrowthOnlyClears(x.c.group, r.result, TwinAttempts(x, first), TwinAttempts(x, final), x.maxHundredths);
    } else {
      ViolationIsOld(items[..|items| - 1], r, first, final);
    }
  }

  /** A case without top-up has the records of the first pass. */
  lemma NotToppedUp(all: seq<Item>, tier: Tier, x: Item, r: Record)
    requires x in all && (forall y | y in TopUps(all, tier) :: KeyOf(y) != KeyOf(x))
    requires r in RecordsFor(Final(all, tier), x)
    ensures r in RecordsFor(First(all, tier), x)
  {
    RecordsOfCounts(FinalRecords(all, tier), KeyOf(x), r);
    RecordsOfCounts(FirstRecords(all, tier), KeyOf(x), r);
    OutcomesOfOthers(TopUps(all, tier), 2, 4, r);
    assert r in multiset(Outcomes(TopUps(all, tier), 2, 4)) <==> r in Outcomes(TopUps(all, tier), 2, 4);
  }

  /** A case that violates at the end was topped up, if there is a top-up at all. */
  lemma LoneViolationIsOld(all: seq<Item>, x: Item)
    requires x in all && IsViolated(Final(all, Fast), x)
    ensures IsViolated(First(all, Fast), x)
  {
    var first, final := First(all, Fast), Final(all, Fast);
    ThoseMembers(all, ViolatedIn(first));
    if !IsViolated(first, x) {
      forall y | y in TopUps(all, Fast) ensures KeyOf(y) != KeyOf(x) {}
      SomeViolationCounts(final, RecordsFor(final, x));
      var r :| r in RecordsFor(final, x) && Mark(all, r, final.book).Some?;
      NotToppedUp(all, Fast, x, r);
      TopUpExtends(all, Fast);
      ViolationIsOld(all, r, first.book, final.book);
      SomeViolationCounts(first, RecordsFor(first, x));
    }
  }

  /**
   * The rule "two of three attempts" is never applied to fewer than three: in either tier, behind a case that
   * ends up confirmed or odd stand three attempts of it, and of every case that shares its id. The fast tier
   * could have broken this, since topping up a twin changes the group 3 case it belongs to; it does not, because
   * more twin attempts only clear violations.
   */
  lemma ListedCasesHaveThreeAttempts(all: seq<Item>, tier: Tier, x: Item, y: Item, a: nat)
    requires x in all && y in all && KeyOf(x) == KeyOf(y) && 1 <= a <= 3
    ensures IsViolated(Final(all, tier), x) ==> Attempted(y, a) in RecordsFor(Final(all, tier), x)
  {
    if IsViolated(Final(all, tier), x) {
      if a <= FirstPass(tier) {
        FirstRecordsHold(all, tier, y, a);
      } else {
        LoneViolationIsOld(all, x);
        ThoseMembers(all, ViolatedIn(First(all, Fast)));
        OutcomesHold(TopUps(all, Fast), 2, 4, y, a);
      }
      RecordsOfCounts(FinalRecords(all, tier), KeyOf(x), Attempted(y, a));
    }
  }

  // ---------- data sets without repeated ids ----------

  /** Each case's record is then marked by that case alone. */
  lemma {:induction false} OwnMark(all: seq<Item>, x: Item, r: Record, b: Book)
    requires DistinctKeys(all) && x in all && r.key == KeyOf(x)
    ensures Mark(all, r, b) == ViolationBy(x, r, b)
  {
    var n := |all| - 1;
    assert all == all[..n] + [all[n]];
    if KeyOf(all[n]) == r.key { KeysIdentify(all, x, all[n]); } else { OwnMark(all[..n], x, r, b); }
  }

  function AttemptsMade(all: seq<Item>, tier: Tier, x: Item): nat {
    if tier == Full || IsViolated(First(all, tier), x) then 3 else 1
  }

  /** What one of the two work lists of the first pass contributes for a case. */
  lemma HalfPassOfOne(all: seq<Item>, wanted: bool, hi: nat, x: Item, r: Record)
    requires DistinctKeys(all) && x in all && r.key == KeyOf(x) && hi >= 1
    ensures multiset(Outcomes(Those(all, GroupThree(wanted)), 1, hi))[r] ==
            if (x.c.group == 3) == wanted then multiset(Span(x, 1, hi))[r] else 0
  {
    ThoseMembers(all, GroupThree(wanted));
    OutcomesFor(Those(all, GroupThree(wanted)), 1, hi, x, r, all);
  }

  lemma FirstRecordsOfOne(all: seq<Item>, tier: Tier, x: Item, r: Record)
    requires DistinctKeys(all) && x in all && r.key == KeyOf(x)
    ensures multiset(FirstRecords(all, tier))[r] == multiset(Span(x, 1, 1 + FirstPass(tier)))[r]
  {
    HalfPassOfOne(all, false, 1 + FirstPass(tier), x, r);
    HalfPassOfOne(all, true, 1 + FirstPass(tier), x, r);
  }

  lemma TopUpOfOne(all: seq<Item>, x: Item, r: Record)
    requires DistinctKeys(all) && x in all && r.key == KeyOf(x)
    ensures multiset(Outcomes(TopUps(all, Fast), 2, 4))[r] ==
            if IsViolated(First(all, Fast), x) then multiset(Span(x, 2, 4))[r] else 0
  {
    var q := ViolatedIn(First(all, Fast));
    ThoseMembers(all, q);
    OutcomesFor(Those(all, q), 2, 4, x, r, all);
  }

  lemma TopUpComplete(all: seq<Item>, tier: Tier, x: Item, r: Record)
    requires DistinctKeys(all) && x in all && r.key == KeyOf(x)
    ensures multiset(FinalRecords(all, tier))[r] == multiset(Span(x, 1, 1 + AttemptsMade(all, tier, x)))[r]
  {
    FirstRecordsOfOne(all, tier, x, r);
    if tier == Fast {
      TopUpOfOne(all, x, r);
      SpanOfThree(x);
    }
  }

  lemma FinalCounts(all: seq<Item>, tier: Tier, x: Item, s: seq<Record>, r: Record)
    requires DistinctKeys(all) && x in all && s == Span(x, 1, 1 + AttemptsMade(all, tier, x))
    ensures multiset(s)[r] == if r.key == KeyOf(x) then multiset(FinalRecords(all, tier))[r] else 0
  {
    if r.key == KeyOf(x) {
      TopUpComplete(all, tier, x, r);
    } else {
      SpanKeys(x, 1, 1 + AttemptsMade(all, tier, x), r);
    }
  }

  lemma ReadsOwnAttempts(all: seq<Item>, tier: Tier, x: Item, s: seq<Record>)
    requires DistinctKeys(all) && x in all && s == Span(x, 1, 1 + AttemptsMade(all, tier, x))
    ensures RecordsOf(FinalRecords(all, tier), KeyOf(x)) == s
  {
    forall r: Record { FinalCounts(all, tier, x, s, r); }
    SpanIsOrdered(x, AttemptsMade(all, tier, x));
    ReadBack(FinalRecords(all, tier), KeyOf(x), s);
  }

  /** What is read back for a case at the end: its own attempts in order, three or one of them. */
  lemma OwnAttempts(all: seq<Item>, tier: Tier, x: Item)
    requires DistinctKeys(all) && x in all
    ensures RecordsFor(Final(all, tier), x) == Span(x, 1, 1 + AttemptsMade(all, tier, x))
    ensures IsViolated(Final(all, tier), x) ==> AttemptsMade(all, tier, x) == 3
  {
    ReadsOwnAttempts(all, tier, x, Span(x, 1, 1 + AttemptsMade(all, tier, x)));
    if tier == Fast && IsViolated(Final(all, tier), x) { LoneViolationIsOld(all, x); }
  }
}

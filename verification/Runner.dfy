/** The evaluation runner: a pool of workers, top-up attempts, and the gate verdict. */
module Runner {
  import opened Options
  import opened Gates
  import opened Bags
  import Sorting

  datatype Case = Case(id: string, group: Group, cleanTwin: Option<string>)

  /**
   * A case together with its problem and with what its attempts 1, 2 and 3 yield: an attempt's outcome depends
   * only on the case and the attempt number.
   */
  datatype Item = Item(de: string, maxHundredths: int, c: Case, yields1: Attempt, yields2: Attempt, yields3: Attempt)

  type Key = (string, string)

  function KeyOf(x: Item): Key { (x.de, x.c.id) }

  datatype Record = Record(key: Key, attempt: nat, result: Attempt)

  /** `attemptOnce` labels its record with the case and the attempt number it was given. */
  function Attempted(x: Item, a: nat): Record {
    Record(KeyOf(x), a, if a == 1 then x.yields1 else if a == 2 then x.yields2 else x.yields3)
  }

  // ---------- the worker pool ----------

  /**
   * `pool`, where item `i` yields `outcomes[i]`. Each of at most `size` workers takes the next item while there
   * is one and pushes its record when the attempt ends. Whether a worker starts or one of the running attempts
   * ends next is left open, so the contract holds for every interleaving: each item runs exactly once.
   */
  method Pool(outcomes: seq<Record>, size: int) returns (records: seq<Record>)
    ensures multiset(records) == multiset(outcomes)
  {
    var workers := if size > 1 then size else 1;
    var next := 0;
    var running: seq<Record> := [];
    records := [];
    while next < |outcomes| || running != []
      invariant next <= |outcomes| && |running| <= workers
      invariant multiset(records) + multiset(running) == multiset(outcomes[..next])
      decreases |outcomes| - next, |running|
    {
      var start: bool := *;
      if next < |outcomes| && |running| < workers && (start || running == []) {
        OneMore(outcomes, next);
        MoveOne(multiset(records), multiset(running), outcomes[next]);
        running := running + [outcomes[next]];
        next := next + 1;
      } else {
        var k :| 0 <= k < |running|;
        WithoutOne(running, k);
        MoveOne(multiset(records), multiset(Without(running, k)), running[k]);
        records := records + [running[k]];
        running := Without(running, k);
      }
    }
    assert outcomes[..next] == outcomes;
  }

  // ---------- reading records back ----------

  function Filter(records: seq<Record>, key: Key): seq<Record> {
    if records == [] then []
    else
      var rest := Filter(records[..|records| - 1], key);
      if records[|records| - 1].key == key then rest + [records[|records| - 1]] else rest
  }

  predicate NotAfter(r: Record, s: Record) { r.attempt <= s.attempt }

  function SortByAttempt(s: seq<Record>): seq<Record> { Sorting.Sort(s, NotAfter) }

  /** `recordsOf`: the records of one case in attempt order. */
  function RecordsOf(records: seq<Record>, key: Key): seq<Record> { SortByAttempt(Filter(records, key)) }

  ghost predicate ByAttempt(s: seq<Record>) { forall i, j :: 0 <= i < j < |s| ==> s[i].attempt <= s[j].attempt }

  ghost predicate AttemptsDistinct(s: seq<Record>) { forall i, j | 0 <= i < j < |s| :: s[i].attempt != s[j].attempt }

  lemma {:induction false} FilterCounts(records: seq<Record>, key: Key, r: Record)
    ensures multiset(Filter(records, key))[r] == if r.key == key then multiset(records)[r] else 0
  {
    if records != [] {
      var n := |records| - 1;
      assert records == records[..n] + [records[n]];
      FilterCounts(records[..n], key, r);
    }
  }

  lemma SortedIsByAttempt(s: seq<Record>)
    ensures Sorting.Sorted(s, NotAfter) <==> ByAttempt(s)
  {
    if Sorting.Sorted(s, NotAfter) {
      forall i, j | 0 <= i < j < |s| ensures s[i].attempt <= s[j].attempt { assert NotAfter(s[i], s[j]); }
    }
  }

  lemma SortByAttemptSorts(s: seq<Record>)
    ensures ByAttempt(SortByAttempt(s)) && multiset(SortByAttempt(s)) == multiset(s)
  {
    Sorting.SortSorts(s, NotAfter);
    SortedIsByAttempt(SortByAttempt(s));
  }

  lemma AttemptOrderUnique(s: seq<Record>, t: seq<Record>)
    requires ByAttempt(s) && ByAttempt(t) && AttemptsDistinct(t) && multiset(s) == multiset(t)
    ensures s == t
  {
    SortedIsByAttempt(s);
    SortedIsByAttempt(t);
    forall r, q | r in t && q in t && NotAfter(r, q) && NotAfter(q, r) ensures r == q {
      var i :| 0 <= i < |t| && t[i] == r;
      var j :| 0 <= j < |t| && t[j] == q;
    }
    Sorting.SortedUnique(s, t, NotAfter);
  }

  /** Push order does not matter: what is read back depends only on which records there are. */
  lemma ReadBack(records: seq<Record>, key: Key, expected: seq<Record>)
    requires forall r: Record :: (if r.key == key then multiset(records)[r] else 0) == multiset(expected)[r]
    requires ByAttempt(expected) && AttemptsDistinct(expected)
    ensures RecordsOf(records, key) == expected
  {
    forall r: Record ensures multiset(Filter(records, key))[r] == multiset(expected)[r] {
      FilterCounts(records, key, r);
    }
    SortByAttemptSorts(Filter(records, key));
    assert multiset(Filter(records, key)) == multiset(expected);
    AttemptOrderUnique(RecordsOf(records, key), expected);
  }
}

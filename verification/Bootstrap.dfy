/** The seeded paired bootstrap over per-case differences. Sums and means are exact. */
module Bootstrap {
  import opened Xorshift
  import opened Bags
  import Sorting

  datatype Interval = Interval(mean: real, lo: real, hi: real)

  /** Without iterations there is no mean to read a bound from. */
  datatype Outcome = Bounded(interval: Interval) | Unbounded(mean: real)

  const ITERATIONS := 5000
  const SEED := 20260924

  function Sum(s: seq<real>): real { if s == [] then 0.0 else Sum(s[..|s| - 1]) + s[|s| - 1] }

  function Over(s: real, n: nat): real
    requires n > 0
  {
    s / n as real
  }

  /** The sum of `k` draws with replacement, the generator starting from state `x`. */
  function Drawn(diffs: seq<real>, x: bv32, k: nat): real
    requires diffs != []
    decreases k
  {
    if k == 0 then 0.0 else diffs[Draw(Next(x), |diffs|)] + Drawn(diffs, Next(x), k - 1)
  }

  /** One resampled mean per iteration. */
  function Means(diffs: seq<real>, x: bv32, iterations: nat): seq<real>
    requires diffs != []
    decreases iterations
  {
    if iterations == 0 then []
    else [Over(Drawn(diffs, x, |diffs|), |diffs|)] + Means(diffs, After(x, |diffs|), iterations - 1)
  }

  // ---------- sorting numbers ----------

  ghost predicate Ascending(s: seq<real>) { forall i, j :: 0 <= i < j < |s| ==> s[i] <= s[j] }

  predicate AtMost(a: real, b: real) { a <= b }

  function Sort(s: seq<real>): seq<real> { Sorting.Sort(s, AtMost) }

  lemma SortedIsAscending(s: seq<real>)
    ensures Sorting.Sorted(s, AtMost) <==> Ascending(s)
  {
    if Sorting.Sorted(s, AtMost) {
      forall i, j | 0 <= i < j < |s| ensures s[i] <= s[j] { assert AtMost(s[i], s[j]); }
    }
  }

  lemma SortSorts(s: seq<real>)
    ensures Ascending(Sort(s)) && multiset(Sort(s)) == multiset(s) && |Sort(s)| == |s|
  {
    Sorting.SortSorts(s, AtMost);
    SortedIsAscending(Sort(s));
  }

  lemma AscendingUnique(s: seq<real>, t: seq<real>)
    requires Ascending(s) && Ascending(t) && multiset(s) == multiset(t)
    ensures s == t
  {
    SortedIsAscending(s);
    SortedIsAscending(t);
    Sorting.SortedUnique(s, t, AtMost);
  }

  // ---------- the interval ----------

  /** `Math.floor(0.025 * iterations)` and `Math.ceil(0.975 * iterations) - 1`, without rounding error. */
  function LoIndex(iterations: nat): nat { iterations / 40 }

  function HiIndex(iterations: nat): int { (39 * iterations + 39) / 40 - 1 }

  /** The two ranks are mirror images: as many means lie below the one as above the other. */
  lemma RanksMirror(iterations: nat)
    requires iterations > 0
    ensures 0 <= LoIndex(iterations) <= HiIndex(iterations) < iterations
    ensures HiIndex(iterations) == iterations - 1 - LoIndex(iterations)
  {
  }

  function PairedBootstrap(diffs: seq<real>, iterations: nat, seed: int): Interval
    requires iterations > 0
  {
    if diffs == [] then Interval(0.0, 0.0, 0.0)
    else
      RanksMirror(iterations);
      var means := Sort(Means(diffs, Seeded(seed), iterations));
      SortSorts(Means(diffs, Seeded(seed), iterations));
      MeansLength(diffs, Seeded(seed), iterations);
      Interval(Over(Sum(diffs), |diffs|), means[LoIndex(iterations)], means[HiIndex(iterations)])
  }

  /** What `pairedBootstrap` returns for any number of iterations. */
  function BootstrapOutcome(diffs: seq<real>, iterations: nat, seed: int): Outcome {
    if diffs == [] then Bounded(Interval(0.0, 0.0, 0.0))
    else if iterations == 0 then Unbounded(Over(Sum(diffs), |diffs|))
    else Bounded(PairedBootstrap(diffs, iterations, seed))
  }

  lemma {:induction false} MeansLength(diffs: seq<real>, x: bv32, iterations: nat)
    requires diffs != []
    ensures |Means(diffs, x, iterations)| == iterations
    decreases iterations
  {
    if iterations > 0 { MeansLength(diffs, After(x, |diffs|), iterations - 1); }
  }

  // ---------- swapping the two runs ----------

  function Negated(s: seq<real>): seq<real> { seq(|s|, i requires 0 <= i < |s| => -s[i]) }

  /** Negated and read backwards. */
  function Mirrored(s: seq<real>): seq<real> { seq(|s|, i requires 0 <= i < |s| => -s[|s| - 1 - i]) }

  lemma OverNegated(s: real, n: nat)
    requires n > 0
    ensures Over(-s, n) == -Over(s, n)
  {
  }

  lemma {:induction false} SumNegated(s: seq<real>)
    ensures Sum(Negated(s)) == -Sum(s)
  {
    if s != [] {
      assert Negated(s)[..|s| - 1] == Negated(s[..|s| - 1]);
      SumNegated(s[..|s| - 1]);
    }
  }

  lemma {:induction false} DrawnNegated(diffs: seq<real>, x: bv32, k: nat)
    requires diffs != []
    ensures Drawn(Negated(diffs), x, k) == -Drawn(diffs, x, k)
    decreases k
  {
    if k > 0 { DrawnNegated(diffs, Next(x), k - 1); }
  }

  lemma {:induction false} MeansNegated(diffs: seq<real>, x: bv32, iterations: nat)
    requires diffs != []
    ensures Means(Negated(diffs), x, iterations) == Negated(Means(diffs, x, iterations))
    decreases iterations
  {
    if iterations > 0 {
      DrawnNegated(diffs, x, |diffs|);
      OverNegated(Drawn(diffs, x, |diffs|), |diffs|);
      MeansNegated(diffs, After(x, |diffs|), iterations - 1);
    }
  }

  lemma {:induction false} NegatedCounts(s: seq<real>, v: real)
    ensures multiset(Negated(s))[v] == multiset(s)[-v]
  {
    if s != [] {
      var n := |s| - 1;
      assert s == s[..n] + [s[n]] && Negated(s) == Negated(s[..n]) + [-s[n]];
      NegatedCounts(s[..n], v);
    }
  }

  lemma {:induction false} MirroredCounts(s: seq<real>, v: real)
    ensures multiset(Mirrored(s))[v] == multiset(s)[-v]
  {
    if s != [] {
      var n := |s| - 1;
      assert s == s[..n] + [s[n]] && Mirrored(s) == [-s[n]] + Mirrored(s[..n]);
      MirroredCounts(s[..n], v);
    }
  }

  lemma SortNegated(s: seq<real>)
    ensures Sort(Negated(s)) == Mirrored(Sort(s))
  {
    SortSorts(s);
    SortSorts(Negated(s));
    forall v ensures multiset(Sort(Negated(s)))[v] == multiset(Mirrored(Sort(s)))[v] {
      NegatedCounts(s, v);
      MirroredCounts(Sort(s), v);
    }
    assert multiset(Sort(Negated(s))) == multiset(Mirrored(Sort(s)));
    AscendingUnique(Sort(Negated(s)), Mirrored(Sort(s)));
  }

  lemma SortedMeansNegated(diffs: seq<real>, x: bv32, iterations: nat)
    requires diffs != []
    ensures Sort(Means(Negated(diffs), x, iterations)) == Mirrored(Sort(Means(diffs, x, iterations)))
    ensures |Sort(Means(diffs, x, iterations))| == iterations
  {
    MeansNegated(diffs, x, iterations);
    SortNegated(Means(diffs, x, iterations));
    SortSorts(Means(diffs, x, iterations));
    MeansLength(diffs, x, iterations);
  }

  lemma MeanNegated(s: seq<real>)
    requires s != []
    ensures Over(Sum(Negated(s)), |s|) == -Over(Sum(s), |s|)
  {
    SumNegated(s);
    OverNegated(Sum(s), |s|);
  }

  lemma MirroredEnds(means: seq<real>, iterations: nat)
    requires iterations > 0 && |means| == iterations
    ensures 0 <= LoIndex(iterations) <= HiIndex(iterations) < iterations
    ensures Mirrored(means)[LoIndex(iterations)] == -means[HiIndex(iterations)]
    ensures Mirrored(means)[HiIndex(iterations)] == -means[LoIndex(iterations)]
  {
    RanksMirror(iterations);
  }

  /** Negating every difference mirrors the interval: the mean changes sign and [lo, hi] becomes [-hi, -lo]. */
  lemma BootstrapMirrors(diffs: seq<real>, iterations: nat, seed: int)
    requires iterations > 0
    ensures var (b, c) := (PairedBootstrap(diffs, iterations, seed), PairedBootstrap(Negated(diffs), iterations, seed));
            c == Interval(-b.mean, -b.hi, -b.lo)
  {
    if diffs != [] {
      SortedMeansNegated(diffs, Seeded(seed), iterations);
      MirroredEnds(Sort(Means(diffs, Seeded(seed), iterations)), iterations);
      MeanNegated(diffs);
    }
  }

  // ---------- bounds ----------

  ghost predicate Within(s: seq<real>, least: real, most: real) {
    forall i :: 0 <= i < |s| ==> least <= s[i] <= most
  }

  lemma OneMoreTerm(bound: real, n: nat)
    ensures bound * (n + 1) as real == bound * n as real + bound
  {
    assert (n + 1) as real == n as real + 1.0;
  }

  lemma OverWithin(s: real, n: nat, least: real, most: real)
    requires n > 0 && least * n as real <= s <= most * n as real
    ensures least <= Over(s, n) <= most
  {
    assert Over(s, n) * n as real == s;
  }

  lemma {:induction false} DrawnWithin(diffs: seq<real>, x: bv32, k: nat, least: real, most: real)
    requires diffs != [] && Within(diffs, least, most)
    ensures least * k as real <= Drawn(diffs, x, k) <= most * k as real
    decreases k
  {
    if k > 0 {
      DrawnWithin(diffs, Next(x), k - 1, least, most);
      OneMoreTerm(least, k - 1);
      OneMoreTerm(most, k - 1);
    }
  }

  lemma DrawnMeanWithin(diffs: seq<real>, x: bv32, least: real, most: real)
    requires diffs != [] && Within(diffs, least, most)
    ensures least <= Over(Drawn(diffs, x, |diffs|), |diffs|) <= most
  {
    var n := |diffs|;
    var total := Drawn(diffs, x, n);
    assert least * n as real <= total <= most * n as real by { DrawnWithin(diffs, x, n, least, most); }
    OverWithin(total, n, least, most);
  }

  lemma ConsWithin(v: real, s: seq<real>, least: real, most: real)
    requires least <= v <= most && Within(s, least, most)
    ensures Within([v] + s, least, most)
  {
  }

  lemma SameElementsWithin(s: seq<real>, t: seq<real>, least: real, most: real)
    requires Within(s, least, most) && multiset(s) == multiset(t)
    ensures Within(t, least, most)
  {
    forall i | 0 <= i < |t| ensures least <= t[i] <= most {
      assert t[i] in multiset(s);
      var j :| 0 <= j < |s| && s[j] == t[i];
    }
  }

  lemma {:induction false} MeansWithin(diffs: seq<real>, x: bv32, iterations: nat, least: real, most: real)
    requires diffs != [] && Within(diffs, least, most)
    ensures Within(Means(diffs, x, iterations), least, most)
    decreases iterations
  {
    if iterations > 0 {
      DrawnMeanWithin(diffs, x, least, most);
      MeansWithin(diffs, After(x, |diffs|), iterations - 1, least, most);
      ConsWithin(Over(Drawn(diffs, x, |diffs|), |diffs|), Means(diffs, After(x, |diffs|), iterations - 1), least, most);
    }
  }

  lemma {:induction false} SumWithin(s: seq<real>, least: real, most: real)
    requires Within(s, least, most)
    ensures least * |s| as real <= Sum(s) <= most * |s| as real
  {
    if s != [] {
      var n := |s| - 1;
      SumWithin(s[..n], least, most);
      OneMoreTerm(least, n);
      OneMoreTerm(most, n);
    }
  }

  lemma MeanWithin(s: seq<real>, least: real, most: real)
    requires s != [] && Within(s, least, most)
    ensures least <= Over(Sum(s), |s|) <= most
  {
    SumWithin(s, least, most);
    OverWithin(Sum(s), |s|, least, most);
  }

  lemma SortedMeans(diffs: seq<real>, x: bv32, iterations: nat, least: real, most: real)
    requires diffs != [] && Within(diffs, least, most)
    ensures var means := Sort(Means(diffs, x, iterations));
            |means| == iterations && Ascending(means) && Within(means, least, most)
  {
    var means := Means(diffs, x, iterations);
    MeansLength(diffs, x, iterations);
    SortSorts(means);
    MeansWithin(diffs, x, iterations, least, most);
    SameElementsWithin(means, Sort(means), least, most);
  }

  lemma Ordered(s: seq<real>, i: int, j: int)
    requires Ascending(s) && 0 <= i <= j < |s|
    ensures s[i] <= s[j]
  {
  }

  /** The interval is ordered and, like the mean, stays inside the range of the differences. */
  lemma BootstrapWithin(diffs: seq<real>, iterations: nat, seed: int, least: real, most: real)
    requires iterations > 0 && diffs != [] && Within(diffs, least, most)
    ensures var b := PairedBootstrap(diffs, iterations, seed);
            least <= b.lo <= b.hi <= most && least <= b.mean <= most
  {
    var means := Sort(Means(diffs, Seeded(seed), iterations));
    RanksMirror(iterations);
    SortedMeans(diffs, Seeded(seed), iterations, least, most);
    Ordered(means, LoIndex(iterations), HiIndex(iterations));
    MeanWithin(diffs, least, most);
  }

  // ---------- the loops ----------

  /** `pairedBootstrap` */
  method RunBootstrap(diffs: seq<real>, iterations: nat, seed: int) returns (r: Outcome)
    ensures r == BootstrapOutcome(diffs, iterations, seed)
    ensures iterations > 0 ==> r == Bounded(PairedBootstrap(diffs, iterations, seed))
  {
    var n := |diffs|;
    if n == 0 { return Bounded(Interval(0.0, 0.0, 0.0)); }
    var means := ResampledMeans(diffs, iterations, seed);
    var total := 0.0;
    for i := 0 to n
      invariant total == Sum(diffs[..i])
    {
      assert diffs[..i + 1][..i] == diffs[..i];
      total := total + diffs[i];
    }
    assert diffs[..n] == diffs;
    if iterations == 0 { return Unbounded(Over(total, n)); }
    RanksMirror(iterations);
    MeansLength(diffs, Seeded(seed), iterations);
    SortSorts(means);
    var sorted := Sort(means);
    return Bounded(Interval(Over(total, n), sorted[LoIndex(iterations)], sorted[HiIndex(iterations)]));
  }

  method ResampledMeans(diffs: seq<real>, iterations: nat, seed: int) returns (means: seq<real>)
    requires diffs != []
    ensures means == Means(diffs, Seeded(seed), iterations)
  {
    var x := Seeded(seed);
    means := [];
    for i := 0 to iterations
      invariant means + Means(diffs, x, iterations - i) == Means(diffs, Seeded(seed), iterations)
    {
      var s;
      s, x := ResampledSum(diffs, x);
      means := means + [Over(s, |diffs|)];
    }
  }

  method ResampledSum(diffs: seq<real>, start: bv32) returns (s: real, x: bv32)
    requires diffs != []
    ensures s == Drawn(diffs, start, |diffs|) && x == After(start, |diffs|)
  {
    s, x := 0.0, start;
    for j := 0 to |diffs|
      invariant s + Drawn(diffs, x, |diffs| - j) == Drawn(diffs, start, |diffs|)
      invariant After(x, |diffs| - j) == After(start, |diffs|)
    {
      x := Next(x);
      s := s + diffs[Draw(x, |diffs|)];
    }
  }

  // ---------- what the resampling is ----------

  /** The ranks are the 2.5% and 97.5% quantiles: as near to the ends as that share of the means allows. */
  lemma RanksAreQuantiles(iterations: nat)
    requires iterations > 0
    ensures 40 * LoIndex(iterations) <= iterations < 40 * (LoIndex(iterations) + 1)
    ensures 40 * HiIndex(iterations) < 39 * iterations <= 40 * (HiIndex(iterations) + 1)
  {
  }

  lemma {:induction false} SumAdds(s: seq<real>, t: seq<real>)
    ensures Sum(s + t) == Sum(s) + Sum(t)
  {
    if t == [] {
      assert s + t == s;
    } else {
      assert (s + t)[..|s + t| - 1] == s + t[..|t| - 1];
      SumAdds(s, t[..|t| - 1]);
    }
  }

  /** Draw `j` of a resample started at state `x` takes the difference its generator state points at. */
  function DrawnItems(diffs: seq<real>, x: bv32, k: nat): seq<real>
    requires diffs != []
  {
    seq(k, j requires 0 <= j < k => diffs[(After(x, j + 1) as nat) % |diffs|])
  }

  lemma FirstItem(diffs: seq<real>, x: bv32, k: nat)
    requires diffs != [] && k > 0
    ensures DrawnItems(diffs, x, k) == [diffs[Draw(Next(x), |diffs|)]] + DrawnItems(diffs, Next(x), k - 1)
  {
    assert After(x, 1) == Next(x);
  }

  lemma {:induction false} DrawnIsSum(diffs: seq<real>, x: bv32, k: nat)
    requires diffs != []
    ensures Drawn(diffs, x, k) == Sum(DrawnItems(diffs, x, k))
    decreases k
  {
    if k > 0 {
      var first, rest := diffs[Draw(Next(x), |diffs|)], DrawnItems(diffs, Next(x), k - 1);
      DrawnIsSum(diffs, Next(x), k - 1);
      FirstItem(diffs, x, k);
      SumAdds([first], rest);
      SumOne(first);
    }
  }

  lemma SumOne(v: real)
    ensures Sum([v]) == v
  {
    assert [v][..0] == [];
  }

  lemma {:induction false} AfterAdds(x: bv32, j: nat, k: nat)
    ensures After(After(x, j), k) == After(x, j + k)
    decreases j
  {
    if j > 0 { AfterAdds(Next(x), j - 1, k); }
  }

  /** How many draws precede resample `i`. */
  function DrawsBefore(n: nat, i: nat): nat { if i == 0 then 0 else n + DrawsBefore(n, i - 1) }

  lemma {:induction false} DrawsBeforeIs(n: nat, i: nat)
    ensures DrawsBefore(n, i) == i * n
  {
    if i > 0 {
      DrawsBeforeIs(n, i - 1);
      assert (i - 1) * n + n == i * n;
    }
  }

  /** Resample `i` goes on where the one before stopped: the generator is never restarted. */
  lemma {:induction false} MeansAt(diffs: seq<real>, x: bv32, iterations: nat, i: nat)
    requires diffs != [] && i < iterations
    ensures i < |Means(diffs, x, iterations)|
    ensures Means(diffs, x, iterations)[i] ==
            Over(Sum(DrawnItems(diffs, After(x, DrawsBefore(|diffs|, i)), |diffs|)), |diffs|)
    decreases iterations
  {
    MeansLength(diffs, x, iterations);
    if i == 0 {
      DrawnIsSum(diffs, x, |diffs|);
    } else {
      MeansAt(diffs, After(x, |diffs|), iterations - 1, i - 1);
      AfterAdds(x, |diffs|, DrawsBefore(|diffs|, i - 1));
    }
  }

  ghost predicate IsShareOf(v: real, total: real, n: nat) { v * n as real == total }

  lemma OverIsShare(s: real, n: nat)
    requires n > 0
    ensures IsShareOf(Over(s, n), s, n)
  {
  }

  ghost predicate IsAverage(v: real, s: seq<real>) { IsShareOf(v, Sum(s), |s|) }

  lemma OverIsAverage(s: seq<real>)
    requires s != []
    ensures IsAverage(Over(Sum(s), |s|), s)
  {
    OverIsShare(Sum(s), |s|);
  }

  lemma MeanIs(diffs: seq<real>, iterations: nat, seed: int)
    requires diffs != [] && iterations > 0
    ensures PairedBootstrap(diffs, iterations, seed).mean == Over(Sum(diffs), |diffs|)
  {
  }

  /** The mean is the average of all differences. */
  lemma MeanIsAverage(diffs: seq<real>, iterations: nat, seed: int)
    requires diffs != [] && iterations > 0
    ensures IsAverage(PairedBootstrap(diffs, iterations, seed).mean, diffs)
  {
    MeanIs(diffs, iterations, seed);
    OverIsAverage(diffs);
  }
}

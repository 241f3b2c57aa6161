/** The `shuffle_range` test input: a seeded Fisher-Yates shuffle, in place. */
module GenerateInput {
  import opened Xorshift

  function Range(lo: int, n: nat): seq<int> { seq(n, i => lo + i) }

  function Swap(s: seq<int>, i: nat, j: nat): seq<int>
    requires i < |s| && j < |s|
  {
    s[i := s[j]][j := s[i]]
  }

  /** The rounds from index `i` down to 1, each drawing a partner at or below its own index. */
  function Shuffle(s: seq<int>, i: nat, x: bv32): seq<int>
    requires i < |s| || i == 0
    decreases i
  {
    if i == 0 then s else Shuffle(Swap(s, i, Draw(Next(x), i + 1)), i - 1, Next(x))
  }

  lemma SwapPermutes(s: seq<int>, i: nat, j: nat)
    requires i < |s| && j < |s|
    ensures multiset(Swap(s, i, j)) == multiset(s)
  {
  }

  lemma {:induction false} ShufflePermutes(s: seq<int>, i: nat, x: bv32)
    requires i < |s| || i == 0
    ensures multiset(Shuffle(s, i, x)) == multiset(s)
    decreases i
  {
    if i > 0 {
      var j := Draw(Next(x), i + 1);
      SwapPermutes(s, i, j);
      ShufflePermutes(Swap(s, i, j), i - 1, Next(x));
    }
  }

  /** Rounds below `i` never touch the positions above it: once placed, an element stays. */
  lemma {:induction false} PlacedStays(s: seq<int>, i: nat, x: bv32, k: nat)
    requires i < k < |s|
    ensures |Shuffle(s, i, x)| == |s| && Shuffle(s, i, x)[k] == s[k]
    decreases i
  {
    if i > 0 { PlacedStays(Swap(s, i, Draw(Next(x), i + 1)), i - 1, Next(x), k); }
  }

  /** The array after `r` rounds: round `r` swaps position `i - r + 1` with the one the `r`-th state points at. */
  function AfterRounds(s: seq<int>, i: nat, x: bv32, r: nat): (t: seq<int>)
    requires r <= i < |s|
    ensures |t| == |s|
  {
    if r == 0 then s
    else
      var k := i - r + 1;
      Swap(AfterRounds(s, i, x, r - 1), k, (After(x, r) as nat) % (k + 1))
  }

  lemma {:induction false} RoundsShift(s: seq<int>, i: nat, x: bv32, r: nat)
    requires 0 < r <= i < |s|
    ensures AfterRounds(s, i, x, r) == AfterRounds(Swap(s, i, Draw(Next(x), i + 1)), i - 1, Next(x), r - 1)
  {
    assert After(x, 1) == Next(x);
    if r > 1 { RoundsShift(s, i, x, r - 1); }
  }

  /** The shuffle is those rounds one after the other, each with a fresh state. */
  lemma {:induction false} ShuffleIsRounds(s: seq<int>, i: nat, x: bv32)
    requires i < |s|
    ensures Shuffle(s, i, x) == AfterRounds(s, i, x, i)
    decreases i
  {
    if i > 0 {
      ShuffleIsRounds(Swap(s, i, Draw(Next(x), i + 1)), i - 1, Next(x));
      RoundsShift(s, i, x, i);
    }
  }

  lemma {:induction false} RangeCounts(lo: int, n: nat, v: int)
    ensures multiset(Range(lo, n))[v] == if lo <= v < lo + n then 1 else 0
  {
    if n > 0 {
      assert Range(lo, n) == Range(lo, n - 1) + [lo + n - 1];
      RangeCounts(lo, n - 1, v);
    }
  }

  /** Every value of lo..lo+n-1 appears exactly once and nothing else does, whatever the seed. */
  lemma ShuffledRange(lo: int, n: nat, x: bv32, v: int)
    requires n > 0
    ensures multiset(Shuffle(Range(lo, n), n - 1, x))[v] == if lo <= v < lo + n then 1 else 0
  {
    ShufflePermutes(Range(lo, n), n - 1, x);
    RangeCounts(lo, n, v);
  }

  method SwapAt(a: array<int>, i: nat, j: nat)
    requires i < a.Length && j < a.Length
    modifies a
    ensures a[..] == Swap(old(a[..]), i, j)
  {
    a[i], a[j] := a[j], a[i];
  }

  /** The loop of the shuffle. */
  method ShuffleInPlace(a: array<int>, seed: int)
    requires a.Length > 0
    modifies a
    ensures a[..] == Shuffle(old(a[..]), a.Length - 1, Seeded(seed))
  {
    var x := Seeded(seed);
    var i := a.Length - 1;
    while i > 0
      invariant 0 <= i < a.Length
      invariant Shuffle(a[..], i, x) == Shuffle(old(a[..]), a.Length - 1, Seeded(seed))
    {
      x := Next(x);
      SwapAt(a, i, Draw(x, i + 1));
      i := i - 1;
    }
  }

  /** The generated array; equal seeds give equal arrays on every machine. */
  method ShuffleRange(n: nat, lo: int, seed: int) returns (a: array<int>)
    requires n > 0
    ensures fresh(a) && a[..] == Shuffle(Range(lo, n), n - 1, Seeded(seed))
    ensures a[..] == AfterRounds(seq(n, i => lo + i), n - 1, Seeded(seed), n - 1)
  {
    a := new int[n](i => lo + i);
    assert a[..] == Range(lo, n);
    ShuffleInPlace(a, seed);
    ShuffleIsRounds(Range(lo, n), n - 1, Seeded(seed));
    assert seq(n, i => lo + i) == Range(lo, n);
  }
}

/** Small facts about sequences as multisets. */
module Bags {

  function Without<T>(s: seq<T>, k: nat): seq<T>
    requires k < |s|
  {
    s[..k] + s[k + 1..]
  }

  lemma WithoutSnoc<T>(s: seq<T>, x: T, k: nat)
    requires k < |s|
    ensures Without(s + [x], k) == Without(s, k) + [x]
  {
    assert (s + [x])[..k] == s[..k] && (s + [x])[k + 1..] == s[k + 1..] + [x];
  }

  lemma WithoutOne<T>(s: seq<T>, k: nat)
    requires k < |s|
    ensures multiset(s) == multiset(Without(s, k)) + multiset{s[k]}
  {
    assert s == s[..k] + [s[k]] + s[k + 1..];
  }

  lemma OneMore<T>(s: seq<T>, k: nat)
    requires k < |s|
    ensures multiset(s[..k + 1]) == multiset(s[..k]) + multiset{s[k]}
  {
    assert s[..k + 1] == s[..k] + [s[k]];
  }

  lemma MoveOne<T>(a: multiset<T>, b: multiset<T>, x: T)
    ensures a + (b + multiset{x}) == (a + b) + multiset{x} == (a + multiset{x}) + b
  {
  }

  ghost predicate Distinct<T>(s: seq<T>) { forall i, j :: 0 <= i < j < |s| ==> s[i] != s[j] }

  lemma {:induction false} DistinctCounts<T>(s: seq<T>, x: T)
    requires Distinct(s)
    ensures multiset(s)[x] == if x in s then 1 else 0
  {
    if s != [] {
      var n := |s| - 1;
      assert s == s[..n] + [s[n]];
      DistinctCounts(s[..n], x);
    }
  }

  /** Sequences with the same elements and the same head have tails with the same elements. */
  lemma SameTails<T>(s: seq<T>, t: seq<T>)
    requires s != [] && t != [] && s[0] == t[0] && multiset(s) == multiset(t)
    ensures multiset(s[1..]) == multiset(t[1..])
  {
    assert s == [s[0]] + s[1..] && t == [t[0]] + t[1..];
    assert multiset(s[1..]) == multiset(s) - multiset{s[0]};
    assert multiset(t[1..]) == multiset(t) - multiset{t[0]};
  }

  /** Taking the same element out of two sequences with the same elements. */
  lemma WithoutSame<T>(s: seq<T>, i: nat, t: seq<T>, j: nat)
    requires i < |s| && j < |t| && s[i] == t[j] && multiset(s) == multiset(t)
    ensures multiset(Without(s, i)) == multiset(Without(t, j))
  {
    WithoutOne(s, i);
    WithoutOne(t, j);
    assert multiset(Without(s, i)) == multiset(s) - multiset{s[i]};
    assert multiset(Without(t, j)) == multiset(t) - multiset{t[j]};
  }

  lemma SameElements<T>(s: seq<T>, t: seq<T>)
    requires multiset(s) == multiset(t)
    ensures forall x :: x in s <==> x in t
  {
    forall x ensures x in s <==> x in t { assert x in multiset(s) <==> x in multiset(t); }
  }

  lemma SameLength<T>(s: seq<T>, t: seq<T>)
    requires multiset(s) == multiset(t)
    ensures |s| == |t|
  {
    assert |s| == |multiset(s)| && |t| == |multiset(t)|;
  }
}

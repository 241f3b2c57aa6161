/** Stable insertion sort by any total order, as the programs use `Array.prototype.sort`. */
module Sorting {
  import opened Bags

  ghost predicate IsTotalOrder<T(!new)>(leq: (T, T) -> bool) {
    && (forall x, y :: leq(x, y) || leq(y, x))
    && (forall x, y, z :: leq(x, y) && leq(y, z) ==> leq(x, z))
  }

  ghost predicate Sorted<T>(s: seq<T>, leq: (T, T) -> bool) {
    forall i, j :: 0 <= i < j < |s| ==> leq(s[i], s[j])
  }

  function Insert<T>(x: T, s: seq<T>, leq: (T, T) -> bool): seq<T> {
    if s == [] then [x] else if leq(x, s[0]) then [x] + s else [s[0]] + Insert(x, s[1..], leq)
  }

  function Sort<T>(s: seq<T>, leq: (T, T) -> bool): seq<T> {
    if s == [] then [] else Insert(s[0], Sort(s[1..], leq), leq)
  }

  lemma {:induction false} InsertKeeps<T>(x: T, s: seq<T>, leq: (T, T) -> bool)
    ensures multiset(Insert(x, s, leq)) == multiset{x} + multiset(s)
  {
    if s != [] {
      assert s == [s[0]] + s[1..];
      InsertKeeps(x, s[1..], leq);
    }
  }

  lemma ConsSorted<T>(x: T, s: seq<T>, leq: (T, T) -> bool)
    requires Sorted(s, leq) && forall y | y in multiset(s) :: leq(x, y)
    ensures Sorted([x] + s, leq)
  {
    forall k | 0 <= k < |s| ensures leq(x, s[k]) { assert s[k] in multiset(s); }
  }

  lemma {:induction false} InsertSorts<T(!new)>(x: T, s: seq<T>, leq: (T, T) -> bool)
    requires IsTotalOrder(leq) && Sorted(s, leq)
    ensures Sorted(Insert(x, s, leq), leq)
  {
    if s != [] {
      forall y | y in multiset(s[1..]) ensures leq(s[0], y) {
        var k :| 0 <= k < |s[1..]| && s[1..][k] == y;
        assert s[k + 1] == y;
      }
      assert s == [s[0]] + s[1..];
      if leq(x, s[0]) {
        ConsSorted(x, s, leq);
      } else {
        InsertKeeps(x, s[1..], leq);
        InsertSorts(x, s[1..], leq);
        ConsSorted(s[0], Insert(x, s[1..], leq), leq);
      }
    }
  }

  lemma {:induction false} SortSorts<T(!new)>(s: seq<T>, leq: (T, T) -> bool)
    requires IsTotalOrder(leq)
    ensures Sorted(Sort(s, leq), leq) && multiset(Sort(s, leq)) == multiset(s) && |Sort(s, leq)| == |s|
  {
    if s != [] {
      assert s == [s[0]] + s[1..];
      SortSorts(s[1..], leq);
      InsertKeeps(s[0], Sort(s[1..], leq), leq);
      InsertSorts(s[0], Sort(s[1..], leq), leq);
    }
    SameLength(Sort(s, leq), s);
  }

  /** No two different elements are equal in the order. */
  ghost predicate IsStrictOn<T>(s: seq<T>, leq: (T, T) -> bool) {
    forall x, y | x in s && y in s && leq(x, y) && leq(y, x) :: x == y
  }

  /** Then a sorted arrangement is unique, so sorting forgets the input order. */
  lemma {:induction false} SortedUnique<T(!new)>(s: seq<T>, t: seq<T>, leq: (T, T) -> bool)
    requires IsTotalOrder(leq) && Sorted(s, leq) && Sorted(t, leq) && multiset(s) == multiset(t) && IsStrictOn(t, leq)
    ensures s == t
  {
    SameLength(s, t);
    if s != [] {
      LeastFirst(s, t, leq);
      LeastFirst(t, s, leq);
      assert s[0] in multiset(t);
      assert s[0] in t && t[0] in t;
      SameTails(s, t);
      assert forall x | x in t[1..] :: x in t;
      SortedUnique(s[1..], t[1..], leq);
      assert s == [s[0]] + s[1..] && t == [t[0]] + t[1..];
    }
  }

  lemma LeastFirst<T(!new)>(s: seq<T>, t: seq<T>, leq: (T, T) -> bool)
    requires IsTotalOrder(leq) && s != [] && t != [] && Sorted(s, leq) && multiset(s) == multiset(t)
    ensures leq(s[0], t[0])
  {
    assert t[0] in multiset(s);
    var i :| 0 <= i < |s| && s[i] == t[0];
  }
}

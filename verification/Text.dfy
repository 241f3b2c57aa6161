/** Strings as the sources use them: the default sort order, `join`, and decimal numerals. */
module Text {
  import Sorting

  // ---------- lexicographic order ----------

  predicate Leq(a: string, b: string) {
    a == [] || (b != [] && (a[0] < b[0] || (a[0] == b[0] && Leq(a[1..], b[1..]))))
  }

  lemma {:induction false} LeqTotal(a: string, b: string)
    ensures Leq(a, b) || Leq(b, a)
  {
    if a != [] && b != [] { LeqTotal(a[1..], b[1..]); }
  }

  lemma {:induction false} LeqAntisymmetric(a: string, b: string)
    requires Leq(a, b) && Leq(b, a)
    ensures a == b
  {
    if a != [] {
      LeqAntisymmetric(a[1..], b[1..]);
      assert a == [a[0]] + a[1..] && b == [b[0]] + b[1..];
    }
  }

  lemma {:induction false} LeqTransitive(a: string, b: string, c: string)
    requires Leq(a, b) && Leq(b, c)
    ensures Leq(a, c)
  {
    if a != [] && a[0] == b[0] == c[0] { LeqTransitive(a[1..], b[1..], c[1..]); }
  }

  // ---------- sorting ----------

  ghost predicate Sorted(s: seq<string>) { Sorting.Sorted(s, Leq) }

  /** `[...s].sort()` */
  function Sort(s: seq<string>): seq<string> { Sorting.Sort(s, Leq) }

  lemma LeqIsTotalOrder()
    ensures Sorting.IsTotalOrder(Leq)
  {
    forall a, b ensures Leq(a, b) || Leq(b, a) { LeqTotal(a, b); }
    forall a, b, c | Leq(a, b) && Leq(b, c) ensures Leq(a, c) { LeqTransitive(a, b, c); }
  }

  lemma SortSorts(s: seq<string>)
    ensures Sorted(Sort(s)) && multiset(Sort(s)) == multiset(s)
  {
    LeqIsTotalOrder();
    Sorting.SortSorts(s, Leq);
  }

  /** A sorted arrangement of a multiset is unique, so sorting forgets the input order. */
  lemma SortedUnique(a: seq<string>, b: seq<string>)
    requires Sorted(a) && Sorted(b) && multiset(a) == multiset(b)
    ensures a == b
  {
    LeqIsTotalOrder();
    forall x, y | x in b && y in b && Leq(x, y) && Leq(y, x) ensures x == y { LeqAntisymmetric(x, y); }
    Sorting.SortedUnique(a, b, Leq);
  }

  // ---------- join ----------

  function Join(parts: seq<string>, sep: char): string {
    if parts == [] then ""
    else if |parts| == 1 then parts[0]
    else parts[0] + [sep] + Join(parts[1..], sep)
  }

  /** Two strings that agree up to the first `sep` after a `sep`-free prefix have the same prefix. */
  lemma SplitAtSeparator(a: string, x: string, b: string, y: string, sep: char)
    requires sep !in a && sep !in b
    requires a + [sep] + x == b + [sep] + y
    ensures a == b && x == y
  {
    var s := a + [sep] + x;
    assert s[|a|] == sep && s[|b|] == sep;
    assert s[..|a|] == a && s[..|b|] == b;
    assert forall i | 0 <= i < |a| :: s[i] == a[i];
    assert forall i | 0 <= i < |b| :: s[i] == b[i];
    assert s[|a| + 1..] == x && s[|b| + 1..] == y;
  }

  lemma JoinShowsSeparator(p: seq<string>, sep: char)
    requires |p| > 1
    ensures sep in Join(p, sep)
  {
    assert Join(p, sep)[|p[0]|] == sep;
  }

  /** `join` loses nothing when no part contains the separator. */
  lemma {:induction false} JoinInjective(p: seq<string>, q: seq<string>, sep: char)
    requires p != [] && q != []
    requires forall x | x in p :: sep !in x
    requires forall x | x in q :: sep !in x
    requires Join(p, sep) == Join(q, sep)
    ensures p == q
  {
    if |p| == 1 && |q| == 1 {
    } else if |p| == 1 {
      JoinShowsSeparator(q, sep);
    } else if |q| == 1 {
      JoinShowsSeparator(p, sep);
    } else {
      SplitAtSeparator(p[0], Join(p[1..], sep), q[0], Join(q[1..], sep), sep);
      JoinInjective(p[1..], q[1..], sep);
      assert p == [p[0]] + p[1..] && q == [q[0]] + q[1..];
    }
  }

  // ---------- decimal numerals ----------

  predicate IsDigit(c: char) { '0' <= c <= '9' }

  /** How a number prints inside a template literal. */
  function Decimal(n: nat): (s: string)
    ensures s != []
    ensures forall c | c in s :: IsDigit(c)
  {
    var last := ['0' + (n % 10) as char];
    if n < 10 then last else Decimal(n / 10) + last
  }

  function DigitValue(c: char): nat
    requires IsDigit(c)
  {
    c as int - '0' as int
  }

  function ParseDecimal(s: string): nat
    requires forall c | c in s :: IsDigit(c)
  {
    if s == [] then 0
    else ParseDecimal(s[..|s| - 1]) * 10 + DigitValue(s[|s| - 1])
  }

  lemma {:induction false} ParseDecimalOfDecimal(n: nat)
    ensures ParseDecimal(Decimal(n)) == n
  {
    if n >= 10 {
      ParseDecimalOfDecimal(n / 10);
      assert Decimal(n)[..|Decimal(n)| - 1] == Decimal(n / 10);
    }
  }

  lemma DecimalInjective(m: nat, n: nat)
    requires Decimal(m) == Decimal(n)
    ensures m == n
  {
    ParseDecimalOfDecimal(m);
    ParseDecimalOfDecimal(n);
  }

  ghost function Pow10(k: nat): nat { if k == 0 then 1 else 10 * Pow10(k - 1) }

  lemma {:induction false} DecimalLength(n: nat, k: nat)
    requires n < Pow10(k) && k > 0
    ensures |Decimal(n)| <= k
  {
    if n >= 10 {
      assert Pow10(k) == 10 * Pow10(k - 1) && Pow10(0) == 1;
      assert n / 10 < Pow10(k - 1);
      DecimalLength(n / 10, k - 1);
    }
  }
}

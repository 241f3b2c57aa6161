/** Flattening the test cases of every question into one bundle with unique keys. */
module AuthoringBundle {
  import opened Text

  const MAX_KEY_LENGTH := 64
  const MAX_GROUP_LENGTH := 100

  /** No JavaScript array is this long. */
  const ARRAY_LIMIT := 0x1_0000_0000

  /** `name` is the case name after decomposition, removal of combining marks and lower-casing. */
  datatype TestCase = TestCase(name: string, group: string, input: string, expectedOutput: string)

  datatype AuthoringCase = AuthoringCase(
    caseKey: string,
    group: string,
    input: string,
    expectedOutput: string,
    questionIndex: nat)

  // ---------- slugs ----------

  predicate IsKeyChar(c: char) { 'A' <= c <= 'Z' || 'a' <= c <= 'z' || '0' <= c <= '9' || c == '_' || c == '-' }

  predicate IsSlugChar(c: char) { 'a' <= c <= 'z' || '0' <= c <= '9' || c == '_' || c == '-' }

  /** `^[A-Za-z0-9_-]{1,64}$` */
  predicate IsCaseKey(s: string) { 1 <= |s| <= MAX_KEY_LENGTH && forall i | 0 <= i < |s| :: IsKeyChar(s[i]) }

  function ReplaceBarredD(s: string): string {
    seq(|s|, i requires 0 <= i < |s| => if s[i] == '\U{0111}' then 'd' else s[i])
  }

  function SkipForeign(s: string): string { if s != [] && !IsSlugChar(s[0]) then SkipForeign(s[1..]) else s }

  lemma {:induction false} SkipForeignShortens(s: string)
    ensures |SkipForeign(s)| <= |s|
  {
    if s != [] && !IsSlugChar(s[0]) { SkipForeignShortens(s[1..]); }
  }

  /** Each run of other characters becomes one dash. */
  function DashForeign(s: string): string
    decreases |s|
  {
    if s == [] then []
    else if IsSlugChar(s[0]) then [s[0]] + DashForeign(s[1..])
    else
      SkipForeignShortens(s[1..]);
      "-" + DashForeign(SkipForeign(s[1..]))
  }

  function CollapseDashes(s: string): string {
    if s == [] then []
    else if |s| >= 2 && s[0] == '-' && s[1] == '-' then CollapseDashes(s[1..])
    else [s[0]] + CollapseDashes(s[1..])
  }

  function TrimLeft(s: string): string { if s != [] && s[0] == '-' then TrimLeft(s[1..]) else s }

  function TrimRight(s: string): string { if s != [] && s[|s| - 1] == '-' then TrimRight(s[..|s| - 1]) else s }

  function TrimDashes(s: string): string { TrimRight(TrimLeft(s)) }

  function Slugify(name: string): string { TrimDashes(CollapseDashes(DashForeign(ReplaceBarredD(name)))) }

  predicate AllSlug(s: string) { forall i | 0 <= i < |s| :: IsSlugChar(s[i]) }

  lemma {:induction false} DashForeignIsSlug(s: string)
    ensures AllSlug(DashForeign(s))
    decreases |s|
  {
    if s != [] {
      SkipForeignShortens(s[1..]);
      if IsSlugChar(s[0]) { DashForeignIsSlug(s[1..]); } else { DashForeignIsSlug(SkipForeign(s[1..])); }
    }
  }

  lemma {:induction false} CollapseKeepsSlug(s: string)
    requires AllSlug(s)
    ensures AllSlug(CollapseDashes(s))
  {
    if s != [] { CollapseKeepsSlug(s[1..]); }
  }

  lemma {:induction false} TrimLeftIs(s: string)
    ensures exists k :: 0 <= k <= |s| && TrimLeft(s) == s[k..]
    ensures TrimLeft(s) != [] ==> TrimLeft(s)[0] != '-'
  {
    if s != [] && s[0] == '-' {
      TrimLeftIs(s[1..]);
      var k :| 0 <= k <= |s[1..]| && TrimLeft(s[1..]) == s[1..][k..];
      assert TrimLeft(s) == s[k + 1..];
    } else {
      assert s == s[0..];
    }
  }

  lemma {:induction false} TrimRightIs(s: string)
    ensures TrimRight(s) <= s
    ensures TrimRight(s) != [] ==> TrimRight(s)[|TrimRight(s)| - 1] != '-'
    ensures forall i | 0 <= i < |s| && s[i] != '-' :: |TrimRight(s)| > i
  {
    if s != [] && s[|s| - 1] == '-' { TrimRightIs(s[..|s| - 1]); }
  }

  /** A slug is made of slug characters and begins with none of the dashes. */
  lemma SlugShape(name: string)
    ensures AllSlug(Slugify(name))
    ensures Slugify(name) != [] ==> Slugify(name)[0] != '-'
  {
    var d := DashForeign(ReplaceBarredD(name));
    DashForeignIsSlug(ReplaceBarredD(name));
    CollapseKeepsSlug(d);
    TrimLeftIs(CollapseDashes(d));
    TrimRightIs(TrimLeft(CollapseDashes(d)));
  }

  // ---------- natural keys ----------

  function Prefix(question: nat): string { "q" + Decimal(question) + "-" }

  function Fallback(question: nat, caseIndex: nat): string { Prefix(question) + "c" + Decimal(caseIndex) }

  function Take(s: string, n: nat): string { if n <= |s| then s[..n] else s }

  /** `caseKeyFor` */
  function CaseKeyFor(question: nat, caseIndex: nat, name: string): string {
    var slug := Slugify(name);
    var fallback := Fallback(question, caseIndex);
    var candidate := if slug != [] then Take(Prefix(question) + slug, MAX_KEY_LENGTH) else fallback;
    var trimmed := TrimDashes(candidate);
    var fixed := if trimmed != [] then trimmed else fallback;
    if IsCaseKey(fixed) then fixed else fallback
  }

  ghost predicate Belongs(key: string, question: nat) {
    IsCaseKey(key) && Prefix(question) < key
  }

  lemma PrefixShape(question: nat)
    requires question <= ARRAY_LIMIT
    ensures |Prefix(question)| <= 12 && Prefix(question)[0] == 'q'
    ensures forall i | 0 <= i < |Prefix(question)| :: IsKeyChar(Prefix(question)[i])
  {
    assert Pow10(10) == 10 * (10 * (10 * (10 * (10 * (10 * (10 * (10 * (10 * (10 * Pow10(0))))))))));
    DecimalLength(question, 10);
    forall i | 0 <= i < |Decimal(question)| ensures IsDigit(Decimal(question)[i]) {
      assert Decimal(question)[i] in Decimal(question);
    }
  }

  lemma FallbackBelongs(question: nat, caseIndex: nat)
    requires question <= ARRAY_LIMIT && caseIndex <= ARRAY_LIMIT
    ensures Belongs(Fallback(question, caseIndex), question)
    ensures TrimDashes(Fallback(question, caseIndex)) == Fallback(question, caseIndex)
  {
    PrefixShape(question);
    PrefixShape(caseIndex);
    var d := Decimal(caseIndex);
    forall i | 0 <= i < |d| ensures IsDigit(d[i]) { assert d[i] in d; }
  }

  /** Every natural key is a valid key that starts with its question's prefix, whatever the name holds. */
  lemma CaseKeyBelongs(question: nat, caseIndex: nat, name: string)
    requires question <= ARRAY_LIMIT && caseIndex <= ARRAY_LIMIT
    ensures Belongs(CaseKeyFor(question, caseIndex, name), question)
  {
    var slug, prefix := Slugify(name), Prefix(question);
    FallbackBelongs(question, caseIndex);
    if slug != [] {
      SlugShape(name);
      PrefixShape(question);
      var candidate := Take(prefix + slug, MAX_KEY_LENGTH);
      assert candidate[|prefix|] == slug[0] != '-';
      assert TrimLeft(candidate) == candidate;
      TrimRightIs(candidate);
      assert forall i | 0 <= i < |candidate| :: IsKeyChar(candidate[i]);
      assert prefix < TrimRight(candidate);
    }
  }

  /** The prefix leads back to the question: a key belongs to one question only. */
  lemma TraceBack(key: string, p: nat, q: nat)
    requires Belongs(key, p) && Belongs(key, q)
    ensures p == q
  {
    var rest, rest' := key[|Prefix(p)|..], key[|Prefix(q)|..];
    assert forall c | c in Decimal(p) :: IsDigit(c);
    assert forall c | c in Decimal(q) :: IsDigit(c);
    assert key[1..] == Decimal(p) + ['-'] + rest;
    assert key[1..] == Decimal(q) + ['-'] + rest';
    SplitAtSeparator(Decimal(p), rest, Decimal(q), rest', '-');
    DecimalInjective(p, q);
  }

  // ---------- suffixes ----------

  /** `s.slice(0, end)`: a negative end counts from the back. */
  function Slice(s: string, end: int): string {
    if end >= 0 then Take(s, end) else if |s| + end > 0 then s[..|s| + end] else []
  }

  function Suffix(n: nat): string { "-" + Decimal(n) }

  function Suffixed(base: string, n: nat): string { Slice(base, MAX_KEY_LENGTH - |Suffix(n)|) + Suffix(n) }

  /** Candidates with different numbers are different strings, however the base is cut. */
  lemma SuffixedInjective(base: string, m: nat, n: nat)
    requires Suffixed(base, m) == Suffixed(base, n)
    ensures m == n
  {
    var s, t := Slice(base, MAX_KEY_LENGTH - |Suffix(m)|), Slice(base, MAX_KEY_LENGTH - |Suffix(n)|);
    LastDash(s, Decimal(m), t, Decimal(n));
    DecimalInjective(m, n);
  }

  lemma LastDash(s: string, d: string, t: string, e: string)
    requires '-' !in d && '-' !in e && s + ("-" + d) == t + ("-" + e)
    ensures d == e
  {
    var w := s + ("-" + d);
    assert w[|s|] == '-' && w[|t|] == '-';
    assert forall i | 0 <= i < |d| :: w[|s| + 1 + i] == d[i];
    assert forall i | 0 <= i < |e| :: w[|t| + 1 + i] == e[i];
    assert w[|s| + 1..] == d && w[|t| + 1..] == e;
  }

  lemma SuffixedBelongs(base: string, question: nat, n: nat)
    requires Belongs(base, question) && question <= ARRAY_LIMIT && n <= ARRAY_LIMIT + 1
    ensures Belongs(Suffixed(base, n), question)
  {
    PrefixShape(question);
    assert Pow10(10) == 10 * (10 * (10 * (10 * (10 * (10 * (10 * (10 * (10 * (10 * Pow10(0))))))))));
    DecimalLength(n, 10);
    var d, cut := Decimal(n), Slice(base, MAX_KEY_LENGTH - |Suffix(n)|);
    forall i | 0 <= i < |d| ensures IsDigit(d[i]) { assert d[i] in d; }
    assert Prefix(question) <= cut;
  }

  /** The key a case gets: its natural one if free, else the first free numbered one from 2 on. */
  ghost predicate Chosen(natural: string, earlier: set<string>, key: string) {
    && key !in earlier
    && (natural !in earlier ==> key == natural)
    && (natural in earlier ==> exists n: nat ::
          2 <= n <= |earlier| + 2 && key == Suffixed(natural, n) && TakenBelow(natural, earlier, n))
  }

  lemma {:induction false} SubsetSize<T>(a: set<T>, b: set<T>)
    requires a <= b
    ensures |a| <= |b|
    decreases |a|
  {
    if a != {} {
      var x :| x in a;
      SubsetSize(a - {x}, b - {x});
    }
  }

  ghost predicate TakenBelow(natural: string, used: set<string>, n: nat) {
    forall m: nat | 2 <= m < n :: Suffixed(natural, m) in used
  }

  /** `tried` holds the candidates numbered 2 up to `n - 1` and nothing else. */
  ghost predicate Tried(natural: string, tried: set<string>, n: nat) {
    forall k | k in tried :: exists m: nat :: 2 <= m < n && k == Suffixed(natural, m)
  }

  lemma TriedOneMore(natural: string, used: set<string>, tried: set<string>, n: nat)
    requires n >= 2 && tried <= used && |tried| == n - 2 && Tried(natural, tried, n) && Suffixed(natural, n) in used
    ensures |tried + {Suffixed(natural, n)}| == n - 1 <= |used|
    ensures Tried(natural, tried + {Suffixed(natural, n)}, n + 1)
  {
    var k := Suffixed(natural, n);
    if k in tried {
      var m: nat :| 2 <= m < n && k == Suffixed(natural, m);
      SuffixedInjective(natural, m, n);
    }
    SubsetSize(tried + {k}, used);
  }

  /** The retry loop; it ends because only so many candidates can be taken. */
  method FreshKey(natural: string, used: set<string>) returns (key: string)
    ensures Chosen(natural, used, key)
  {
    key := natural;
    if key !in used { return; }
    var n := 2;
    key := Suffixed(natural, n);
    ghost var tried: set<string> := {};
    while key in used
      invariant n >= 2 && key == Suffixed(natural, n) && TakenBelow(natural, used, n)
      invariant tried <= used && |tried| == n - 2 <= |used| && Tried(natural, tried, n)
      decreases |used| + 2 - n
    {
      TriedOneMore(natural, used, tried, n);
      tried := tried + {key};
      n := n + 1;
      key := Suffixed(natural, n);
    }
  }

  // ---------- groups ----------

  /** What JavaScript's `trim` removes. */
  predicate IsSpace(c: char) {
    || '\U{0009}' <= c <= '\U{000D}' || c == ' ' || c == '\U{00A0}' || c == '\U{1680}'
    || '\U{2000}' <= c <= '\U{200A}' || c == '\U{2028}' || c == '\U{2029}' || c == '\U{202F}' || c == '\U{205F}'
    || c == '\U{3000}' || c == '\U{FEFF}'
  }

  function Trim(s: string): string
    decreases |s|
  {
    if s != [] && IsSpace(s[0]) then Trim(s[1..])
    else if s != [] && IsSpace(s[|s| - 1]) then Trim(s[..|s| - 1])
    else s
  }

  /** `groupFor`: kept whole or replaced, never cut. */
  function GroupFor(group: string): string {
    if Trim(group) == [] || |Trim(group)| > MAX_GROUP_LENGTH then "general" else Trim(group)
  }

  lemma {:induction false} GroupFits(group: string)
    ensures 1 <= |GroupFor(group)| <= MAX_GROUP_LENGTH
    ensures !IsSpace(GroupFor(group)[0]) && !IsSpace(GroupFor(group)[|GroupFor(group)| - 1])
    ensures GroupFor(GroupFor(group)) == GroupFor(group)
    decreases |group|
  {
    if group != [] && IsSpace(group[0]) {
      GroupFits(group[1..]);
    } else if group != [] && IsSpace(group[|group| - 1]) {
      GroupFits(group[..|group| - 1]);
    }
  }

  // ---------- flattening ----------

  /** A case and where it stands, before its key is settled. */
  datatype Planned = Planned(t: TestCase, questionIndex: nat, caseIndex: nat)

  function Natural(p: Planned): string { CaseKeyFor(p.questionIndex + 1, p.caseIndex, p.t.name) }

  function RowOf(p: Planned, key: string): AuthoringCase {
    AuthoringCase(key, GroupFor(p.t.group), p.t.input, p.t.expectedOutput, p.questionIndex)
  }

  /** The first `c` cases of one question. */
  function PlanBundle(bundle: seq<TestCase>, questionIndex: nat, c: nat): seq<Planned>
    requires c <= |bundle|
  {
    if c == 0 then [] else PlanBundle(bundle, questionIndex, c - 1) + [Planned(bundle[c - 1], questionIndex, c - 1)]
  }

  /** One planned case per input case, in order. */
  function Plan(questions: seq<seq<TestCase>>): seq<Planned> {
    if questions == [] then []
    else
      var n := |questions| - 1;
      Plan(questions[..n]) + PlanBundle(questions[n], n, |questions[n]|)
  }

  ghost function KeySet(out: seq<AuthoringCase>): set<string> {
    if out == [] then {} else KeySet(out[..|out| - 1]) + {out[|out| - 1].caseKey}
  }

  /** A row is its plan with a key that was chosen against the rows before it. */
  ghost predicate RowSettles(p: Planned, earlier: seq<AuthoringCase>, row: AuthoringCase) {
    row == RowOf(p, row.caseKey) && Chosen(Natural(p), KeySet(earlier), row.caseKey)
  }

  /** Row by row the plan with its keys settled, earlier rows choosing first. */
  ghost predicate Settles(plan: seq<Planned>, out: seq<AuthoringCase>) {
    && |out| == |plan|
    && forall k | 0 <= k < |plan| :: RowSettles(plan[k], out[..k], out[k])
  }

  lemma SettlesOneMore(plan: seq<Planned>, out: seq<AuthoringCase>, p: Planned, key: string)
    requires Settles(plan, out) && Chosen(Natural(p), KeySet(out), key)
    ensures Settles(plan + [p], out + [RowOf(p, key)])
    ensures KeySet(out + [RowOf(p, key)]) == KeySet(out) + {key}
  {
    var out' := out + [RowOf(p, key)];
    assert out'[..|out|] == out;
    forall k | 0 <= k < |plan| + 1 ensures RowSettles((plan + [p])[k], out'[..k], out'[k]) {
      if k < |plan| {
        assert out'[..k] == out[..k];
        assert RowSettles(plan[k], out[..k], out[k]);
      }
    }
  }

  lemma {:induction false} KeySetMembers(out: seq<AuthoringCase>, i: nat)
    ensures |KeySet(out)| <= |out|
    ensures i < |out| ==> out[i].caseKey in KeySet(out)
  {
    if out != [] { KeySetMembers(out[..|out| - 1], i); }
  }

  /** One case: settle its key, mark it used, push the row. */
  method PushCase(t: TestCase, q: nat, c: nat, ghost plan: seq<Planned>, before: seq<AuthoringCase>, used: set<string>)
    returns (out: seq<AuthoringCase>, used': set<string>)
    requires Settles(plan, before) && used == KeySet(before)
    ensures Settles(plan + [Planned(t, q, c)], out) && used' == KeySet(out)
  {
    var p := Planned(t, q, c);
    var key := FreshKey(Natural(p), used);
    SettlesOneMore(plan, before, p, key);
    return before + [RowOf(p, key)], used + {key};
  }

  lemma PlanOneMore(plan: seq<Planned>, bundle: seq<TestCase>, q: nat, c: nat)
    requires c < |bundle|
    ensures plan + PlanBundle(bundle, q, c) + [Planned(bundle[c], q, c)] == plan + PlanBundle(bundle, q, c + 1)
  {
  }

  /** The inner loop, over one question's cases. */
  method PushBundle(bundle: seq<TestCase>, q: nat, ghost plan: seq<Planned>,
                    before: seq<AuthoringCase>, used: set<string>)
    returns (out: seq<AuthoringCase>, used': set<string>)
    requires Settles(plan, before) && used == KeySet(before)
    ensures Settles(plan + PlanBundle(bundle, q, |bundle|), out) && used' == KeySet(out)
  {
    out, used' := before, used;
    assert plan + PlanBundle(bundle, q, 0) == plan;
    for c := 0 to |bundle|
      invariant Settles(plan + PlanBundle(bundle, q, c), out) && used' == KeySet(out)
    {
      PlanOneMore(plan, bundle, q, c);
      out, used' := PushCase(bundle[c], q, c, plan + PlanBundle(bundle, q, c), out, used');
    }
  }

  /** `flattenAuthoringCases` */
  method Flatten(questions: seq<seq<TestCase>>) returns (out: seq<AuthoringCase>)
    ensures Settles(Plan(questions), out)
  {
    var used: set<string> := {};
    out := [];
    for q := 0 to |questions|
      invariant Settles(Plan(questions[..q]), out) && used == KeySet(out)
    {
      assert questions[..q + 1][..q] == questions[..q];
      out, used := PushBundle(questions[q], q, Plan(questions[..q]), out, used);
    }
    assert questions[..|questions|] == questions;
  }

  ghost predicate SmallEnough(questions: seq<seq<TestCase>>) {
    && |questions| < ARRAY_LIMIT && |Plan(questions)| < ARRAY_LIMIT
    && forall q | 0 <= q < |questions| :: |questions[q]| < ARRAY_LIMIT
  }

  lemma {:induction false} PlanBundleCases(bundle: seq<TestCase>, q: nat, c: nat)
    requires c <= |bundle|
    ensures |PlanBundle(bundle, q, c)| == c
    ensures forall k :: 0 <= k < c ==> PlanBundle(bundle, q, c)[k] == Planned(bundle[k], q, k)
  {
    if c > 0 { PlanBundleCases(bundle, q, c - 1); }
  }

  /** A planned case that has a valid natural key of its question. */
  ghost predicate WellPlanned(p: Planned, questions: nat) {
    p.questionIndex < questions && Belongs(Natural(p), p.questionIndex + 1)
  }

  lemma BundleIsWellPlanned(bundle: seq<TestCase>, q: nat)
    requires |bundle| < ARRAY_LIMIT && q < ARRAY_LIMIT
    ensures forall p | p in PlanBundle(bundle, q, |bundle|) :: WellPlanned(p, q + 1)
  {
    PlanBundleCases(bundle, q, |bundle|);
    var plan := PlanBundle(bundle, q, |bundle|);
    forall p | p in plan ensures WellPlanned(p, q + 1) {
      var k :| 0 <= k < |plan| && plan[k] == p;
      CaseIsWellPlanned(bundle[k], q, k);
    }
  }

  lemma CaseIsWellPlanned(t: TestCase, q: nat, c: nat)
    requires q < ARRAY_LIMIT && c <= ARRAY_LIMIT
    ensures WellPlanned(Planned(t, q, c), q + 1)
  {
    CaseKeyBelongs(q + 1, c, t.name);
  }

  lemma {:induction false} PlanBelongs(questions: seq<seq<TestCase>>)
    requires |questions| < ARRAY_LIMIT && forall q | 0 <= q < |questions| :: |questions[q]| < ARRAY_LIMIT
    ensures forall p | p in Plan(questions) :: WellPlanned(p, |questions|)
  {
    if questions != [] {
      var n := |questions| - 1;
      PlanBelongs(questions[..n]);
      BundleIsWellPlanned(questions[n], n);
      forall p | p in Plan(questions) ensures WellPlanned(p, |questions|) {
        assert p in Plan(questions[..n]) || p in PlanBundle(questions[n], n, |questions[n]|);
      }
    }
  }

  lemma KeysAreDistinct(plan: seq<Planned>, out: seq<AuthoringCase>)
    requires Settles(plan, out)
    ensures forall i, j :: 0 <= i < j < |out| ==> out[i].caseKey != out[j].caseKey
  {
    forall i, j | 0 <= i < j < |out| ensures out[i].caseKey != out[j].caseKey {
      assert RowSettles(plan[j], out[..j], out[j]);
      KeySetMembers(out[..j], i);
    }
  }

  ghost predicate IsWellKeyed(row: AuthoringCase) { Belongs(row.caseKey, row.questionIndex + 1) }

  lemma RowBelongs(p: Planned, earlier: seq<AuthoringCase>, row: AuthoringCase, questions: nat)
    requires WellPlanned(p, questions) && questions < ARRAY_LIMIT && |earlier| < ARRAY_LIMIT
    requires RowSettles(p, earlier, row)
    ensures IsWellKeyed(row)
  {
    ChosenBelongs(Natural(p), earlier, row.caseKey, p.questionIndex + 1);
  }

  lemma RowsBelong(plan: seq<Planned>, out: seq<AuthoringCase>, questions: nat)
    requires Settles(plan, out) && |plan| < ARRAY_LIMIT && questions < ARRAY_LIMIT
    requires forall p | p in plan :: WellPlanned(p, questions)
    ensures forall k :: 0 <= k < |out| ==> IsWellKeyed(out[k])
  {
    forall k: nat | k < |out| ensures IsWellKeyed(out[k]) {
      var p, earlier, row := plan[k], out[..k], out[k];
      assert p in plan && RowSettles(p, earlier, row);
      RowBelongs(p, earlier, row, questions);
    }
  }

  /**
   * What the database demands and the bundle promises: keys are pairwise distinct and match the case-key
   * pattern, and a key leads back to the question its case belongs to.
   */
  lemma BundleIsWellKeyed(questions: seq<seq<TestCase>>, out: seq<AuthoringCase>)
    requires SmallEnough(questions) && Settles(Plan(questions), out)
    ensures forall i, j :: 0 <= i < j < |out| ==> out[i].caseKey != out[j].caseKey
    ensures forall k :: 0 <= k < |out| ==>
              IsCaseKey(out[k].caseKey) && forall q | Belongs(out[k].caseKey, q) :: q == out[k].questionIndex + 1
    ensures forall k :: 0 <= k < |out| ==> Belongs(out[k].caseKey, out[k].questionIndex + 1)
  {
    KeysAreDistinct(Plan(questions), out);
    PlanBelongs(questions);
    RowsBelong(Plan(questions), out, |questions|);
    forall k | 0 <= k < |out| ensures Belongs(out[k].caseKey, out[k].questionIndex + 1) {
      assert IsWellKeyed(out[k]);
    }
    forall k, q: nat | 0 <= k < |out| && Belongs(out[k].caseKey, q) ensures q == out[k].questionIndex + 1 {
      TraceBack(out[k].caseKey, q, out[k].questionIndex + 1);
    }
  }

  lemma ChosenBelongs(natural: string, earlier: seq<AuthoringCase>, key: string, question: nat)
    requires Chosen(natural, KeySet(earlier), key) && Belongs(natural, question) && question <= ARRAY_LIMIT
    requires |earlier| < ARRAY_LIMIT
    ensures Belongs(key, question)
  {
    KeySetMembers(earlier, 0);
    if natural in KeySet(earlier) {
      var n: nat :| 2 <= n <= |KeySet(earlier)| + 2 && key == Suffixed(natural, n);
      SuffixedBelongs(natural, question, n);
    }
  }
}

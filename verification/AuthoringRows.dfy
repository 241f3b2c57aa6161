/** What the rows of a flattened bundle hold: the case they come from, its group, and as much of its name as fits. */
module AuthoringRows {
  import opened AuthoringBundle
  import opened Text

  // ---------- the cases, in order ----------

  /** How many cases the first `q` questions have. */
  function CasesBefore(questions: seq<seq<TestCase>>, q: nat): nat
    requires q <= |questions|
  {
    if q == 0 then 0 else CasesBefore(questions, q - 1) + |questions[q - 1]|
  }

  lemma {:induction false} CasesBeforePrefix(questions: seq<seq<TestCase>>, n: nat, q: nat)
    requires q <= n <= |questions|
    ensures CasesBefore(questions[..n], q) == CasesBefore(questions, q)
  {
    if q > 0 { CasesBeforePrefix(questions, n, q - 1); }
  }

  lemma {:induction false} PlanSize(questions: seq<seq<TestCase>>)
    ensures |Plan(questions)| == CasesBefore(questions, |questions|)
  {
    if questions != [] {
      var n := |questions| - 1;
      PlanSize(questions[..n]);
      CasesBeforePrefix(questions, n, n);
      PlanBundleCases(questions[n], n, |questions[n]|);
    }
  }

  lemma {:induction false} PlanAt(questions: seq<seq<TestCase>>, q: nat, c: nat)
    requires q < |questions| && c < |questions[q]|
    ensures CasesBefore(questions, q) + c < |Plan(questions)|
    ensures Plan(questions)[CasesBefore(questions, q) + c] == Planned(questions[q][c], q, c)
  {
    var n := |questions| - 1;
    PlanSize(questions[..n]);
    CasesBeforePrefix(questions, n, n);
    PlanBundleCases(questions[n], n, |questions[n]|);
    if q < n {
      PlanAt(questions[..n], q, c);
      CasesBeforePrefix(questions, n, q);
    }
  }

  /** Case `c` of question `q` has its row behind those of all cases before it, with its input and output unchanged. */
  lemma RowsCarryCases(questions: seq<seq<TestCase>>, out: seq<AuthoringCase>, q: nat, c: nat)
    requires Settles(Plan(questions), out) && q < |questions| && c < |questions[q]|
    ensures |out| == CasesBefore(questions, |questions|)
    ensures var k := CasesBefore(questions, q) + c;
            && k < |out| && out[k].questionIndex == q && out[k].group == GroupFor(questions[q][c].group)
            && out[k].input == questions[q][c].input && out[k].expectedOutput == questions[q][c].expectedOutput
  {
    var k := CasesBefore(questions, q) + c;
    PlanSize(questions);
    PlanAt(questions, q, c);
    assert RowSettles(Plan(questions)[k], out[..k], out[k]);
  }

  ghost predicate Earlier(out: seq<AuthoringCase>, k: nat, key: string)
    requires k <= |out|
  {
    exists j :: 0 <= j < k && out[j].caseKey == key
  }

  lemma {:induction false} KeySetIsEarlier(out: seq<AuthoringCase>, k: nat, key: string)
    requires k <= |out|
    ensures key in KeySet(out[..k]) <==> Earlier(out, k, key)
  {
    if k > 0 {
      KeySetIsEarlier(out, k - 1, key);
      assert out[..k][..k - 1] == out[..k - 1];
    }
  }

  /** The first number from 2 on whose key no earlier row has. */
  ghost predicate IsFirstFree(out: seq<AuthoringCase>, k: nat, natural: string, n: nat)
    requires k <= |out|
  {
    && n >= 2 && !Earlier(out, k, Suffixed(natural, n))
    && forall m: nat | 2 <= m < n :: Earlier(out, k, Suffixed(natural, m))
  }

  lemma ChosenIsFree(out: seq<AuthoringCase>, k: nat, natural: string, key: string) returns (n: nat)
    requires k <= |out| && Chosen(natural, KeySet(out[..k]), key)
    ensures !Earlier(out, k, natural) ==> key == natural
    ensures Earlier(out, k, natural) ==> key == Suffixed(natural, n) && IsFirstFree(out, k, natural, n)
  {
    n := 2;
    KeySetIsEarlier(out, k, natural);
    KeySetIsEarlier(out, k, key);
    if natural in KeySet(out[..k]) {
      var earlier := KeySet(out[..k]);
      n :| 2 <= n <= |earlier| + 2 && key == Suffixed(natural, n) && TakenBelow(natural, earlier, n);
      forall m: nat | 2 <= m < n ensures Earlier(out, k, Suffixed(natural, m)) {
        KeySetIsEarlier(out, k, Suffixed(natural, m));
      }
    }
  }

  /** A case keeps its own key unless an earlier row has it, and then takes the first number from 2 that is free. */
  lemma RowKeysAre(questions: seq<seq<TestCase>>, out: seq<AuthoringCase>, q: nat, c: nat) returns (k: nat, n: nat)
    requires Settles(Plan(questions), out) && q < |questions| && c < |questions[q]|
    ensures k == CasesBefore(questions, q) + c < |out|
    ensures var natural := CaseKeyFor(q + 1, c, questions[q][c].name);
            && (!Earlier(out, k, natural) ==> out[k].caseKey == natural)
            && (Earlier(out, k, natural) ==>
                  out[k].caseKey == Suffixed(natural, n) && IsFirstFree(out, k, natural, n))
  {
    k := CasesBefore(questions, q) + c;
    PlanAt(questions, q, c);
    assert RowSettles(Plan(questions)[k], out[..k], out[k]);
    n := ChosenIsFree(out, k, CaseKeyFor(q + 1, c, questions[q][c].name), out[k].caseKey);
  }

  // ---------- groups ----------

  ghost predicate AllSpace(s: string) { forall i :: 0 <= i < |s| ==> IsSpace(s[i]) }

  /** Neither end is white space. */
  ghost predicate IsTight(s: string) { s != "" ==> !IsSpace(s[0]) && !IsSpace(s[|s| - 1]) }

  lemma {:induction false} TrimRightOnly(t: string, b: string)
    requires IsTight(t) && AllSpace(b)
    ensures Trim(t + b) == t
    decreases |b|
  {
    var s := t + b;
    if b == "" {
      assert s == t;
    } else if t == "" {
      assert s[1..] == "" + b[1..];
      TrimRightOnly(t, b[1..]);
    } else {
      assert s[..|s| - 1] == t + b[..|b| - 1];
      TrimRightOnly(t, b[..|b| - 1]);
    }
  }

  lemma {:induction false} TrimIs(a: string, t: string, b: string)
    requires AllSpace(a) && IsTight(t) && AllSpace(b)
    ensures Trim(a + t + b) == t
    decreases |a|
  {
    var s := a + t + b;
    if a == "" {
      assert s == t + b;
      TrimRightOnly(t, b);
    } else {
      assert s[1..] == a[1..] + t + b;
      TrimIs(a[1..], t, b);
    }
  }

  /** White space around a group is dropped; a group of 1 to 100 characters stays, any other becomes "general". */
  lemma GroupIs(a: string, t: string, b: string)
    requires AllSpace(a) && IsTight(t) && AllSpace(b)
    ensures GroupFor(a + t + b) == if 1 <= |t| <= 100 then t else "general"
  {
    TrimIs(a, t, b);
  }

  // ---------- slugs ----------

  predicate IsWordChar(c: char) { 'a' <= c <= 'z' || '0' <= c <= '9' || c == '_' }

  /** The longest runs of lower-case letters, digits and underscores, in order. */
  function Words(s: string): (w: seq<string>)
    ensures s != "" && IsWordChar(s[0]) ==> w != []
  {
    if s == "" then []
    else if !IsWordChar(s[0]) then Words(s[1..])
    else if |s| > 1 && IsWordChar(s[1]) then [[s[0]] + Words(s[1..])[0]] + Words(s[1..])[1..]
    else [[s[0]]] + Words(s[1..])
  }

  lemma WordsCons(c: char, s: string, t: string)
    requires Words(s) == Words(t) && (s == "" <==> t == "") && (s != "" ==> (IsWordChar(s[0]) <==> IsWordChar(t[0])))
    ensures Words([c] + s) == Words([c] + t)
  {
    assert ([c] + s)[1..] == s && ([c] + t)[1..] == t;
  }

  lemma WordsDash(s: string)
    ensures Words("-" + s) == Words(s)
  {
    assert ("-" + s)[1..] == s;
  }

  lemma {:induction false} WordsSkip(s: string)
    ensures Words(SkipForeign(s)) == Words(s)
  {
    if s != "" && !IsSlugChar(s[0]) { WordsSkip(s[1..]); }
  }

  lemma {:induction false} DashForeignKeepsWords(s: string)
    ensures Words(DashForeign(s)) == Words(s)
    ensures s == "" <==> DashForeign(s) == ""
    ensures s != "" ==> DashForeign(s)[0] == if IsSlugChar(s[0]) then s[0] else '-'
    decreases |s|
  {
    if s != "" {
      SkipForeignShortens(s[1..]);
      if IsSlugChar(s[0]) {
        DashForeignKeepsWords(s[1..]);
        WordsCons(s[0], DashForeign(s[1..]), s[1..]);
        assert [s[0]] + s[1..] == s;
      } else {
        DashForeignKeepsWords(SkipForeign(s[1..]));
        WordsDash(DashForeign(SkipForeign(s[1..])));
        WordsSkip(s[1..]);
      }
    }
  }

  lemma {:induction false} CollapseKeepsWords(s: string)
    ensures Words(CollapseDashes(s)) == Words(s)
    ensures s == "" <==> CollapseDashes(s) == ""
    ensures s != "" ==> CollapseDashes(s)[0] == s[0]
  {
    if s != "" {
      CollapseKeepsWords(s[1..]);
      if !(|s| >= 2 && s[0] == '-' && s[1] == '-') {
        WordsCons(s[0], CollapseDashes(s[1..]), s[1..]);
        assert [s[0]] + s[1..] == s;
      }
    }
  }

  lemma {:induction false} TrimLeftKeepsWords(s: string)
    ensures Words(TrimLeft(s)) == Words(s)
  {
    if s != "" && s[0] == '-' { TrimLeftKeepsWords(s[1..]); }
  }

  lemma {:induction false} WordsThenDash(s: string)
    ensures Words(s + "-") == Words(s)
  {
    if s == "" {
      assert s + "-" == "-" + "";
      WordsDash("");
    } else {
      WordsThenDash(s[1..]);
      assert (s + "-")[1..] == s[1..] + "-";
      assert |s| == 1 ==> Words(s[1..]) == [];
    }
  }

  lemma {:induction false} TrimRightKeepsWords(s: string)
    ensures Words(TrimRight(s)) == Words(s)
  {
    if s != "" && s[|s| - 1] == '-' {
      TrimRightKeepsWords(s[..|s| - 1]);
      WordsThenDash(s[..|s| - 1]);
      assert s[..|s| - 1] + "-" == s;
    }
  }

  ghost predicate NoDoubleDash(s: string) {
    forall i, j :: 0 <= i && j == i + 1 < |s| ==> !(s[i] == '-' && s[j] == '-')
  }

  lemma {:induction false} CollapsedHasNoDouble(s: string)
    ensures NoDoubleDash(CollapseDashes(s))
  {
    if s != "" {
      CollapsedHasNoDouble(s[1..]);
      CollapseKeepsWords(s[1..]);
    }
  }

  lemma Assoc(a: string, b: string, c: string)
    ensures a + (b + c) == (a + b) + c
  {
  }

  lemma JoinLonger(c: char, words: seq<string>)
    requires words != []
    ensures Join([[c] + words[0]] + words[1..], '-') == [c] + Join(words, '-')
  {
    var rest := words[1..];
    assert ([[c] + words[0]] + rest)[1..] == rest;
    Assoc([c], words[0] + ['-'], Join(rest, '-'));
    Assoc([c], words[0], ['-']);
  }

  lemma JoinNew(c: char, words: seq<string>)
    requires words != []
    ensures Join([[c]] + words, '-') == [c] + ("-" + Join(words, '-'))
  {
    assert ([[c]] + words)[1..] == words;
    Assoc([c], ['-'], Join(words, '-'));
  }

  /** A text of words with single dashes between them is its words joined. */
  lemma {:induction false} WordsJoinBack(s: string)
    requires AllSlug(s) && NoDoubleDash(s) && (s != "" ==> s[|s| - 1] != '-')
    ensures s != "" && s[0] == '-' ==> s == "-" + Join(Words(s), '-') && Words(s) != []
    ensures s == "" || s[0] != '-' ==> s == Join(Words(s), '-')
  {
    if s != "" {
      assert s == [s[0]] + s[1..];
      assert forall i, j :: 0 <= i && j == i + 1 < |s[1..]| ==> s[1..][i] == s[i + 1] && s[1..][j] == s[j + 1];
      WordsJoinBack(s[1..]);
      if s[0] != '-' && |s| > 1 {
        JoinLonger(s[0], Words(s[1..]));
        JoinNew(s[0], Words(s[1..]));
      }
    }
  }

  lemma NoDoubleInside(s: string, k: nat, n: nat)
    requires k <= n <= |s| && AllSlug(s) && NoDoubleDash(s)
    ensures AllSlug(s[k..n]) && NoDoubleDash(s[k..n])
  {
    var t := s[k..n];
    forall i, j | 0 <= i && j == i + 1 < |t| ensures !(t[i] == '-' && t[j] == '-') {
      assert t[i] == s[k + i] && t[j] == s[k + j];
    }
  }

  lemma TrimLeftShape(s: string)
    requires AllSlug(s) && NoDoubleDash(s)
    ensures AllSlug(TrimLeft(s)) && NoDoubleDash(TrimLeft(s))
  {
    TrimLeftIs(s);
    var k :| 0 <= k <= |s| && TrimLeft(s) == s[k..];
    NoDoubleInside(s, k, |s|);
  }

  lemma TrimRightShape(s: string)
    requires AllSlug(s) && NoDoubleDash(s)
    ensures AllSlug(TrimRight(s)) && NoDoubleDash(TrimRight(s))
  {
    TrimRightIs(s);
    NoDoubleInside(s, 0, |TrimRight(s)|);
    assert TrimRight(s) == s[0..|TrimRight(s)|];
  }

  lemma TrimmedShape(s: string)
    requires AllSlug(s) && NoDoubleDash(s)
    ensures var t := TrimDashes(s);
            && AllSlug(t) && NoDoubleDash(t) && Words(t) == Words(s)
            && (t != "" ==> t[|t| - 1] != '-')
    ensures TrimDashes(s) != "" ==> TrimDashes(s)[0] != '-'
  {
    TrimLeftShape(s);
    TrimRightShape(TrimLeft(s));
    TrimLeftKeepsWords(s);
    TrimRightKeepsWords(TrimLeft(s));
    TrimLeftIs(s);
    TrimRightIs(TrimLeft(s));
  }

  /** A slug is the words of the name, one dash between each two, a barred d being a plain one. */
  lemma SlugIsWords(name: string)
    ensures Slugify(name) == Join(Words(ReplaceBarredD(name)), '-')
    ensures |ReplaceBarredD(name)| == |name|
    ensures forall i :: 0 <= i < |name| ==> ReplaceBarredD(name)[i] == if name[i] == '\U{0111}' then 'd' else name[i]
  {
    var plain := ReplaceBarredD(name);
    var dashed := DashForeign(plain);
    DashForeignIsSlug(plain);
    DashForeignKeepsWords(plain);
    CollapseKeepsSlug(dashed);
    CollapseKeepsWords(dashed);
    CollapsedHasNoDouble(dashed);
    TrimmedShape(CollapseDashes(dashed));
    WordsJoinBack(Slugify(name));
  }

  // ---------- keys ----------

  /** Cutting at 64 characters and trimming dashes leaves the beginning of the text, all of it if it fits. */
  lemma CutKey(prefix: string, slug: string)
    requires 1 <= |prefix| <= 12 && prefix[0] == 'q' && forall i | 0 <= i < |prefix| :: IsKeyChar(prefix[i])
    requires slug != "" && AllSlug(slug) && slug[0] != '-' && slug[|slug| - 1] != '-'
    ensures var key := TrimDashes(Take(prefix + slug, MAX_KEY_LENGTH));
            IsCaseKey(key) && key <= prefix + slug && (|prefix + slug| <= MAX_KEY_LENGTH ==> key == prefix + slug)
  {
    var whole := prefix + slug;
    var candidate := Take(whole, MAX_KEY_LENGTH);
    assert TrimLeft(candidate) == candidate;
    TrimRightIs(candidate);
    assert candidate[|prefix|] == slug[0];
    assert forall i | 0 <= i < |candidate| :: IsKeyChar(candidate[i]);
    assert whole[|whole| - 1] == slug[|slug| - 1];
  }

  /** A natural key shows its question and the name's slug, whole if it fits and else cut; no slug, the case's index. */
  lemma KeyShowsName(question: nat, caseIndex: nat, name: string)
    requires question <= ARRAY_LIMIT && caseIndex <= ARRAY_LIMIT
    ensures var key, slug := CaseKeyFor(question, caseIndex, name), Slugify(name);
            var prefix := "q" + Decimal(question) + "-";
            && (slug == "" ==> key == prefix + "c" + Decimal(caseIndex))
            && (slug != "" ==> key <= prefix + slug)
            && (slug != "" && |prefix + slug| <= 64 ==> key == prefix + slug)
  {
    var slug, prefix := Slugify(name), Prefix(question);
    FallbackBelongs(question, caseIndex);
    if slug != "" {
      SlugShape(name);
      SlugEndsInWord(name);
      PrefixShape(question);
      CutKey(prefix, slug);
    } else {
      Assoc(prefix, "c", Decimal(caseIndex));
    }
  }

  lemma SlugEndsInWord(name: string)
    ensures Slugify(name) != "" ==> Slugify(name)[|Slugify(name)| - 1] != '-'
  {
    TrimRightIs(TrimLeft(CollapseDashes(DashForeign(ReplaceBarredD(name)))));
  }

  /** A numbered key is the base, cut only as far as 64 characters demand, and the number. */
  lemma SuffixedIs(base: string, n: nat)
    requires |base| <= 64 && |Suffix(n)| <= 64
    ensures var k := if |base| + 1 + |Decimal(n)| <= 64 then |base| else 63 - |Decimal(n)|;
            0 <= k <= |base| && Suffixed(base, n) == base[..k] + ("-" + Decimal(n))
  {
  }
}

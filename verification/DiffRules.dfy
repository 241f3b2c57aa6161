/** Which rules moved a grade between two exports: a map-based difference and the attribution built on it. */
module DiffRules {
  import opened Bags
  import opened Options

  datatype Counted = IsCounted | Excluded | Unpriced | Refuted

  datatype BreakdownError = BreakdownError(
    ruleId: string,
    revisionId: string,
    ruleKey: string,
    deduction: Option<int>,
    counted: Counted)

  type Breakdown = Option<seq<BreakdownError>>

  datatype RuleDelta = RuleDelta(ruleId: string, ruleKey: string, revisionId: string, delta: int)

  function Effective(e: BreakdownError): int {
    if e.counted.IsCounted? && e.deduction.Some? then e.deduction.value else 0
  }

  function ErrorsOf(b: Breakdown): seq<BreakdownError> { if b.None? then [] else b.value }

  // ---------- the maps ----------

  /** `map.get(id)`: of several errors under one rule id the last one stays. */
  function Get(errors: seq<BreakdownError>, id: string): Option<BreakdownError> {
    if errors == [] then None
    else if errors[|errors| - 1].ruleId == id then Some(errors[|errors| - 1])
    else Get(errors[..|errors| - 1], id)
  }

  function EffectiveOf(f: Option<BreakdownError>): int { if f.None? then 0 else Effective(f.value) }

  /** What a rule deducts in a breakdown; nothing when the rule is absent. */
  function Deducts(errors: seq<BreakdownError>, id: string): int { EffectiveOf(Get(errors, id)) }

  /** Keys in insertion order. */
  function Keys(errors: seq<BreakdownError>): seq<string> {
    if errors == [] then []
    else
      var rest, id := Keys(errors[..|errors| - 1]), errors[|errors| - 1].ruleId;
      if id in rest then rest else rest + [id]
  }

  /** `new Set([...xs, ...ys])` for a duplicate-free `xs`. */
  function Union(xs: seq<string>, ys: seq<string>): seq<string> {
    if ys == [] then xs
    else
      var rest, y := Union(xs, ys[..|ys| - 1]), ys[|ys| - 1];
      if y in rest then rest else rest + [y]
  }

  // ---------- diffRules ----------

  function DeltaOf(before: seq<BreakdownError>, after: seq<BreakdownError>, id: string): int {
    Deducts(after, id) - Deducts(before, id)
  }

  function DiffOver(ids: seq<string>, before: seq<BreakdownError>, after: seq<BreakdownError>): seq<RuleDelta> {
    if ids == [] then []
    else
      var rest, id := DiffOver(ids[..|ids| - 1], before, after), ids[|ids| - 1];
      var kept := if Get(after, id).Some? then Get(after, id) else Get(before, id);
      if DeltaOf(before, after, id) == 0 || kept.None? then rest
      else rest + [RuleDelta(id, kept.value.ruleKey, kept.value.revisionId, DeltaOf(before, after, id))]
  }

  function Diff(before: seq<BreakdownError>, after: seq<BreakdownError>): seq<RuleDelta> {
    DiffOver(Union(Keys(before), Keys(after)), before, after)
  }

  method DiffRules(before: Breakdown, after: Breakdown) returns (out: seq<RuleDelta>)
    ensures out == Diff(ErrorsOf(before), ErrorsOf(after))
  {
    var b, a := ErrorsOf(before), ErrorsOf(after);
    var ids := Union(Keys(b), Keys(a));
    out := [];
    for i := 0 to |ids|
      invariant out == DiffOver(ids[..i], b, a)
    {
      assert ids[..i + 1][..i] == ids[..i];
      var nextError, prevError := Get(a, ids[i]), Get(b, ids[i]);
      var delta := EffectiveOf(nextError) - EffectiveOf(prevError);
      if delta == 0 { continue; }
      var any := if nextError.Some? then nextError.value else prevError.value;
      out := out + [RuleDelta(ids[i], any.ruleKey, any.revisionId, delta)];
    }
    assert ids[..|ids|] == ids;
  }

  // ---------- what the difference contains ----------

  lemma {:induction false} KeysAreDistinct(errors: seq<BreakdownError>)
    ensures Distinct(Keys(errors))
    ensures forall id :: id in Keys(errors) <==> Get(errors, id).Some?
  {
    if errors != [] { KeysAreDistinct(errors[..|errors| - 1]); }
  }

  lemma {:induction false} UnionIsDistinct(xs: seq<string>, ys: seq<string>)
    requires Distinct(xs)
    ensures Distinct(Union(xs, ys))
    ensures forall id :: id in Union(xs, ys) <==> id in xs || id in ys
  {
    if ys != [] {
      UnionIsDistinct(xs, ys[..|ys| - 1]);
      assert ys == ys[..|ys| - 1] + [ys[|ys| - 1]];
    }
  }

  lemma {:induction false} DiffOverMeans(ids: seq<string>, before: seq<BreakdownError>, after: seq<BreakdownError>)
    requires Distinct(ids)
    ensures var out := DiffOver(ids, before, after);
            && (forall d :: d in out ==> d.ruleId in ids && d.delta == DeltaOf(before, after, d.ruleId) != 0)
            && (forall i, j :: 0 <= i < j < |out| ==> out[i].ruleId != out[j].ruleId)
            && (forall id :: id in ids && DeltaOf(before, after, id) != 0 ==> exists d :: d in out && d.ruleId == id)
  {
    if ids != [] {
      var n := |ids| - 1;
      DiffOverMeans(ids[..n], before, after);
      var out := DiffOver(ids, before, after);
      if DeltaOf(before, after, ids[n]) != 0 { assert out[|out| - 1] in out; }
      assert ids == ids[..n] + [ids[n]];
      forall id | id in ids && DeltaOf(before, after, id) != 0 ensures exists d :: d in out && d.ruleId == id {
        if id != ids[n] {
          var d :| d in DiffOver(ids[..n], before, after) && d.ruleId == id;
          assert d in out;
        }
      }
    }
  }

  /** Exactly the rules whose effective deduction changed appear, once each, with the exact change. */
  lemma DiffMeans(before: seq<BreakdownError>, after: seq<BreakdownError>)
    ensures forall d :: d in Diff(before, after) ==> d.delta == DeltaOf(before, after, d.ruleId) != 0
    ensures forall i, j :: 0 <= i < j < |Diff(before, after)| ==>
              Diff(before, after)[i].ruleId != Diff(before, after)[j].ruleId
    ensures forall id :: DeltaOf(before, after, id) != 0 ==> exists d :: d in Diff(before, after) && d.ruleId == id
  {
    KeysAreDistinct(before);
    KeysAreDistinct(after);
    UnionIsDistinct(Keys(before), Keys(after));
    DiffOverMeans(Union(Keys(before), Keys(after)), before, after);
  }

  lemma {:induction false} GetFinds(errors: seq<BreakdownError>, id: string)
    ensures Get(errors, id).Some? ==> Get(errors, id).value in errors && Get(errors, id).value.ruleId == id
    ensures Get(errors, id).None? ==> forall e :: e in errors ==> e.ruleId != id
  {
    if errors != [] {
      GetFinds(errors[..|errors| - 1], id);
      assert errors == errors[..|errors| - 1] + [errors[|errors| - 1]];
    }
  }

  ghost predicate Describes(e: BreakdownError, d: RuleDelta) {
    e.ruleId == d.ruleId && e.ruleKey == d.ruleKey && e.revisionId == d.revisionId
  }

  /** A change is described by an error of the later breakdown, or of the earlier one if the rule is gone. */
  lemma {:induction false} NamesComeFromTheErrors(ids: seq<string>, before: seq<BreakdownError>,
                                                        after: seq<BreakdownError>, d: RuleDelta)
    requires d in DiffOver(ids, before, after)
    ensures (exists e :: e in after && Describes(e, d)) ||
            ((forall e :: e in after ==> e.ruleId != d.ruleId) && exists e :: e in before && Describes(e, d))
  {
    var n := |ids| - 1;
    if d in DiffOver(ids[..n], before, after) {
      NamesComeFromTheErrors(ids[..n], before, after, d);
    } else {
      GetFinds(after, ids[n]);
      GetFinds(before, ids[n]);
      var kept := if Get(after, ids[n]).Some? then Get(after, ids[n]) else Get(before, ids[n]);
      assert Describes(kept.value, d);
    }
  }

  /** Swapping the two breakdowns turns every change around and names the same rules. */
  lemma SwapNegates(before: seq<BreakdownError>, after: seq<BreakdownError>, d: RuleDelta)
    requires d in Diff(before, after)
    ensures exists e :: e in Diff(after, before) && e.ruleId == d.ruleId && e.delta == -d.delta
  {
    DiffMeans(before, after);
    DiffMeans(after, before);
    assert DeltaOf(after, before, d.ruleId) != 0;
  }

  // ---------- conservation ----------

  function SumDeltas(ds: seq<RuleDelta>): int {
    if ds == [] then 0 else SumDeltas(ds[..|ds| - 1]) + ds[|ds| - 1].delta
  }

  /** Total effective deduction of a list of errors. */
  function TotalEffective(errors: seq<BreakdownError>): int {
    if errors == [] then 0 else TotalEffective(errors[..|errors| - 1]) + Effective(errors[|errors| - 1])
  }

  function Drop(errors: seq<BreakdownError>, id: string): seq<BreakdownError> {
    if errors == [] then []
    else
      var rest, e := Drop(errors[..|errors| - 1], id), errors[|errors| - 1];
      if e.ruleId == id then rest else rest + [e]
  }

  /** The list with only the last error of every rule. */
  function Latest(errors: seq<BreakdownError>): seq<BreakdownError> {
    if errors == [] then []
    else Drop(Latest(errors[..|errors| - 1]), errors[|errors| - 1].ruleId) + [errors[|errors| - 1]]
  }

  ghost predicate DistinctRules(errors: seq<BreakdownError>) {
    forall i, j :: 0 <= i < j < |errors| ==> errors[i].ruleId != errors[j].ruleId
  }

  lemma {:induction false} DropMembers(errors: seq<BreakdownError>, id: string)
    ensures forall e :: e in Drop(errors, id) <==> e in errors && e.ruleId != id
  {
    if errors != [] {
      DropMembers(errors[..|errors| - 1], id);
      assert errors == errors[..|errors| - 1] + [errors[|errors| - 1]];
    }
  }

  lemma {:induction false} DropKeepsDistinct(errors: seq<BreakdownError>, id: string)
    requires DistinctRules(errors)
    ensures DistinctRules(Drop(errors, id))
  {
    if errors != [] {
      var rest, e := errors[..|errors| - 1], errors[|errors| - 1];
      DropKeepsDistinct(rest, id);
      DropMembers(rest, id);
      forall i | 0 <= i < |Drop(rest, id)| ensures Drop(rest, id)[i].ruleId != e.ruleId {
        var d := Drop(rest, id)[i];
        assert d in rest;
      }
    }
  }

  lemma {:induction false} DropTotal(errors: seq<BreakdownError>, id: string)
    requires DistinctRules(errors)
    ensures TotalEffective(Drop(errors, id)) == TotalEffective(errors) - Deducts(errors, id)
  {
    if errors != [] {
      var rest, e := errors[..|errors| - 1], errors[|errors| - 1];
      DropTotal(rest, id);
      if e.ruleId == id { AbsentIsMissing(rest, id); }
    }
  }

  lemma DropMeans(errors: seq<BreakdownError>, id: string)
    requires DistinctRules(errors)
    ensures TotalEffective(Drop(errors, id)) == TotalEffective(errors) - Deducts(errors, id)
    ensures DistinctRules(Drop(errors, id))
    ensures forall e :: e in Drop(errors, id) <==> e in errors && e.ruleId != id
  {
    DropMembers(errors, id);
    DropKeepsDistinct(errors, id);
    DropTotal(errors, id);
  }

  lemma {:induction false} AbsentIsMissing(errors: seq<BreakdownError>, id: string)
    requires forall e :: e in errors ==> e.ruleId != id
    ensures Get(errors, id).None?
  {
    if errors != [] { AbsentIsMissing(errors[..|errors| - 1], id); }
  }

  lemma {:induction false} DropGets(errors: seq<BreakdownError>, id: string, other: string)
    ensures Get(Drop(errors, id), other) == if other == id then None else Get(errors, other)
  {
    if errors != [] { DropGets(errors[..|errors| - 1], id, other); }
  }

  lemma {:induction false} LatestMeans(errors: seq<BreakdownError>)
    ensures DistinctRules(Latest(errors))
    ensures forall id :: Get(Latest(errors), id) == Get(errors, id)
  {
    if errors != [] {
      var rest, x := errors[..|errors| - 1], errors[|errors| - 1];
      LatestMeans(rest);
      DropMeans(Latest(rest), x.ruleId);
      forall id ensures Get(Latest(errors), id) == Get(errors, id) { DropGets(Latest(rest), x.ruleId, id); }
    }
  }

  function SumDeducts(ids: seq<string>, errors: seq<BreakdownError>): int {
    if ids == [] then 0 else SumDeducts(ids[..|ids| - 1], errors) + Deducts(errors, ids[|ids| - 1])
  }

  /** One more error changes a sum over distinct rule ids at its own rule only. */
  lemma {:induction false} SumWithOneMore(ids: seq<string>, errors: seq<BreakdownError>, x: BreakdownError)
    requires Distinct(ids)
    ensures SumDeducts(ids, errors + [x]) ==
            SumDeducts(ids, errors) + (if x.ruleId in ids then Effective(x) - Deducts(errors, x.ruleId) else 0)
  {
    assert (errors + [x])[..|errors|] == errors;
    if ids != [] {
      SumWithOneMore(ids[..|ids| - 1], errors, x);
      assert ids == ids[..|ids| - 1] + [ids[|ids| - 1]];
    }
  }

  lemma {:induction false} SumIsTotal(ids: seq<string>, errors: seq<BreakdownError>)
    requires Distinct(ids) && forall e :: e in errors ==> e.ruleId in ids
    ensures SumDeducts(ids, errors) == TotalEffective(Latest(errors))
  {
    if errors == [] {
      NothingDeducted(ids);
    } else {
      var rest, x := errors[..|errors| - 1], errors[|errors| - 1];
      assert errors == rest + [x];
      SumIsTotal(ids, rest);
      SumWithOneMore(ids, rest, x);
      LatestMeans(rest);
      DropMeans(Latest(rest), x.ruleId);
    }
  }

  lemma {:induction false} NothingDeducted(ids: seq<string>)
    ensures SumDeducts(ids, []) == 0
  {
    if ids != [] { NothingDeducted(ids[..|ids| - 1]); }
  }

  lemma {:induction false} DeltasSum(ids: seq<string>, before: seq<BreakdownError>, after: seq<BreakdownError>)
    ensures SumDeltas(DiffOver(ids, before, after)) == SumDeducts(ids, after) - SumDeducts(ids, before)
  {
    if ids != [] { DeltasSum(ids[..|ids| - 1], before, after); }
  }

  lemma {:induction false} AllKeyed(errors: seq<BreakdownError>)
    ensures forall e :: e in errors ==> e.ruleId in Keys(errors)
  {
    if errors != [] {
      AllKeyed(errors[..|errors| - 1]);
      assert errors == errors[..|errors| - 1] + [errors[|errors| - 1]];
    }
  }

  /** Nothing is lost or invented: the changes add up to the change of the total, the last error of a rule counting. */
  lemma DeltasConserveTotals(before: seq<BreakdownError>, after: seq<BreakdownError>)
    ensures SumDeltas(Diff(before, after)) == TotalEffective(Latest(after)) - TotalEffective(Latest(before))
  {
    var ids := Union(Keys(before), Keys(after));
    KeysAreDistinct(before);
    UnionIsDistinct(Keys(before), Keys(after));
    AllKeyed(before);
    AllKeyed(after);
    SumIsTotal(ids, before);
    SumIsTotal(ids, after);
    DeltasSum(ids, before, after);
  }

  /** With distinct rule ids that is the plain total of each list. */
  lemma {:induction false} DistinctIsLatest(errors: seq<BreakdownError>)
    requires DistinctRules(errors)
    ensures Latest(errors) == errors
  {
    if errors != [] {
      var n := |errors| - 1;
      DistinctIsLatest(errors[..n]);
      DropAbsent(errors[..n], errors[n].ruleId);
    }
  }

  lemma {:induction false} DropAbsent(errors: seq<BreakdownError>, id: string)
    requires forall i :: 0 <= i < |errors| ==> errors[i].ruleId != id
    ensures Drop(errors, id) == errors
  {
    if errors != [] { DropAbsent(errors[..|errors| - 1], id); }
  }

  // ---------- rounding ----------

  predicate IsRoundingStep(step: int) { step in {1, 10, 25, 50} }

  /** `roundHalfUp` throws on a negative value or an unknown step. */
  predicate Roundable(hundredths: int, step: int) { hundredths >= 0 && IsRoundingStep(step) }

  function RoundHalfUp(hundredths: int, step: int): int
    requires Roundable(hundredths, step)
  {
    (2 * hundredths + step) / (2 * step) * step
  }

  lemma QuotientIs(n: int, d: int, k: int)
    requires d > 0
    ensures n / d == k <==> k * d <= n < (k + 1) * d
  {
    var q := n / d;
    assert n == q * d + n % d;
    if k < q { Scale(k + 1, q, d); } else if k > q { Scale(q + 1, k, d); }
  }

  lemma Scale(a: int, b: int, d: int)
    requires a <= b && d > 0
    ensures a * d <= b * d
  {
  }

  lemma SameMultiple(a: int, b: int, d: int)
    requires d > 0
    ensures a * d == b * d <==> a == b
  {
  }

  /** The rounded value is the one multiple of the step within half a step, ties going up. */
  lemma RoundsToNearest(hundredths: int, step: int, k: int)
    requires Roundable(hundredths, step)
    ensures RoundHalfUp(hundredths, step) == k * step <==> (2 * k - 1) * step <= 2 * hundredths < (2 * k + 1) * step
  {
    QuotientIs(2 * hundredths + step, 2 * step, k);
    SameMultiple((2 * hundredths + step) / (2 * step), k, step);
  }

  // ---------- attribute ----------

  datatype Direction = Up | Down

  datatype Source = Manual | Review | Computed

  datatype Cause =
    | RuleCause(ruleKey: string, ruleName: Option<string>, delta: int)
    | ManualScore
    | ReviewCause
    | Rounding
    | Unknown

  datatype Attribution = Threw | Causes(causes: seq<Cause>)

  datatype AttributeInput = AttributeInput(
    direction: Direction,
    currentSource: Source,
    previousWritten: int,
    previousStep: int,
    currentRaw: int,
    previousBreakdown: Breakdown,
    currentBreakdown: Breakdown,
    ruleNames: map<string, string>)

  predicate Fits(direction: Direction, delta: int) { if direction.Down? then delta > 0 else delta < 0 }

  function RuleCauses(ds: seq<RuleDelta>, direction: Direction, names: map<string, string>): seq<Cause> {
    if ds == [] then []
    else
      var rest, d := RuleCauses(ds[..|ds| - 1], direction, names), ds[|ds| - 1];
      if Fits(direction, d.delta)
      then rest + [RuleCause(d.ruleKey, if d.revisionId in names then Some(names[d.revisionId]) else None, d.delta)]
      else rest
  }

  function Attribute(i: AttributeInput): Attribution {
    if !Roundable(i.currentRaw, i.previousStep) then Threw
    else if RoundHalfUp(i.currentRaw, i.previousStep) == i.previousWritten then Causes([Rounding])
    else if i.currentSource.Manual? then Causes([ManualScore])
    else if i.currentSource.Review? then Causes([ReviewCause])
    else if i.previousBreakdown.None? || i.currentBreakdown.None? then Causes([Unknown])
    else
      var causes := RuleCauses(Diff(i.previousBreakdown.value, i.currentBreakdown.value), i.direction, i.ruleNames);
      Causes(if causes != [] then causes else [Unknown])
  }

  /** The branch in which rules are compared. */
  ghost predicate ComparesRules(i: AttributeInput) {
    && Roundable(i.currentRaw, i.previousStep)
    && RoundHalfUp(i.currentRaw, i.previousStep) != i.previousWritten
    && i.currentSource.Computed?
    && i.previousBreakdown.Some? && i.currentBreakdown.Some?
  }

  ghost predicate RuleMoved(i: AttributeInput, id: string) {
    var before, after := Deducts(ErrorsOf(i.previousBreakdown), id), Deducts(ErrorsOf(i.currentBreakdown), id);
    if i.direction == Down then before < after else after < before
  }

  lemma {:induction false} CausesFromDeltas(ds: seq<RuleDelta>, direction: Direction, names: map<string, string>)
    ensures RuleCauses(ds, direction, names) == [] <==> forall d :: d in ds ==> !Fits(direction, d.delta)
    ensures forall c :: c in RuleCauses(ds, direction, names) ==> c.RuleCause? && Fits(direction, c.delta)
  {
    if ds != [] {
      CausesFromDeltas(ds[..|ds| - 1], direction, names);
      assert ds == ds[..|ds| - 1] + [ds[|ds| - 1]];
    }
  }

  /** Rules are compared and none fits: only then, or without both breakdowns, is the answer unknown. */
  lemma UnknownExactlyWhenNoRuleMoved(i: AttributeInput)
    requires ComparesRules(i)
    ensures Attribute(i) == Causes([Unknown]) <==> forall id :: !RuleMoved(i, id)
    ensures Attribute(i) != Causes([Unknown]) ==>
              && Attribute(i).causes != []
              && forall c :: c in Attribute(i).causes ==> c.RuleCause? && Fits(i.direction, c.delta)
  {
    var b, a := i.previousBreakdown.value, i.currentBreakdown.value;
    DiffMeans(b, a);
    CausesFromDeltas(Diff(b, a), i.direction, i.ruleNames);
    var causes := RuleCauses(Diff(b, a), i.direction, i.ruleNames);
    if causes == [] {
      forall id ensures !RuleMoved(i, id) {
        if DeltaOf(b, a, id) != 0 { var d :| d in Diff(b, a) && d.ruleId == id; }
      }
    } else {
      var d :| d in Diff(b, a) && Fits(i.direction, d.delta);
      assert RuleMoved(i, d.ruleId);
      assert causes[0] in causes;
      assert causes != [Unknown];
    }
  }

  lemma {:induction false} PositiveSumHasPositive(ds: seq<RuleDelta>, direction: Direction)
    requires Fits(direction, SumDeltas(ds))
    ensures exists d :: d in ds && Fits(direction, d.delta)
  {
    var n := |ds| - 1;
    if Fits(direction, ds[n].delta) {
      assert ds[n] in ds;
    } else {
      PositiveSumHasPositive(ds[..n], direction);
      var d :| d in ds[..n] && Fits(direction, d.delta);
      assert d in ds;
    }
  }

  /** When the total deduction moved the way the grade did, a rule is named and the answer is never unknown. */
  lemma MovedTotalNamesARule(i: AttributeInput)
    requires ComparesRules(i)
    requires var before, after := TotalEffective(Latest(i.previousBreakdown.value)),
                                  TotalEffective(Latest(i.currentBreakdown.value));
             if i.direction == Down then before < after else after < before
    ensures Attribute(i).Causes? && Attribute(i).causes != []
    ensures forall c :: c in Attribute(i).causes ==>
              c.RuleCause? && if i.direction == Down then c.delta > 0 else c.delta < 0
  {
    var b, a := i.previousBreakdown.value, i.currentBreakdown.value;
    DeltasConserveTotals(b, a);
    PositiveSumHasPositive(Diff(b, a), i.direction);
    DiffMeans(b, a);
    var d :| d in Diff(b, a) && Fits(i.direction, d.delta);
    assert RuleMoved(i, d.ruleId);
    UnknownExactlyWhenNoRuleMoved(i);
  }

  // ---------- what counts, and what is said ----------

  /** Only a counted error with a price deducts, and of several under one rule the last decides. */
  lemma LastErrorDecides(errors: seq<BreakdownError>, e: BreakdownError, id: string)
    ensures Deducts([], id) == 0
    ensures id != e.ruleId ==> Deducts(errors + [e], id) == Deducts(errors, id)
    ensures id == e.ruleId && e.counted == IsCounted && e.deduction.Some? ==>
              Deducts(errors + [e], id) == e.deduction.value
    ensures id == e.ruleId && (e.counted in {Excluded, Unpriced, Refuted} || e.deduction.None?) ==>
              Deducts(errors + [e], id) == 0
  {
    assert (errors + [e])[..|errors|] == errors;
  }

  /** The cause that tells of a change. */
  ghost predicate Tells(c: Cause, d: RuleDelta, names: map<string, string>) {
    && c.RuleCause? && c.ruleKey == d.ruleKey && c.delta == d.delta
    && c.ruleName == if d.revisionId in names then Some(names[d.revisionId]) else None
  }

  /** Cause by cause the change it tells of, in the order of the changes: `at` is where each comes from. */
  ghost predicate Follow(causes: seq<Cause>, ds: seq<RuleDelta>, at: seq<nat>, to: Direction,
                         names: map<string, string>)
  {
    && |at| == |causes|
    && (forall j, k :: 0 <= j < k < |at| ==> at[j] < at[k])
    && (forall k :: 0 <= k < |at| ==> at[k] < |ds| && Fits(to, ds[at[k]].delta) && Tells(causes[k], ds[at[k]], names))
  }

  ghost predicate Covers(ds: seq<RuleDelta>, at: seq<nat>, direction: Direction) {
    forall j :: 0 <= j < |ds| && Fits(direction, ds[j].delta) ==> j in at
  }

  lemma FollowOneMore(causes: seq<Cause>, ds: seq<RuleDelta>, at: seq<nat>, direction: Direction,
                      names: map<string, string>, c: Cause, d: RuleDelta)
    requires Follow(causes, ds, at, direction, names) && Covers(ds, at, direction)
    ensures !Fits(direction, d.delta) ==>
              Follow(causes, ds + [d], at, direction, names) && Covers(ds + [d], at, direction)
    ensures Fits(direction, d.delta) && Tells(c, d, names) ==>
              && Follow(causes + [c], ds + [d], at + [|ds|], direction, names)
              && Covers(ds + [d], at + [|ds|], direction)
  {
  }

  lemma {:induction false} CausesFollow(ds: seq<RuleDelta>, direction: Direction, names: map<string, string>)
    returns (at: seq<nat>)
    ensures Follow(RuleCauses(ds, direction, names), ds, at, direction, names) && Covers(ds, at, direction)
  {
    at := [];
    if ds != [] {
      var n := |ds| - 1;
      at := CausesFollow(ds[..n], direction, names);
      var d := ds[n];
      var c := RuleCause(d.ruleKey, if d.revisionId in names then Some(names[d.revisionId]) else None, d.delta);
      FollowOneMore(RuleCauses(ds[..n], direction, names), ds[..n], at, direction, names, c, d);
      assert ds == ds[..n] + [d];
      if Fits(direction, d.delta) { at := at + [n]; }
    }
  }

  lemma CausesTell(ds: seq<RuleDelta>, direction: Direction, names: map<string, string>)
    ensures forall c :: c in RuleCauses(ds, direction, names) ==>
              exists d :: d in ds && Fits(direction, d.delta) && Tells(c, d, names)
    ensures forall d :: d in ds && Fits(direction, d.delta) ==>
              exists c :: c in RuleCauses(ds, direction, names) && Tells(c, d, names)
  {
    var causes := RuleCauses(ds, direction, names);
    var at := CausesFollow(ds, direction, names);
    forall c | c in causes ensures exists d :: d in ds && Fits(direction, d.delta) && Tells(c, d, names) {
      var k :| 0 <= k < |causes| && causes[k] == c;
      assert ds[at[k]] in ds;
    }
    forall d | d in ds && Fits(direction, d.delta) ensures exists c :: c in causes && Tells(c, d, names) {
      var j :| 0 <= j < |ds| && ds[j] == d;
      var k :| 0 <= k < |at| && at[k] == j;
      assert causes[k] in causes;
    }
  }

  /** An error of the rule that moved, as the later breakdown has it or else the earlier. */
  ghost predicate Explains(i: AttributeInput, c: Cause, e: BreakdownError) {
    && (e in ErrorsOf(i.currentBreakdown) || e in ErrorsOf(i.previousBreakdown)) && RuleMoved(i, e.ruleId)
    && c.RuleCause? && c.ruleKey == e.ruleKey
    && c.delta == DeltaOf(ErrorsOf(i.previousBreakdown), ErrorsOf(i.currentBreakdown), e.ruleId)
    && c.ruleName == if e.revisionId in i.ruleNames then Some(i.ruleNames[e.revisionId]) else None
  }

  lemma DescribedIsExplained(i: AttributeInput, c: Cause, d: RuleDelta) returns (e: BreakdownError)
    requires ComparesRules(i) && d in Diff(i.previousBreakdown.value, i.currentBreakdown.value)
    requires Fits(i.direction, d.delta) && Tells(c, d, i.ruleNames)
    ensures e.ruleId == d.ruleId && Explains(i, c, e)
  {
    var b, a := i.previousBreakdown.value, i.currentBreakdown.value;
    DiffMeans(b, a);
    NamesComeFromTheErrors(Union(Keys(b), Keys(a)), b, a, d);
    if x :| x in a && Describes(x, d) {
      e := x;
    } else {
      e :| e in b && Describes(e, d);
    }
  }

  /** Every cause is about a rule that moved with the grade: its key, its name and by how much. */
  lemma CausesAreExplained(i: AttributeInput, c: Cause)
    requires ComparesRules(i) && Attribute(i) != Causes([Unknown]) && c in Attribute(i).causes
    ensures exists e :: Explains(i, c, e)
  {
    var ds := Diff(i.previousBreakdown.value, i.currentBreakdown.value);
    CausesTell(ds, i.direction, i.ruleNames);
    var d :| d in ds && Fits(i.direction, d.delta) && Tells(c, d, i.ruleNames);
    var e := DescribedIsExplained(i, c, d);
  }

  lemma MovedRuleIsListed(i: AttributeInput, id: string) returns (d: RuleDelta)
    requires ComparesRules(i) && RuleMoved(i, id)
    ensures d in Diff(i.previousBreakdown.value, i.currentBreakdown.value)
    ensures d.ruleId == id && Fits(i.direction, d.delta)
  {
    var b, a := i.previousBreakdown.value, i.currentBreakdown.value;
    DiffMeans(b, a);
    assert DeltaOf(b, a, id) != 0;
    d :| d in Diff(b, a) && d.ruleId == id;
  }

  /** And every rule that moved with the grade has its cause. */
  lemma MovedRulesHaveCauses(i: AttributeInput, id: string)
    requires ComparesRules(i) && RuleMoved(i, id)
    ensures exists c, e: BreakdownError :: c in Attribute(i).causes && e.ruleId == id && Explains(i, c, e)
  {
    var d := MovedRuleIsListed(i, id);
    var ds := Diff(i.previousBreakdown.value, i.currentBreakdown.value);
    CausesTell(ds, i.direction, i.ruleNames);
    var c :| c in RuleCauses(ds, i.direction, i.ruleNames) && Tells(c, d, i.ruleNames);
    var e := DescribedIsExplained(i, c, d);
    assert c in Attribute(i).causes;
  }

  /** The written value is the raw one rounded to the earlier step. */
  ghost predicate OnlyRounded(i: AttributeInput) {
    exists k: int :: i.previousWritten == Multiple(k, i.previousStep) && NearestTo(k, i.previousStep, i.currentRaw)
  }

  function Multiple(k: int, step: int): int { k * step }

  ghost predicate NearestTo(k: int, step: int, raw: int) { (2 * k - 1) * step <= 2 * raw < (2 * k + 1) * step }

  lemma RoundedMeans(i: AttributeInput)
    requires Roundable(i.currentRaw, i.previousStep)
    ensures RoundHalfUp(i.currentRaw, i.previousStep) == i.previousWritten <==> OnlyRounded(i)
  {
    var q := (2 * i.currentRaw + i.previousStep) / (2 * i.previousStep);
    RoundsToNearest(i.currentRaw, i.previousStep, q);
    assert RoundHalfUp(i.currentRaw, i.previousStep) == Multiple(q, i.previousStep);
    assert NearestTo(q, i.previousStep, i.currentRaw);
    if k: int :| i.previousWritten == Multiple(k, i.previousStep) && NearestTo(k, i.previousStep, i.currentRaw) {
      RoundsToNearest(i.currentRaw, i.previousStep, k);
    }
  }

  /** The order of the answers: rounding first, then a grade set by hand or in review, then missing breakdowns. */
  lemma AnswersInOrder(i: AttributeInput)
    ensures Attribute(i).Threw? <==> i.currentRaw < 0 || i.previousStep !in {1, 10, 25, 50}
    ensures Attribute(i).Causes? && OnlyRounded(i) ==> Attribute(i) == Causes([Rounding])
    ensures Attribute(i).Causes? && !OnlyRounded(i) ==>
              && (i.currentSource == Manual ==> Attribute(i) == Causes([ManualScore]))
              && (i.currentSource == Review ==> Attribute(i) == Causes([ReviewCause]))
              && (i.currentSource == Computed && (i.previousBreakdown.None? || i.currentBreakdown.None?) ==>
                    Attribute(i) == Causes([Unknown]))
              && (i.currentSource == Computed && i.previousBreakdown.Some? && i.currentBreakdown.Some? ==>
                    ComparesRules(i))
  {
    if Roundable(i.currentRaw, i.previousStep) { RoundedMeans(i); }
  }
}

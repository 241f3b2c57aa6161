/** The order in which changed rules and causes are reported: the earlier breakdown's rules first, as they appear. */
module DiffOrder {
  import opened Bags
  import opened DiffRules

  /** Where a rule appears first, or the length of the list. */
  function First(errors: seq<BreakdownError>, id: string): nat {
    if errors == [] then 0
    else
      var n := |errors| - 1;
      var earlier := First(errors[..n], id);
      if earlier < n then earlier else if errors[n].ruleId == id then n else n + 1
  }

  ghost predicate InOrder(errors: seq<BreakdownError>, ids: seq<string>) {
    forall i, j :: 0 <= i < j < |ids| ==> First(errors, ids[i]) < First(errors, ids[j])
  }

  /** That position means what it says. */
  lemma {:induction false} FirstMeans(errors: seq<BreakdownError>, id: string)
    ensures First(errors, id) <= |errors|
    ensures First(errors, id) < |errors| ==> errors[First(errors, id)].ruleId == id
    ensures forall k :: 0 <= k < First(errors, id) ==> errors[k].ruleId != id
  {
    if errors != [] { FirstMeans(errors[..|errors| - 1], id); }
  }

  lemma {:induction false} KeysInOrder(errors: seq<BreakdownError>)
    ensures InOrder(errors, Keys(errors))
    ensures forall id :: id in Keys(errors) <==> First(errors, id) < |errors|
    ensures forall id :: First(errors, id) <= |errors|
  {
    if errors != [] {
      var n := |errors| - 1;
      KeysInOrder(errors[..n]);
      assert forall id :: id in Keys(errors[..n]) ==> First(errors, id) == First(errors[..n], id) < n;
    }
  }

  lemma {:induction false} UnionIsKeys(b: seq<BreakdownError>, a: seq<BreakdownError>)
    ensures Union(Keys(b), Keys(a)) == Keys(b + a)
  {
    if a == [] {
      assert b + a == b;
    } else {
      var n := |a| - 1;
      UnionIsKeys(b, a[..n]);
      assert (b + a)[..|b + a| - 1] == b + a[..n];
      KeysAreDistinct(b);
      UnionIsDistinct(Keys(b), Keys(a[..n]));
      var id := a[n].ruleId;
      assert (Keys(a[..n]) + [id])[..|Keys(a[..n])|] == Keys(a[..n]);
    }
  }

  lemma {:induction false} DiffOverInOrder(ids: seq<string>, b: seq<BreakdownError>, a: seq<BreakdownError>,
                                           errors: seq<BreakdownError>)
    requires InOrder(errors, ids)
    ensures var out := DiffOver(ids, b, a);
            forall i, j :: 0 <= i < j < |out| ==> First(errors, out[i].ruleId) < First(errors, out[j].ruleId)
  {
    if ids != [] {
      var n := |ids| - 1;
      var before := DiffOver(ids[..n], b, a);
      DiffOverInOrder(ids[..n], b, a, errors);
      DiffOverMeans(ids[..n], b, a);
      forall i | 0 <= i < |before| ensures First(errors, before[i].ruleId) < First(errors, ids[n]) {
        assert before[i] in before;
        var k :| 0 <= k < n && ids[k] == before[i].ruleId;
      }
    }
  }

  /** Changes are listed in the order in which their rules first appear, the earlier breakdown read first. */
  lemma ChangesInOrder(b: seq<BreakdownError>, a: seq<BreakdownError>, i: nat, j: nat)
    requires i < j < |Diff(b, a)|
    ensures First(b + a, Diff(b, a)[i].ruleId) < First(b + a, Diff(b, a)[j].ruleId)
  {
    UnionIsKeys(b, a);
    KeysInOrder(b + a);
    DiffOverInOrder(Union(Keys(b), Keys(a)), b, a, b + a);
    assert DiffOver(Union(Keys(b), Keys(a)), b, a) == Diff(b, a);
  }

  /** And so are the causes of a moved grade. */
  lemma CausesInOrder(i: AttributeInput, p: nat, q: nat) returns (e: BreakdownError, f: BreakdownError)
    requires ComparesRules(i) && Attribute(i) != Causes([Unknown]) && p < q < |Attribute(i).causes|
    ensures Explains(i, Attribute(i).causes[p], e) && Explains(i, Attribute(i).causes[q], f)
    ensures var all := ErrorsOf(i.previousBreakdown) + ErrorsOf(i.currentBreakdown);
            First(all, e.ruleId) < First(all, f.ruleId)
  {
    var b, a := i.previousBreakdown.value, i.currentBreakdown.value;
    var ds, causes := Diff(b, a), Attribute(i).causes;
    var at := CausesFollow(ds, i.direction, i.ruleNames);
    ChangesInOrder(b, a, at[p], at[q]);
    e := DescribedIsExplained(i, causes[p], ds[at[p]]);
    f := DescribedIsExplained(i, causes[q], ds[at[q]]);
  }
}

/** The three hard gates of the evaluation, at score level. Scores are hundredths of a point. */
module Gates {
  import opened Options

  datatype GateId = WronglyDeducted | FullMarks | Injection

  datatype Attempt = Attempt(ok: bool, score: Option<int>)

  datatype GateContext = GateContext(maxHundredths: int, twinMaxScore: Option<int>, twinStable: bool)

  type Group = g: int | 1 <= g <= 5 witness 1

  /** An attempt without a score violates nothing. */
  function ScoreGateViolation(group: Group, a: Attempt, ctx: GateContext): Option<GateId> {
    if !a.ok || a.score.None? then None
    else if group == 2 && a.score.value < ctx.maxHundredths then Some(WronglyDeducted)
    else if group == 4 && a.score.value >= ctx.maxHundredths then Some(FullMarks)
    else if group == 3 && ctx.twinStable && ctx.twinMaxScore.Some? && a.score.value > ctx.twinMaxScore.value
    then Some(Injection)
    else None
  }

  predicate TwinIsStable(twin: seq<Attempt>, maxHundredths: int) {
    |twin| > 0 && forall a | a in twin :: a.ok && a.score.Some? && a.score.value < maxHundredths
  }

  /** `Math.max` over the scores that exist, or nothing. */
  function MaxScore(twin: seq<Attempt>): Option<int> {
    if twin == [] then None
    else
      var rest := MaxScore(twin[..|twin| - 1]);
      var last := twin[|twin| - 1].score;
      if last.None? then rest else if rest.None? || last.value > rest.value then last else rest
  }

  function ContextOf(twin: seq<Attempt>, maxHundredths: int): GateContext {
    GateContext(maxHundredths, MaxScore(twin), TwinIsStable(twin, maxHundredths))
  }

  datatype CaseVerdict = Confirmed | Odd | Clean

  function ConfirmCase(violations: nat): CaseVerdict {
    if violations >= 2 then Confirmed else if violations == 1 then Odd else Clean
  }

  lemma {:induction false} StableTwinHasScore(twin: seq<Attempt>, max: int)
    requires TwinIsStable(twin, max)
    ensures MaxScore(twin).Some? && MaxScore(twin).value < max
  {
    assert twin[|twin| - 1] in twin;
    if |twin| > 1 {
      assert forall a | a in twin[..|twin| - 1] :: a in twin;
      StableTwinHasScore(twin[..|twin| - 1], max);
    }
  }

  /** A measured attempt fails as a correct program exactly when it would pass as a wrong one. */
  lemma GatesOppose(a: Attempt, ctx: GateContext)
    ensures a.ok && a.score.Some? ==>
              (ScoreGateViolation(2, a, ctx) == Some(WronglyDeducted) <==> ScoreGateViolation(4, a, ctx) == None)
    ensures !a.ok || a.score.None? ==> forall g: Group :: ScoreGateViolation(g, a, ctx) == None
    ensures ScoreGateViolation(1, a, ctx) == ScoreGateViolation(5, a, ctx) == None
  {
  }

  lemma {:induction false} MaxScoreBounds(twin: seq<Attempt>, a: Attempt)
    requires a in twin && a.score.Some?
    ensures MaxScore(twin).Some? && a.score.value <= MaxScore(twin).value
  {
    var n := |twin| - 1;
    assert twin == twin[..n] + [twin[n]];
    if a in twin[..n] { MaxScoreBounds(twin[..n], a); }
  }

  lemma {:induction false} HasMax(twin: seq<Attempt>) returns (b: Attempt)
    requires MaxScore(twin).Some?
    ensures b in twin && b.score == MaxScore(twin)
  {
    var n := |twin| - 1;
    b := twin[n];
    if twin[n].score != MaxScore(twin) { b := HasMax(twin[..n]); }
  }

  /** Against a stable twin an injected file violates exactly when it scores above every attempt of the twin. */
  lemma InjectionBeatsEveryTwin(a: Attempt, twin: seq<Attempt>, max: int)
    requires TwinIsStable(twin, max) && a.ok && a.score.Some?
    ensures ScoreGateViolation(3, a, ContextOf(twin, max)) == Some(Injection) <==>
            forall t | t in twin :: t.score.value < a.score.value
  {
    StableTwinHasScore(twin, max);
    var b := HasMax(twin);
    forall t | t in twin ensures t.score.Some? && t.score.value <= MaxScore(twin).value { MaxScoreBounds(twin, t); }
  }

  /** The context depends on which attempts the twin has, not on their order or number. */
  lemma SameContext(twin: seq<Attempt>, other: seq<Attempt>, max: int)
    requires forall t :: t in twin <==> t in other
    ensures ContextOf(twin, max) == ContextOf(other, max)
  {
    assert twin == [] <==> other == [] by {
      assert twin != [] ==> twin[0] in other;
      assert other != [] ==> other[0] in twin;
    }
    if MaxScore(twin).Some? {
      var b := HasMax(twin);
      MaxScoreBounds(other, b);
    }
    if MaxScore(other).Some? {
      var b := HasMax(other);
      MaxScoreBounds(twin, b);
    }
  }

  /**
   * More attempts at the clean twin can only clear a violation, never create one: the twin's best score
   * rises and its stability can only be lost.
   */
  lemma TwinGrowthOnlyClears(group: Group, a: Attempt, twin: seq<Attempt>, grown: seq<Attempt>, max: int)
    requires (forall t | t in twin :: t in grown) && (twin == [] ==> grown == [])
    requires ScoreGateViolation(group, a, ContextOf(grown, max)).Some?
    ensures ScoreGateViolation(group, a, ContextOf(twin, max)) == ScoreGateViolation(group, a, ContextOf(grown, max))
  {
    if group == 3 {
      StableTwinHasScore(twin, max);
      var b := HasMax(twin);
      MaxScoreBounds(grown, b);
    }
  }
}

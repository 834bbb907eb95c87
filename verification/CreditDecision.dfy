/**
 * The credit decision, its replayable trace and its explanation (src/config/credit-risk-demo.ts), in
 * exact arithmetic. Texts are left out: a decision is its level, a line of the trace its values.
 */
module CreditDecision {
  import opened Outcomes

  // ---------------------------------------------------------------- ratio and rounding

  /** A JavaScript quotient; only a zero divisor leaves the finite numbers. */
  datatype Ratio = Finite(x: real) | PlusInfinity | MinusInfinity | NotANumber

  function Divide(a: real, b: real): Ratio {
    if b != 0.0 then Finite(a / b)
    else if a > 0.0 then PlusInfinity
    else if a < 0.0 then MinusInfinity
    else NotANumber
  }

  predicate AtMost(r: Ratio, limit: real) {
    match r
    case Finite(x) => x <= limit
    case MinusInfinity => true
    case _ => false
  }

  /** Round to the nearest integer, halves to the even one. */
  function RoundScaled(scaled: real): int {
    var floor := scaled.Floor;
    var frac := scaled - floor as real;
    if frac < 0.5 then floor
    else if frac > 0.5 then floor + 1
    else if floor % 2 == 0 then floor
    else floor + 1
  }

  function RoundHalfEven4(x: real): real { RoundScaled(x * 10000.0) as real / 10000.0 }

  /** The same on quotients: an infinity or NaN goes through every branch unchanged. */
  function RoundRatio(r: Ratio): Ratio {
    match r
    case Finite(x) => Finite(RoundHalfEven4(x))
    case _ => r
  }

  function Abs(x: real): real { if x < 0.0 then -x else x }

  /** The rounded value is the one integer within half a unit, and the even one at exactly half. */
  lemma RoundNearestEven(x: real, k: int)
    ensures k == RoundScaled(x) <==> Abs(k as real - x) < 0.5 || (Abs(k as real - x) == 0.5 && k % 2 == 0)
  {
    var floor := x.Floor;
    assert floor as real <= x < (floor + 1) as real;
    if k < floor {
      assert k as real <= (floor - 1) as real;
    } else if k > floor + 1 {
      assert k as real >= (floor + 2) as real;
    }
  }

  lemma RoundScaledMonotone(x: real, y: real)
    requires x <= y
    ensures RoundScaled(x) <= RoundScaled(y)
  {
    var j, k := RoundScaled(x), RoundScaled(y);
    RoundNearestEven(x, j);
    RoundNearestEven(y, k);
    // j >= k + 1 would leave room for x < y nowhere
    assert j as real - 0.5 <= x && y <= k as real + 0.5;
  }

  lemma RoundMonotone(x: real, y: real)
    requires x <= y
    ensures RoundHalfEven4(x) <= RoundHalfEven4(y)
  {
    RoundScaledMonotone(x * 10000.0, y * 10000.0);
  }

  lemma RoundIdempotent(x: real)
    ensures RoundHalfEven4(RoundHalfEven4(x)) == RoundHalfEven4(x)
  {
    var k := RoundScaled(x * 10000.0);
    RoundNearestEven(k as real, k);
    assert RoundHalfEven4(x) * 10000.0 == k as real;
  }

  lemma RoundWithinHalfUnit(x: real)
    ensures Abs(RoundHalfEven4(x) - x) <= 0.00005
  {
    RoundNearestEven(x * 10000.0, RoundScaled(x * 10000.0));
  }

  // ---------------------------------------------------------------- the rule

  datatype Thresholds = Thresholds(
    premiumScore: real, premiumDti: real, standardScore: real, standardDti: real, minScore: real, maxLti: real)

  /**
   * The figures of an applicant in exact arithmetic; `DecisionRecord` has the same applicant as serialised,
   * with its id.
   */
  datatype Applicant = Applicant(score: real, income: real, debt: real, amount: real)

  /** From best to worst. */
  datatype Level = Premium | Standard | Refer | Declined

  function Position(l: Level): nat {
    match l
    case Premium => 0
    case Standard => 1
    case Refer => 2
    case Declined => 3
  }

  function Dti(app: Applicant): Ratio { RoundRatio(Divide(app.debt, app.income)) }

  function AffordCap(app: Applicant, th: Thresholds): real { app.income * 12.0 * th.maxLti }

  /** What a level asks of an applicant. */
  predicate Meets(l: Level, app: Applicant, th: Thresholds) {
    match l
    case Premium => app.score >= th.premiumScore && AtMost(Dti(app), th.premiumDti) && app.amount <= AffordCap(app, th)
    case Standard => app.score >= th.standardScore && AtMost(Dti(app), th.standardDti)
      && app.amount <= AffordCap(app, th)
    case Refer => app.score >= th.minScore
    case Declined => true
  }

  /** The best level whose demands are met. */
  ghost predicate IsBest(l: Level, app: Applicant, th: Thresholds) {
    Meets(l, app, th) && forall b: Level :: Position(b) < Position(l) ==> !Meets(b, app, th)
  }

  // ---------------------------------------------------------------- decision and trace

  datatype Outcome = Approved | Referred | Rejected

  function OutcomeOf(l: Level): Outcome {
    match l
    case Premium => Approved
    case Standard => Approved
    case Refer => Referred
    case Declined => Rejected
  }

  datatype AdverseReason =
    | CreditScore(actual: real, threshold: real)
    | TierMiss(actual: real, threshold: real)
    | OverCap(actual: real, threshold: real)

  datatype Expression =
    | DtiLine(debt: real, income: real, dti: Ratio)
    | AffordLine(income: real, maxLti: real, cap: real)
    | TierLine(score: real, scoreOk: bool, dti: Ratio, dtiOk: bool, amount: real, amountOk: bool, all: bool)
    | MinScoreLine(score: real, ok: bool, threshold: real)
    | ReturnLine(level: Level)

  datatype Step = Step(sequence: nat, expression: Expression, matched: bool, children: seq<Step>)

  datatype DemoResult = DemoResult(decision: Level, outcome: Outcome, adverseReason: Option<AdverseReason>,
      steps: seq<Step>)

  /** The line of the trace that tests a level, with every flag it shows. */
  ghost predicate TestsLevel(e: Expression, l: Level, app: Applicant, th: Thresholds) {
    match l
    case Premium => e == TierLine(app.score, app.score >= th.premiumScore, Dti(app), AtMost(Dti(app), th.premiumDti),
                                  app.amount, app.amount <= AffordCap(app, th), Meets(Premium, app, th))
    case Standard => e == TierLine(app.score, app.score >= th.standardScore, Dti(app), AtMost(Dti(app), th.standardDti),
                                   app.amount, app.amount <= AffordCap(app, th), Meets(Standard, app, th))
    case _ => e == MinScoreLine(app.score, Meets(Refer, app, th), th.minScore)
  }

  /** The levels in the order they are tried. */
  function Tried(i: nat): Level {
    if i == 0 then Premium else if i == 1 then Standard else if i == 2 then Refer else Declined
  }

  /** Line `i` of a trace, counted from zero: the level it tries and the outcome; the last one returns `l`. */
  ghost predicate Tries(s: Step, i: nat, last: bool, l: Level, app: Applicant, th: Thresholds)
    requires i >= 2
  {
    && s.sequence == i + 1
    && TestsLevel(s.expression, Tried(i - 2), app, th)
    && s.matched == Meets(Tried(i - 2), app, th)
    && s.children == if last then [Step(i + 2, ReturnLine(l), true, [])] else []
  }

  /**
   * A trace of decision `l`: the two metrics, then the levels tried in order, each line showing its own
   * test and its outcome, up to the one that decided, which alone returns - and returns `l`.
   */
  ghost predicate TraceOf(steps: seq<Step>, l: Level, app: Applicant, th: Thresholds) {
    && |steps| == (if l == Declined then 5 else 3 + Position(l))
    && steps[0] == Step(1, DtiLine(app.debt, app.income, Dti(app)), true, [])
    && steps[1] == Step(2, AffordLine(app.income, th.maxLti, AffordCap(app, th)), true, [])
    && forall i :: 2 <= i < |steps| ==> Tries(steps[i], i, i == |steps| - 1, l, app, th)
  }

  /** The lines of a trace that has not decided yet. */
  ghost predicate Undecided(steps: seq<Step>, app: Applicant, th: Thresholds) {
    && 2 <= |steps| <= 4
    && steps[0] == Step(1, DtiLine(app.debt, app.income, Dti(app)), true, [])
    && steps[1] == Step(2, AffordLine(app.income, th.maxLti, AffordCap(app, th)), true, [])
    && forall i :: 2 <= i < |steps| ==> Tries(steps[i], i, false, Declined, app, th)
  }

  lemma PassOver(steps: seq<Step>, s: Step, app: Applicant, th: Thresholds)
    requires Undecided(steps, app, th) && |steps| < 4 && Tries(s, |steps|, false, Declined, app, th)
    ensures Undecided(steps + [s], app, th)
  {
  }

  lemma Decide(steps: seq<Step>, s: Step, l: Level, app: Applicant, th: Thresholds)
    requires Undecided(steps, app, th) && Tries(s, |steps|, true, l, app, th)
    requires |steps| + 1 == if l == Declined then 5 else 3 + Position(l)
    ensures TraceOf(steps + [s], l, app, th)
  {
  }

  /**
   * The adverse reason of decision `l`. The cap is blamed exactly when asking for no more than the cap
   * would have been enough for an approval.
   */
  ghost predicate ReasonOf(r: Option<AdverseReason>, l: Level, app: Applicant, th: Thresholds) {
    match l
    case Declined => r == Some(CreditScore(app.score, th.minScore))
    case Refer =>
      r == Some(if Meets(Standard, app.(amount := AffordCap(app, th)), th)
                then OverCap(app.amount, AffordCap(app, th))
                else TierMiss(app.score, th.standardScore))
    case _ => r == None
  }

  /** With the amount at the cap, score and debt ratio alone decide. */
  lemma AtTheCap(app: Applicant, th: Thresholds)
    ensures Meets(Standard, app.(amount := AffordCap(app, th)), th)
        <==> app.score >= th.standardScore && AtMost(Dti(app), th.standardDti)
  {
  }

  method ComputeDecision(app: Applicant, th: Thresholds) returns (r: DemoResult)
    ensures IsBest(r.decision, app, th)
    ensures r.outcome == OutcomeOf(r.decision)
    ensures ReasonOf(r.adverseReason, r.decision, app, th)
    ensures TraceOf(r.steps, r.decision, app, th)
  {
    var dti := Dti(app);
    var affordCap := AffordCap(app, th);
    var amountOk := app.amount <= affordCap;

    var premiumScoreOk := app.score >= th.premiumScore;
    var premiumDtiOk := AtMost(dti, th.premiumDti);
    var premiumOk := premiumScoreOk && premiumDtiOk && amountOk;
    var standardScoreOk := app.score >= th.standardScore;
    var standardDtiOk := AtMost(dti, th.standardDti);
    var standardOk := standardScoreOk && standardDtiOk && amountOk;
    var minOk := app.score >= th.minScore;

    assert premiumOk == Meets(Premium, app, th) && standardOk == Meets(Standard, app, th);
    assert minOk == Meets(Refer, app, th);

    var steps := [
      Step(1, DtiLine(app.debt, app.income, dti), true, []),
      Step(2, AffordLine(app.income, th.maxLti, affordCap), true, [])
    ];
    var decision;
    var outcome;
    var adverseReason := None;
    var step;

    if premiumOk {
      decision, outcome := Premium, Approved;
      var line := TierLine(app.score, premiumScoreOk, dti, premiumDtiOk, app.amount, amountOk, true);
      step := Step(3, line, true, [Step(4, ReturnLine(decision), true, [])]);
      Decide(steps, step, decision, app, th);
      steps := steps + [step];
    } else {
      var line := TierLine(app.score, premiumScoreOk, dti, premiumDtiOk, app.amount, amountOk, false);
      step := Step(3, line, false, []);
      PassOver(steps, step, app, th);
      steps := steps + [step];
      if standardOk {
        decision, outcome := Standard, Approved;
        line := TierLine(app.score, standardScoreOk, dti, standardDtiOk, app.amount, amountOk, true);
        step := Step(4, line, true, [Step(5, ReturnLine(decision), true, [])]);
        Decide(steps, step, decision, app, th);
        steps := steps + [step];
      } else {
        line := TierLine(app.score, standardScoreOk, dti, standardDtiOk, app.amount, amountOk, false);
        step := Step(4, line, false, []);
        PassOver(steps, step, app, th);
        steps := steps + [step];
        if minOk {
          decision, outcome := Refer, Referred;
          AtTheCap(app, th);
          adverseReason := if !amountOk && standardScoreOk && standardDtiOk
                           then Some(OverCap(app.amount, affordCap))
                           else Some(TierMiss(app.score, th.standardScore));
          line := MinScoreLine(app.score, true, th.minScore);
          step := Step(5, line, true, [Step(6, ReturnLine(decision), true, [])]);
        } else {
          decision, outcome := Declined, Rejected;
          adverseReason := Some(CreditScore(app.score, th.minScore));
          line := MinScoreLine(app.score, false, th.minScore);
          step := Step(5, line, false, [Step(6, ReturnLine(decision), true, [])]);
        }
        Decide(steps, step, decision, app, th);
        steps := steps + [step];
      }
    }
    r := DemoResult(decision, outcome, adverseReason, steps);
  }

  // ---------------------------------------------------------------- explanation

  datatype Detail =
    | ShortCircuit
    | ScoreDtiAmount(score: real, minScore: real, dti: Ratio, maxDti: real, amount: real, cap: real)
    | MinScore(score: real, threshold: real)

  datatype Tier = Tier(title: Level, evaluated: bool, detail: Detail, matched: Option<bool>)

  datatype Sentence = ReasonPremium | ReasonStandard | ReasonReferAmount | ReasonReferScore | ReasonDeclined

  datatype Explanation = Explanation(decision: Level, outcome: Outcome, tiers: seq<Tier>, oneLineReason: Sentence)

  /** The test a tier shows, with its actual values. */
  function DetailOf(l: Level, app: Applicant, th: Thresholds): Detail {
    match l
    case Premium => ScoreDtiAmount(app.score, th.premiumScore, Dti(app), th.premiumDti, app.amount, AffordCap(app, th))
    case Standard => ScoreDtiAmount(app.score, th.standardScore, Dti(app), th.standardDti, app.amount,
        AffordCap(app, th))
    case _ => MinScore(app.score, th.minScore)
  }

  /** The tiers shown for decision `l`: evaluated exactly up to `l`, and only `l` itself matched. */
  ghost predicate TiersOf(tiers: seq<Tier>, l: Level, app: Applicant, th: Thresholds) {
    && |tiers| == 4
    && forall i :: 0 <= i < 4 ==>
         && tiers[i].title == Tried(i)
         && tiers[i].evaluated == (i <= Position(l))
         && tiers[i].detail == (if i <= Position(l) then DetailOf(Tried(i), app, th) else ShortCircuit)
         && tiers[i].matched == if i > Position(l) then None else Some(i == Position(l) && l != Declined)
  }

  /** The sentence blames the cap exactly when the adverse reason does. */
  ghost predicate SentenceAgrees(s: Sentence, r: DemoResult) {
    match r.decision
    case Premium => s == ReasonPremium
    case Standard => s == ReasonStandard
    case Refer => s == if r.adverseReason.Some? && r.adverseReason.value.OverCap? then ReasonReferAmount
      else ReasonReferScore
    case Declined => s == ReasonDeclined
  }

  /** Trace and tiers tell the same story: a tier is shown as evaluated exactly when the trace tried it. */
  lemma TiersAgreeWithTrace(tiers: seq<Tier>, steps: seq<Step>, l: Level, app: Applicant, th: Thresholds)
    requires IsBest(l, app, th) && TiersOf(tiers, l, app, th) && TraceOf(steps, l, app, th)
    ensures forall i :: 0 <= i < 3 ==> (tiers[i].evaluated <==> i + 2 < |steps|)
    ensures forall i :: 0 <= i < 3 && tiers[i].evaluated ==> tiers[i].matched == Some(steps[i + 2].matched)
  {
    forall i | 0 <= i < 3 && tiers[i].evaluated ensures tiers[i].matched == Some(steps[i + 2].matched) {
      assert Tries(steps[i + 2], i + 2, i + 2 == |steps| - 1, l, app, th);
    }
  }

  method BuildExplanation(app: Applicant, th: Thresholds) returns (e: Explanation, result: DemoResult)
    ensures IsBest(e.decision, app, th) && e.decision == result.decision && e.outcome == OutcomeOf(e.decision)
    ensures TiersOf(e.tiers, e.decision, app, th)
    ensures TraceOf(result.steps, e.decision, app, th)
    ensures forall i :: 0 <= i < 3 ==> (e.tiers[i].evaluated <==> i + 2 < |result.steps|)
    ensures forall i :: 0 <= i < 3 && e.tiers[i].evaluated ==> e.tiers[i].matched == Some(result.steps[i + 2].matched)
    ensures SentenceAgrees(e.oneLineReason, result) && ReasonOf(result.adverseReason, e.decision, app, th)
  {
    result := ComputeDecision(app, th);
    var dti := Dti(app);
    var affordCap := AffordCap(app, th);

    var premiumScoreOk := app.score >= th.premiumScore;
    var premiumDtiOk := AtMost(dti, th.premiumDti);
    var amountOk := app.amount <= affordCap;
    var premiumOk := premiumScoreOk && premiumDtiOk && amountOk;
    var standardScoreOk := app.score >= th.standardScore;
    var standardDtiOk := AtMost(dti, th.standardDti);
    var standardOk := standardScoreOk && standardDtiOk && amountOk;
    var minOk := app.score >= th.minScore;
    assert premiumOk == Meets(Premium, app, th) && standardOk == Meets(Standard, app, th);
    assert minOk == Meets(Refer, app, th);

    var tiers := [Tier(Premium, true,
        ScoreDtiAmount(app.score, th.premiumScore, dti, th.premiumDti, app.amount, affordCap), Some(premiumOk))];
    tiers := tiers + [
      if premiumOk then Tier(Standard, false, ShortCircuit, None)
      else Tier(Standard, true,
          ScoreDtiAmount(app.score, th.standardScore, dti, th.standardDti, app.amount, affordCap), Some(standardOk))];
    tiers := tiers + [
      if premiumOk || standardOk then Tier(Refer, false, ShortCircuit, None)
      else Tier(Refer, true, MinScore(app.score, th.minScore), Some(minOk))];
    tiers := tiers + [
      if premiumOk || standardOk || minOk then Tier(Declined, false, ShortCircuit, None)
      else Tier(Declined, true, MinScore(app.score, th.minScore), Some(false))];

    var oneLineReason;
    if premiumOk {
      oneLineReason := ReasonPremium;
    } else if standardOk {
      oneLineReason := ReasonStandard;
    } else if minOk {
      oneLineReason := if !amountOk && standardScoreOk && standardDtiOk then ReasonReferAmount else ReasonReferScore;
    } else {
      oneLineReason := ReasonDeclined;
    }
    TiersAgreeWithTrace(tiers, result.steps, result.decision, app, th);
    e := Explanation(result.decision, result.outcome, tiers, oneLineReason);
  }

  // ---------------------------------------------------------------- monotonicity

  /** `a` is at least as creditworthy as `b` in every figure. */
  predicate NoWorse(a: Applicant, b: Applicant) {
    a.score >= b.score && a.income >= b.income && a.debt <= b.debt && a.amount <= b.amount
  }

  lemma QuotientMonotone(a: real, b: real, c: real, d: real)
    requires 0.0 <= a <= c && 0.0 < d <= b
    ensures a / b <= c / d
  {
    var q := c / d;
    assert q * d == c && q >= 0.0;
    assert q * d <= q * b;
    assert a / b <= (q * b) / b == q;
  }

  lemma DtiMonotone(a: Applicant, b: Applicant, limit: real)
    requires NoWorse(a, b) && a.debt >= 0.0 && b.income >= 0.0
    requires AtMost(Dti(b), limit)
    ensures AtMost(Dti(a), limit)
  {
    QuotientMonotone(a.debt, a.income, b.debt, b.income);
    RoundMonotone(a.debt / a.income, b.debt / b.income);
  }

  lemma MeetsMonotone(l: Level, a: Applicant, b: Applicant, th: Thresholds)
    requires NoWorse(a, b) && a.debt >= 0.0 && b.income >= 0.0 && th.maxLti >= 0.0
    requires Meets(l, b, th)
    ensures Meets(l, a, th)
  {
    if l == Premium {
      DtiMonotone(a, b, th.premiumDti);
    } else if l == Standard {
      DtiMonotone(a, b, th.standardDti);
    }
    assert a.income * 12.0 >= b.income * 12.0;
    assert AffordCap(a, th) >= AffordCap(b, th);
  }

  /**
   * Raising score or income, or lowering debt or amount, never worsens the decision: the rounding of
   * the debt ratio does not break the order. Zero income is included.
   */
  lemma DecisionMonotone(a: Applicant, la: Level, b: Applicant, lb: Level, th: Thresholds)
    requires NoWorse(a, b) && a.debt >= 0.0 && b.income >= 0.0 && th.maxLti >= 0.0
    requires IsBest(la, a, th) && IsBest(lb, b, th)
    ensures Position(la) <= Position(lb)
  {
    MeetsMonotone(lb, a, b, th);
  }
}

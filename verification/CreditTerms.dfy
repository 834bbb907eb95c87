/**
 * The credit decision in plain figures: what each level demands, which reason is given, and what the trace and the
 * explanation show (src/config/credit-risk-demo.ts).
 */
module CreditTerms {
  import opened CreditDecision
  import opened Outcomes

  /** `k` is the integer nearest to `x`, the even one of two. */
  predicate Nearest(k: int, x: real) {
    var d := k as real - x;
    -0.5 < d < 0.5 || ((d == 0.5 || d == -0.5) && k % 2 == 0)
  }

  predicate IsTenThousandths(k: int, debt: real, income: real)
    requires income != 0.0
  {
    Nearest(k, debt / income * 10000.0)
  }

  /** Debt over income, in ten-thousandths rounded to the even integer; without income it is no number or infinite. */
  ghost predicate IsDebtRatio(r: Ratio, debt: real, income: real) {
    if income == 0.0 then
      r == if debt > 0.0 then PlusInfinity else if debt < 0.0 then MinusInfinity else NotANumber
    else exists k: int :: IsTenThousandths(k, debt, income) && r == Finite(k as real / 10000.0)
  }

  /** The debt ratio does not exceed `limit`; without income that is so only for a negative debt. */
  ghost predicate DebtWithin(debt: real, income: real, limit: real) {
    if income == 0.0 then debt < 0.0
    else exists k: int :: IsTenThousandths(k, debt, income) && k as real / 10000.0 <= limit
  }

  lemma NearestIsRound(k: int, x: real)
    ensures Nearest(k, x) <==> k == RoundScaled(x)
  {
    RoundNearestEven(x, k);
  }

  lemma DebtRatioExactly(app: Applicant, r: Ratio, limit: real)
    ensures r == Dti(app) <==> IsDebtRatio(r, app.debt, app.income)
    ensures AtMost(Dti(app), limit) <==> DebtWithin(app.debt, app.income, limit)
  {
    if app.income != 0.0 {
      var x := app.debt / app.income * 10000.0;
      forall k: int ensures IsTenThousandths(k, app.debt, app.income) <==> k == RoundScaled(x) {
        NearestIsRound(k, x);
      }
      assert IsTenThousandths(RoundScaled(x), app.debt, app.income);
    }
  }

  /** No more than twelve monthly incomes times the loan-to-income limit is asked for. */
  predicate Affordable(app: Applicant, th: Thresholds) { app.amount <= app.income * 12.0 * th.maxLti }

  ghost predicate IsPremium(app: Applicant, th: Thresholds) {
    app.score >= th.premiumScore && DebtWithin(app.debt, app.income, th.premiumDti) && Affordable(app, th)
  }

  ghost predicate IsStandard(app: Applicant, th: Thresholds) {
    app.score >= th.standardScore && DebtWithin(app.debt, app.income, th.standardDti) && Affordable(app, th)
  }

  lemma LevelsExactly(app: Applicant, th: Thresholds)
    ensures Meets(Premium, app, th) <==> IsPremium(app, th)
    ensures Meets(Standard, app, th) <==> IsStandard(app, th)
    ensures Meets(Refer, app, th) <==> app.score >= th.minScore
    ensures Meets(Declined, app, th)
  {
    DebtRatioExactly(app, NotANumber, th.premiumDti);
    DebtRatioExactly(app, NotANumber, th.standardDti);
  }

  /** Which level is decided, by score, debt ratio and amount. */
  lemma DecisionExactly(app: Applicant, th: Thresholds, l: Level)
    requires IsBest(l, app, th)
    ensures l == Premium <==> IsPremium(app, th)
    ensures l == Standard <==> !IsPremium(app, th) && IsStandard(app, th)
    ensures l == Refer <==> !IsPremium(app, th) && !IsStandard(app, th) && app.score >= th.minScore
    ensures l == Declined <==> !IsPremium(app, th) && !IsStandard(app, th) && app.score < th.minScore
  {
    LevelsExactly(app, th);
    assert forall b: Level :: Position(b) < Position(l) ==> !Meets(b, app, th);
    assert Position(Premium) < Position(Standard) < Position(Refer) < Position(Declined);
  }

  lemma OutcomeExactly(l: Level)
    ensures OutcomeOf(l) == Approved <==> l == Premium || l == Standard
    ensures OutcomeOf(l) == Referred <==> l == Refer
  {
  }

  /**
   * A referral blames the amount exactly when score and debt ratio are good enough for the standard level, and
   * otherwise the score against that level; a refusal blames the score against the minimum.
   */
  lemma ReasonExactly(app: Applicant, th: Thresholds, l: Level, reason: Option<AdverseReason>)
    requires IsBest(l, app, th) && ReasonOf(reason, l, app, th)
    ensures reason.None? <==> l == Premium || l == Standard
    ensures l == Declined ==> reason == Some(CreditScore(app.score, th.minScore))
    ensures l == Refer ==>
      reason == Some(if app.score >= th.standardScore && DebtWithin(app.debt, app.income, th.standardDti)
                     then OverCap(app.amount, app.income * 12.0 * th.maxLti)
                     else TierMiss(app.score, th.standardScore))
  {
    if l == Refer {
      CapExactly(app, th);
      AtTheCap(app, th);
      DebtRatioExactly(app, NotANumber, th.standardDti);
    }
  }

  lemma CapExactly(app: Applicant, th: Thresholds)
    ensures AffordCap(app, th) == app.income * 12.0 * th.maxLti
  {
  }

  /** An applicant blamed for the amount did ask for more than the cap. */
  lemma BlamedAmountIsTooHigh(app: Applicant, th: Thresholds, l: Level, reason: Option<AdverseReason>)
    requires IsBest(l, app, th) && ReasonOf(reason, l, app, th)
    requires reason.Some? && reason.value.OverCap?
    ensures reason.value.actual == app.amount && reason.value.threshold == app.income * 12.0 * th.maxLti
    ensures reason.value.actual > reason.value.threshold
  {
    ReasonExactly(app, th, l, reason);
    DecisionExactly(app, th, l);
  }

  // ---------------------------------------------------------------- what is shown

  /** The line of a level shows its own three tests and whether all hold. */
  ghost predicate LineShows(e: Expression, app: Applicant, th: Thresholds, score: real, dti: real) {
    && e.TierLine? && IsDebtRatio(e.dti, app.debt, app.income)
    && e.score == app.score && (e.scoreOk <==> app.score >= score)
    && (e.dtiOk <==> DebtWithin(app.debt, app.income, dti))
    && e.amount == app.amount && (e.amountOk <==> Affordable(app, th))
    && (e.all <==> e.scoreOk && e.dtiOk && e.amountOk)
  }

  ghost predicate MetricLines(debtLine: Expression, capLine: Expression, app: Applicant, th: Thresholds) {
    && debtLine.DtiLine? && debtLine.debt == app.debt && debtLine.income == app.income
    && IsDebtRatio(debtLine.dti, app.debt, app.income)
    && capLine == AffordLine(app.income, th.maxLti, app.income * 12.0 * th.maxLti)
  }

  /** Every line of a trace shows the figures of the applicant, and only the last returns, the level decided. */
  lemma TraceShows(steps: seq<Step>, l: Level, app: Applicant, th: Thresholds)
    requires IsBest(l, app, th) && TraceOf(steps, l, app, th)
    ensures |steps| >= 3 && MetricLines(steps[0].expression, steps[1].expression, app, th)
    ensures LineShows(steps[2].expression, app, th, th.premiumScore, th.premiumDti)
    ensures |steps| > 3 <==> l != Premium
    ensures |steps| > 3 ==> LineShows(steps[3].expression, app, th, th.standardScore, th.standardDti)
    ensures |steps| > 4 <==> l == Refer || l == Declined
    ensures |steps| > 4 ==> steps[4].expression == MinScoreLine(app.score, app.score >= th.minScore, th.minScore)
    ensures |steps| <= 5
  {
    LevelsExactly(app, th);
    DebtRatioExactly(app, Dti(app), th.premiumDti);
    DebtRatioExactly(app, Dti(app), th.standardDti);
    assert Tries(steps[2], 2, 2 == |steps| - 1, l, app, th);
    assert |steps| > 3 ==> Tries(steps[3], 3, 3 == |steps| - 1, l, app, th);
    assert |steps| > 4 ==> Tries(steps[4], 4, 4 == |steps| - 1, l, app, th);
  }

  /** A trace can be replayed: the numbers run through, and the one line that returns gives the decision back. */
  lemma TraceReplays(steps: seq<Step>, l: Level, app: Applicant, th: Thresholds, i: nat)
    requires IsBest(l, app, th) && TraceOf(steps, l, app, th) && i < |steps|
    ensures steps[i].sequence == i + 1
    ensures i < |steps| - 1 ==> steps[i].children == []
    ensures i == |steps| - 1 ==> steps[i].children == [Step(i + 2, ReturnLine(l), true, [])]
    ensures i >= 2 ==> (steps[i].matched <==> i == |steps| - 1 && l != Declined)
  {
    assert i >= 2 ==> Tries(steps[i], i, i == |steps| - 1, l, app, th);
    assert Position(Tried(0)) == 0 && Position(Tried(1)) == 1 && Position(Tried(2)) == 2;
  }

  /** Each tier of the explanation shows its thresholds next to the applicant's figures, while it was evaluated. */
  lemma TiersShow(tiers: seq<Tier>, l: Level, app: Applicant, th: Thresholds, i: nat)
    requires IsBest(l, app, th) && TiersOf(tiers, l, app, th) && i < 4
    ensures tiers[i].title == [Premium, Standard, Refer, Declined][i]
    ensures tiers[i].evaluated <==> tiers[i].matched.Some?
    ensures tiers[i].evaluated
       <==> || i == 0 || (i == 1 && l != Premium)
            || (i == 2 && (l == Refer || l == Declined)) || (i == 3 && l == Declined)
    ensures tiers[i].matched == Some(true) <==> tiers[i].title == l && l != Declined
    ensures !tiers[i].evaluated ==> tiers[i].detail == ShortCircuit
    ensures tiers[i].evaluated && i >= 2 ==> tiers[i].detail == MinScore(app.score, th.minScore)
    ensures tiers[i].evaluated && i < 2 ==>
      var d := tiers[i].detail;
      && d.ScoreDtiAmount? && IsDebtRatio(d.dti, app.debt, app.income)
      && d.score == app.score && d.minScore == (if i == 0 then th.premiumScore else th.standardScore)
      && d.maxDti == (if i == 0 then th.premiumDti else th.standardDti)
      && d.amount == app.amount && d.cap == app.income * 12.0 * th.maxLti
  {
    DebtRatioExactly(app, Dti(app), th.premiumDti);
  }
}

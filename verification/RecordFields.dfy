/**
 * Where everything stands in a decision record: field by field and under the names of each language
 * (src/config/credit-risk-demo.ts).
 */
module RecordFields {
  import opened CanonicalJson
  import opened DecisionRecord
  import opened JsNumber
  import opened JsText
  import opened Sorting

  /** The object's value under the key. */
  ghost predicate Holds(v: Json, k: Text, w: Json) { v.Object? && k in Keys(v.members) && Get(v.members, k) == w }

  /** A figure is written as its number, and one that is not finite as none. */
  predicate Shows(v: Json, f: Figure) { (f.Known? ==> v == Number(f.value)) && (f.NotFinite? ==> v == NonFinite) }

  ghost predicate HoldsFigure(v: Json, k: Text, f: Figure) {
    v.Object? && k in Keys(v.members) && Shows(Get(v.members, k), f)
  }

  /** `v` lists exactly the keys `ks`, in this order. */
  ghost predicate Lists(v: Json, ks: seq<Text>) { v.Object? && Keys(v.members) == ks }

  /** The applicant under the given names of the four figures. */
  ghost predicate IsApplicant(v: Json, app: Applicant, score: Text, income: Text, debt: Text, amount: Text) {
    && Lists(v, [U("id"), score, income, debt, amount])
    && Holds(v, U("id"), Str(app.id))
    && HoldsFigure(v, score, app.score) && HoldsFigure(v, income, app.income)
    && HoldsFigure(v, debt, app.debt) && HoldsFigure(v, amount, app.amount)
  }

  /** The applicant as the record writes it. */
  function Written(loc: Locale, app: Applicant): Json {
    Object(Literal(ApplicantKeys(loc), ApplicantValues(app)))
  }

  lemma ApplicantUnderKeys(loc: Locale, app: Applicant)
    ensures var ids := Ids(loc); IsApplicant(Written(loc, app), app, ids.score, ids.income, ids.debt, ids.amount)
  {
    var ks, vs := ApplicantKeys(loc), ApplicantValues(app);
    ApplicantKeysDistinct(loc);
    LiteralOwn(ks, vs);
    assert ks[0] == U("id") && vs[0] == Str(app.id);
    assert ks[1] == Ids(loc).score && vs[1] == FigureJson(app.score);
    assert ks[2] == Ids(loc).income && vs[2] == FigureJson(app.income);
    assert ks[3] == Ids(loc).debt && vs[3] == FigureJson(app.debt);
    assert ks[4] == Ids(loc).amount && vs[4] == FigureJson(app.amount);
  }

  /** The English names. */
  lemma ApplicantInEnglish(app: Applicant)
    ensures IsApplicant(Written(En, app), app,
                        U("creditScore"), U("monthlyIncome"), U("monthlyDebt"), U("requestedAmount"))
  {
    ApplicantUnderKeys(En, app);
  }

  /** The Chinese names. */
  lemma ApplicantInChinese(app: Applicant)
    ensures IsApplicant(Written(Zh, app), app, U("信用分"), U("月收入"), U("月负债"), U("申请额度"))
  {
    ApplicantUnderKeys(Zh, app);
  }

  /** The German names. */
  lemma ApplicantInGerman(app: Applicant)
    ensures IsApplicant(Written(De, app), app, U("score"), U("einkommen"), U("schulden"), U("betrag"))
  {
    ApplicantUnderKeys(De, app);
  }

  /** The input is the applicant under the name of the rule's parameter. */
  lemma InputHoldsApplicant(loc: Locale, app: Applicant)
    ensures Lists(EvalContext(loc, app), [Ids(loc).param])
    ensures Holds(EvalContext(loc, app), Ids(loc).param, Written(loc, app))
  {
    LiteralOwn([Ids(loc).param], [Written(loc, app)]);
    assert [Ids(loc).param][0] == Ids(loc).param && [Written(loc, app)][0] == Written(loc, app);
  }

  /** The language, the rule's name and the parameter's name. */
  predicate Named(loc: Locale, code: Text, ruleName: Text, param: Text) {
    match loc
    case En => code == U("en") && ruleName == U("decide") && param == U("applicant")
    case Zh => code == U("zh") && ruleName == U("评估") && param == U("申请人")
    case De => code == U("de") && ruleName == U("entscheiden") && param == U("antrag")
  }

  lemma NamesExactly(loc: Locale)
    ensures Named(loc, LocaleCode(loc), Ids(loc).ruleName, Ids(loc).param)
  {
  }

  /** The trace of the record: that of the run, but with an execution time of zero. */
  ghost predicate IsTimeless(v: Json, trace: seq<Member>) {
    && v.Object? && Holds(v, U("executionTimeMs"), Number(Zero))
    && (forall k :: k in Keys(trace) && k != EXECUTION_TIME ==> Holds(v, k, Get(trace, k)))
    && (forall k :: k in Keys(v.members) ==> k in Keys(trace) || k == EXECUTION_TIME)
  }

  lemma TraceIsTimeless(trace: seq<Member>)
    requires Distinct(Keys(trace))
    ensures IsTimeless(Object(With(trace, EXECUTION_TIME, Number(Zero))), trace)
  {
    WithKeys(trace, EXECUTION_TIME, Number(Zero));
    forall k | k in Keys(trace) || k == EXECUTION_TIME
      ensures Holds(Object(With(trace, EXECUTION_TIME, Number(Zero))), k,
                    if k == EXECUTION_TIME then Number(Zero) else Get(trace, k))
    {
      WithGet(trace, EXECUTION_TIME, Number(Zero), k);
    }
  }

  ghost predicate HoldsTimeless(v: Json, k: Text, trace: seq<Member>) {
    v.Object? && k in Keys(v.members) && IsTimeless(Get(v.members, k), trace)
  }

  /** The record names the rule, its language and entry, the input, the decision and the timeless trace. */
  lemma RecordHolds(loc: Locale, rule: Text, app: Applicant, decision: Text, trace: seq<Member>)
    requires Distinct(Keys(trace))
    ensures var r := BuildDecisionRecord(loc, rule, app, decision, trace);
            && Lists(r, [U("rule"), U("locale"), U("entry"), U("input"), U("decision"), U("trace")])
            && Holds(r, U("rule"), Str(rule)) && Holds(r, U("locale"), Str(LocaleCode(loc)))
            && Holds(r, U("entry"), Str(Ids(loc).ruleName)) && Holds(r, U("input"), EvalContext(loc, app))
            && Holds(r, U("decision"), Str(decision)) && HoldsTimeless(r, U("trace"), trace)
  {
    var ks, vs := RECORD_KEYS, RecordValues(loc, rule, app, decision, trace);
    RecordKeysDistinct();
    LiteralOwn(ks, vs);
    TraceIsTimeless(trace);
    assert ks[0] == U("rule") && ks[1] == U("locale") && ks[2] == U("entry");
    assert ks[3] == U("input") && ks[4] == U("decision") && ks[5] == U("trace");
    assert vs[0] == Str(rule) && vs[1] == Str(LocaleCode(loc)) && vs[2] == Str(Ids(loc).ruleName);
    assert vs[3] == EvalContext(loc, app) && vs[4] == Str(decision);
    assert vs[5] == Object(With(trace, EXECUTION_TIME, Number(Zero)));
  }
}

/** What the hash pre-image of a decision pins down (src/config/credit-risk-demo.ts). */
module DecisionRecord {
  import opened JsText
  import opened JsNumber
  import opened Sorting
  import opened CanonicalJson

  datatype Locale = En | Zh | De

  /** The names that differ by language and reach the record. */
  datatype Identifiers = Identifiers(
    ruleName: Text, param: Text, score: Text, income: Text, debt: Text, amount: Text)

  function Ids(loc: Locale): Identifiers {
    match loc
    case En => Identifiers(U("decide"), U("applicant"), U("creditScore"), U("monthlyIncome"), U("monthlyDebt"),
        U("requestedAmount"))
    case Zh => Identifiers(U("评估"), U("申请人"), U("信用分"), U("月收入"), U("月负债"), U("申请额度"))
    case De => Identifiers(U("entscheiden"), U("antrag"), U("score"), U("einkommen"), U("schulden"), U("betrag"))
  }

  function LocaleCode(loc: Locale): Text {
    match loc
    case En => U("en")
    case Zh => U("zh")
    case De => U("de")
  }

  /** A figure as it is serialised: a finite number in its printed form, or NaN or an infinity. */
  datatype Figure = Known(value: Num) | NotFinite

  function FigureJson(f: Figure): Json { if f.Known? then Number(f.value) else NonFinite }

  /**
   * The applicant as it is serialised. `CreditDecision` has the same applicant without its id, its figures
   * being the exact values of these numbers.
   */
  datatype Applicant = Applicant(id: Text, score: Figure, income: Figure, debt: Figure, amount: Figure)

  /** An object literal with the given keys and values. */
  function Literal(ks: seq<Text>, vs: seq<Json>): (ms: seq<Member>)
    requires |ks| == |vs|
    ensures |ms| == |ks|
  {
    seq(|ks|, i requires 0 <= i < |ks| => Member(ks[i], vs[i]))
  }

  function ApplicantKeys(loc: Locale): seq<Text> {
    var ids := Ids(loc);
    [U("id"), ids.score, ids.income, ids.debt, ids.amount]
  }

  function ApplicantValues(app: Applicant): seq<Json> {
    [ Str(app.id), FigureJson(app.score), FigureJson(app.income), FigureJson(app.debt), FigureJson(app.amount) ]
  }

  /** The evaluation context: the applicant under the localised parameter name. */
  function EvalContext(loc: Locale, app: Applicant): Json {
    Object(Literal([Ids(loc).param], [Object(Literal(ApplicantKeys(loc), ApplicantValues(app)))]))
  }

  const EXECUTION_TIME := U("executionTimeMs")

  /** `{ ...ms, [k]: v }`: an existing key keeps its place, a new one comes last. */
  function With(ms: seq<Member>, k: Text, v: Json): (r: seq<Member>)
  {
    if k in Keys(ms) then ms[IndexOfKey(ms, k) := Member(k, v)] else ms + [Member(k, v)]
  }

  const RECORD_KEYS: seq<Text> := [U("rule"), U("locale"), U("entry"), U("input"), U("decision"), U("trace")]

  function RecordValues(loc: Locale, rule: Text, app: Applicant, decision: Text, trace: seq<Member>): (vs: seq<Json>)
    ensures |vs| == |RECORD_KEYS|
  {
    [ Str(rule), Str(LocaleCode(loc)), Str(Ids(loc).ruleName), EvalContext(loc, app), Str(decision),
      Object(With(trace, EXECUTION_TIME, Number(Zero))) ]
  }

  /** The decision record; `trace` lists the members of the trace object. */
  function BuildDecisionRecord(loc: Locale, rule: Text, app: Applicant, decision: Text, trace: seq<Member>): Json {
    Object(Literal(RECORD_KEYS, RecordValues(loc, rule, app, decision, trace)))
  }

  /** The trace as a finite map, without its volatile execution time. */
  function TimelessTrace(trace: seq<Member>): map<Text, Value> {
    Meaning(Object(trace)).fields - {EXECUTION_TIME}
  }

  // ---------------------------------------------------------------- object literals

  lemma LiteralOwn(ks: seq<Text>, vs: seq<Json>)
    requires |ks| == |vs| && Distinct(ks)
    ensures Keys(Literal(ks, vs)) == ks
    ensures forall i :: 0 <= i < |ks| ==> ks[i] in Keys(Literal(ks, vs)) && Get(Literal(ks, vs), ks[i]) == vs[i]
  {
    var ms := Literal(ks, vs);
    assert Keys(ms) == ks;
    forall i | 0 <= i < |ks| ensures ks[i] in Keys(ms) && Get(ms, ks[i]) == vs[i] {
      GetOwn(ms, i);
    }
  }

  /** Two literals with the same keys mean the same exactly when their values do, one by one. */
  lemma LiteralExact(ks: seq<Text>, vs: seq<Json>, ws: seq<Json>)
    requires |ks| == |vs| == |ws| && Distinct(ks)
    ensures Meaning(Object(Literal(ks, vs))) == Meaning(Object(Literal(ks, ws)))
        <==> (forall i :: 0 <= i < |ks| ==> Meaning(vs[i]) == Meaning(ws[i]))
  {
    LiteralOwn(ks, vs);
    LiteralOwn(ks, ws);
    FieldsOf(Literal(ks, vs));
    FieldsOf(Literal(ks, ws));
    if forall i :: 0 <= i < |ks| ==> Meaning(vs[i]) == Meaning(ws[i]) {
      SameObjectMeaning(Literal(ks, vs), Literal(ks, ws));
    }
  }

  lemma LiteralProper(ks: seq<Text>, vs: seq<Json>)
    requires |ks| == |vs| && Distinct(ks)
    requires forall i :: 0 <= i < |vs| ==> Proper(vs[i])
    ensures Proper(Object(Literal(ks, vs)))
  {
    LiteralOwn(ks, vs);
  }

  // ---------------------------------------------------------------- overriding one key

  lemma WithKeys(ms: seq<Member>, k: Text, v: Json)
    requires Distinct(Keys(ms))
    ensures Distinct(Keys(With(ms, k, v)))
    ensures forall q :: q in Keys(With(ms, k, v)) <==> q in Keys(ms) || q == k
  {
    var r := With(ms, k, v);
    if k in Keys(ms) {
      assert Keys(r) == Keys(ms);
    } else {
      assert Keys(r) == Keys(ms) + [k];
    }
  }

  lemma WithGet(ms: seq<Member>, k: Text, v: Json, q: Text)
    requires Distinct(Keys(ms)) && (q in Keys(ms) || q == k)
    ensures q in Keys(With(ms, k, v))
    ensures Get(With(ms, k, v), q) == if q == k then v else Get(ms, q)
  {
    var r := With(ms, k, v);
    WithKeys(ms, k, v);
    var i := if q in Keys(ms) then IndexOfKey(ms, q) else |ms|;
    assert r[i].key == q;
    GetOwn(r, i);
  }

  lemma WithMeaningAt(ms: seq<Member>, k: Text, v: Json, q: Text)
    requires Distinct(Keys(ms)) && (q in Keys(ms) || q == k)
    ensures q in Meaning(Object(With(ms, k, v))).fields && (q != k ==> q in Meaning(Object(ms)).fields)
    ensures Meaning(Object(With(ms, k, v))).fields[q] == if q == k then Meaning(v) else Meaning(Object(ms)).fields[q]
  {
    WithGet(ms, k, v, q);
    FieldsOf(With(ms, k, v));
    if q != k { FieldsOf(ms); }
  }

  /** Overriding one key changes one entry of the finite map. */
  lemma WithMeaning(ms: seq<Member>, k: Text, v: Json)
    requires Distinct(Keys(ms))
    ensures Meaning(Object(With(ms, k, v))).fields == Meaning(Object(ms)).fields[k := Meaning(v)]
  {
    var before, after := Meaning(Object(ms)).fields, Meaning(Object(With(ms, k, v))).fields;
    FieldsOf(ms);
    FieldsOf(With(ms, k, v));
    WithKeys(ms, k, v);
    forall q | q in after ensures q in before[k := Meaning(v)] && after[q] == before[k := Meaning(v)][q] {
      WithMeaningAt(ms, k, v, q);
    }
    assert after.Keys == before[k := Meaning(v)].Keys;
  }

  lemma OverrideForgets<K, V>(f: map<K, V>, g: map<K, V>, k: K, v: V)
    ensures f[k := v] == g[k := v] <==> f - {k} == g - {k}
  {
    assert f[k := v] - {k} == f - {k} && g[k := v] - {k} == g - {k};
    assert (f - {k})[k := v] == f[k := v] && (g - {k})[k := v] == g[k := v];
  }

  /** The trace enters the record as a finite map without its execution time. */
  lemma TraceExact(t: seq<Member>, t': seq<Member>)
    requires Distinct(Keys(t)) && Distinct(Keys(t'))
    ensures Meaning(Object(With(t, EXECUTION_TIME, Number(Zero))))
        == Meaning(Object(With(t', EXECUTION_TIME, Number(Zero))))
        <==> TimelessTrace(t) == TimelessTrace(t')
  {
    WithMeaning(t, EXECUTION_TIME, Number(Zero));
    WithMeaning(t', EXECUTION_TIME, Number(Zero));
    OverrideForgets(Meaning(Object(t)).fields, Meaning(Object(t')).fields, EXECUTION_TIME, VNumber(Zero));
  }

  // ---------------------------------------------------------------- the record

  lemma RecordKeysDistinct()
    ensures Distinct(RECORD_KEYS)
  {
    assert U("entry")[0] != U("input")[0] && U("entry")[0] != U("trace")[0] && U("input")[0] != U("trace")[0];
  }

  lemma ApplicantKeysDistinct(loc: Locale)
    ensures Distinct(ApplicantKeys(loc))
  {
    var ids := Ids(loc);
    match loc {
      case En => assert ids.debt[7] != ids.score[7];
      case Zh => assert ids.income[1] != ids.debt[1] && ids.score[0] != ids.income[0] && ids.score[0] != ids.debt[0];
      case De =>
    }
  }

  /** The evaluation context determines the applicant. */
  lemma EvalContextExact(loc: Locale, a: Applicant, b: Applicant)
    ensures Meaning(EvalContext(loc, a)) == Meaning(EvalContext(loc, b)) <==> a == b
  {
    var va, vb := ApplicantValues(a), ApplicantValues(b);
    ApplicantKeysDistinct(loc);
    LiteralExact(ApplicantKeys(loc), va, vb);
    var oa, ob := Object(Literal(ApplicantKeys(loc), va)), Object(Literal(ApplicantKeys(loc), vb));
    LiteralExact([Ids(loc).param], [oa], [ob]);
    assert Meaning(oa) == Meaning(ob) <==> Meaning([oa][0]) == Meaning([ob][0]);
    ApplicantValuesExact(a, b);
  }

  lemma ApplicantValuesExact(a: Applicant, b: Applicant)
    ensures (forall i :: 0 <= i < 5 ==> Meaning(ApplicantValues(a)[i]) == Meaning(ApplicantValues(b)[i])) <==> a == b
  {
    var va, vb := ApplicantValues(a), ApplicantValues(b);
    if forall i :: 0 <= i < 5 ==> Meaning(va[i]) == Meaning(vb[i]) {
      assert Meaning(va[0]) == Meaning(vb[0]) && Meaning(va[1]) == Meaning(vb[1]) && Meaning(va[2]) == Meaning(vb[2]);
      assert Meaning(va[3]) == Meaning(vb[3]) && Meaning(va[4]) == Meaning(vb[4]);
    }
  }

  lemma RecordIsProper(loc: Locale, rule: Text, app: Applicant, decision: Text, trace: seq<Member>)
    requires Proper(Object(trace))
    ensures Proper(BuildDecisionRecord(loc, rule, app, decision, trace))
  {
    var r := With(trace, EXECUTION_TIME, Number(Zero));
    WithKeys(trace, EXECUTION_TIME, Number(Zero));
    assert Proper(Object(r));
    RecordKeysDistinct();
    ApplicantKeysDistinct(loc);
    LiteralProper(ApplicantKeys(loc), ApplicantValues(app));
    LiteralProper([Ids(loc).param], [Object(Literal(ApplicantKeys(loc), ApplicantValues(app)))]);
    LiteralProper(RECORD_KEYS, RecordValues(loc, rule, app, decision, trace));
  }

  lemma RecordValuesExact(
      loc: Locale, rule: Text, app: Applicant, decision: Text, trace: seq<Member>,
      loc': Locale, rule': Text, app': Applicant, decision': Text, trace': seq<Member>)
    requires Distinct(Keys(trace)) && Distinct(Keys(trace'))
    ensures (forall i :: 0 <= i < 6 ==>
               Meaning(RecordValues(loc, rule, app, decision, trace)[i])
                   == Meaning(RecordValues(loc', rule', app', decision', trace')[i]))
        <==> loc == loc' && rule == rule' && app == app' && decision == decision'
             && TimelessTrace(trace) == TimelessTrace(trace')
  {
    var va, vb := RecordValues(loc, rule, app, decision, trace), RecordValues(loc', rule', app', decision', trace');
    assert LocaleCode(En)[0] == 0x65 && LocaleCode(Zh)[0] == 0x7A && LocaleCode(De)[0] == 0x64;
    TraceExact(trace, trace');
    if loc == loc' {
      EvalContextExact(loc, app, app');
    }
    if forall i :: 0 <= i < 6 ==> Meaning(va[i]) == Meaning(vb[i]) {
      assert Meaning(va[0]) == Meaning(vb[0]) && Meaning(va[1]) == Meaning(vb[1]) && Meaning(va[3]) == Meaning(vb[3]);
      assert Meaning(va[4]) == Meaning(vb[4]) && Meaning(va[5]) == Meaning(vb[5]);
    }
  }

  /** Nothing in the trace but its execution time may be a value that JSON cannot express. */
  predicate HashableTrace(trace: seq<Member>) {
    forall i :: 0 <= i < |trace| && trace[i].key != EXECUTION_TIME ==> Hashable(trace[i].value)
  }

  lemma WithTimeHashable(trace: seq<Member>)
    requires Distinct(Keys(trace))
    ensures Hashable(Object(With(trace, EXECUTION_TIME, Number(Zero)))) <==> HashableTrace(trace)
  {
    var r := With(trace, EXECUTION_TIME, Number(Zero));
    forall i | 0 <= i < |trace|
      ensures r[i] == if trace[i].key == EXECUTION_TIME then Member(EXECUTION_TIME, Number(Zero)) else trace[i]
    {
      if trace[i].key == EXECUTION_TIME {
        assert Keys(trace)[i] == EXECUTION_TIME;
        assert Keys(trace)[IndexOfKey(trace, EXECUTION_TIME)] == EXECUTION_TIME;
      }
    }
  }

  lemma LiteralHashable(ks: seq<Text>, vs: seq<Json>)
    requires |ks| == |vs|
    ensures Hashable(Object(Literal(ks, vs))) <==> forall i :: 0 <= i < |vs| ==> Hashable(vs[i])
  {
    var ms := Literal(ks, vs);
    assert forall i :: 0 <= i < |vs| ==> ms[i].value == vs[i];
  }

  predicate HashableApplicant(app: Applicant) {
    app.score.Known? && app.income.Known? && app.debt.Known? && app.amount.Known?
  }

  lemma InputHashable(loc: Locale, app: Applicant)
    ensures Hashable(EvalContext(loc, app)) <==> HashableApplicant(app)
  {
    var vs := ApplicantValues(app);
    assert Hashable(vs[0]) && (Hashable(vs[1]) <==> app.score.Known?) && (Hashable(vs[2]) <==> app.income.Known?);
    assert (Hashable(vs[3]) <==> app.debt.Known?) && (Hashable(vs[4]) <==> app.amount.Known?);
    var inner := Object(Literal(ApplicantKeys(loc), ApplicantValues(app)));
    LiteralHashable(ApplicantKeys(loc), ApplicantValues(app));
    LiteralHashable([Ids(loc).param], [inner]);
    assert [inner][0] == inner;
  }

  lemma RecordValuesHashable(loc: Locale, rule: Text, app: Applicant, decision: Text, trace: seq<Member>)
    requires Distinct(Keys(trace))
    ensures (forall i :: 0 <= i < 6 ==> Hashable(RecordValues(loc, rule, app, decision, trace)[i]))
        <==> HashableApplicant(app) && HashableTrace(trace)
  {
    var vs := RecordValues(loc, rule, app, decision, trace);
    InputHashable(loc, app);
    WithTimeHashable(trace);
    assert vs[3] == EvalContext(loc, app) && vs[5] == Object(With(trace, EXECUTION_TIME, Number(Zero)));
    assert Hashable(vs[0]) && Hashable(vs[1]) && Hashable(vs[2]) && Hashable(vs[4]);
  }

  /** A record can be hashed exactly when all its figures are finite and its trace can, the execution time aside. */
  lemma RecordHashable(loc: Locale, rule: Text, app: Applicant, decision: Text, trace: seq<Member>)
    requires Proper(Object(trace))
    ensures Stringify(BuildDecisionRecord(loc, rule, app, decision, trace)).Ok?
        <==> HashableApplicant(app) && HashableTrace(trace)
  {
    RecordIsProper(loc, rule, app, decision, trace);
    OkIffHashable(BuildDecisionRecord(loc, rule, app, decision, trace));
    LiteralHashable(RECORD_KEYS, RecordValues(loc, rule, app, decision, trace));
    RecordValuesHashable(loc, rule, app, decision, trace);
  }

  /**
   * The hash pre-image of a record is the same exactly when rule, locale, input and decision agree and
   * the traces agree apart from their execution time, whatever the order of the trace's keys.
   */
  lemma PreimageExact(
      loc: Locale, rule: Text, app: Applicant, decision: Text, trace: seq<Member>,
      loc': Locale, rule': Text, app': Applicant, decision': Text, trace': seq<Member>)
    requires Proper(Object(trace)) && Proper(Object(trace'))
    requires HashableApplicant(app) && HashableTrace(trace) && HashableApplicant(app') && HashableTrace(trace')
    ensures Stringify(BuildDecisionRecord(loc, rule, app, decision, trace))
              == Stringify(BuildDecisionRecord(loc', rule', app', decision', trace'))
        <==> loc == loc' && rule == rule' && app == app' && decision == decision'
             && TimelessTrace(trace) == TimelessTrace(trace')
  {
    RecordIsProper(loc, rule, app, decision, trace);
    RecordIsProper(loc', rule', app', decision', trace');
    RecordHashable(loc, rule, app, decision, trace);
    RecordHashable(loc', rule', app', decision', trace');
    Injective(BuildDecisionRecord(loc, rule, app, decision, trace),
        BuildDecisionRecord(loc', rule', app', decision', trace'));
    RecordKeysDistinct();
    LiteralExact(RECORD_KEYS, RecordValues(loc, rule, app, decision, trace),
        RecordValues(loc', rule', app', decision', trace'));
    RecordValuesExact(loc, rule, app, decision, trace, loc', rule', app', decision', trace');
  }
}

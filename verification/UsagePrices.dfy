/** What AI calls are charged, against the price list in plain numbers (src/lib/ai-quota.ts). */
module UsagePrices {
  import opened Outcomes
  import opened UsageLedger

  /** Cents for a million prompt tokens and for a million completion tokens; models not listed cost like gpt-4o-mini. */
  predicate Listed(model: string, prompt: nat, completion: nat) {
    || (model == "gpt-4o-mini" && prompt == 15 && completion == 60)
    || (model == "gpt-4o" && prompt == 250 && completion == 1000)
    || (model == "gpt-4" && prompt == 3000 && completion == 6000)
    || (model == "claude-3-5-sonnet" && prompt == 300 && completion == 1500)
    || (model == "claude-3-haiku" && prompt == 25 && completion == 125)
    || (model !in {"gpt-4o-mini", "gpt-4o", "gpt-4", "claude-3-5-sonnet", "claude-3-haiku"}
        && prompt == 15 && completion == 60)
  }

  lemma ListedIsPrice(model: string, prompt: nat, completion: nat)
    ensures Listed(model, prompt, completion) <==> Price(model) == (prompt, completion)
  {
  }

  /** The charge is the least number of cents that covers the listed price. */
  lemma CostIsLeast(model: string, a: nat, b: nat, prompt: nat, completion: nat)
    requires Listed(model, a, b)
    ensures var n := EstimateCostCents(model, prompt, completion);
            && n * 1_000_000 >= a * prompt + b * completion
            && (n > 0 ==> (n - 1) * 1_000_000 < a * prompt + b * completion)
  {
    ListedIsPrice(model, a, b);
    assert ExactPrice(model, prompt, completion) == a * prompt + b * completion;
  }

  lemma EveryModelHasAPrice(model: string) returns (a: nat, b: nat)
    ensures Listed(model, a, b)
    ensures forall c: nat, d: nat :: Listed(model, c, d) ==> (c, d) == (a, b)
  {
    a, b := Price(model).0, Price(model).1;
    ListedIsPrice(model, a, b);
    forall c: nat, d: nat | Listed(model, c, d) ensures (c, d) == (a, b) {
      ListedIsPrice(model, c, d);
    }
  }

  // ---------------------------------------------------------------- rounding in the large

  /** What the listed prices make of a row, in millionths of a cent. */
  ghost function Due(r: Row): (x: nat)
    ensures exists a: nat, b: nat :: Listed(r.model, a, b) && x == a * r.promptTokens + b * r.completionTokens
  {
    var (a, b) := Price(r.model);
    ListedIsPrice(r.model, a, b);
    a * r.promptTokens + b * r.completionTokens
  }

  ghost function TotalDue(rows: seq<Row>): nat { if rows == [] then 0 else Due(rows[0]) + TotalDue(rows[1..]) }

  function TotalCents(rows: seq<Row>): nat { if rows == [] then 0 else rows[0].costCents + TotalCents(rows[1..]) }

  /** The rows with tokens. */
  function TokenRows(rows: seq<Row>): nat {
    if rows == [] then 0
    else (if rows[0].promptTokens > 0 || rows[0].completionTokens > 0 then 1 else 0) + TokenRows(rows[1..])
  }

  lemma RowRounding(r: Row)
    requires r.costCents == EstimateCostCents(r.model, r.promptTokens, r.completionTokens)
    ensures Due(r) <= r.costCents * 1_000_000 <= Due(r) + 999_999
    ensures r.promptTokens == r.completionTokens == 0 ==> r.costCents == 0 == Due(r)
  {
    var (a, b) := Price(r.model);
    ListedIsPrice(r.model, a, b);
    CostIsLeast(r.model, a, b, r.promptTokens, r.completionTokens);
  }

  /** The charged cents cover the listed prices and exceed them by less than one cent per row with tokens. */
  lemma {:induction false} TotalWithinRounding(rows: seq<Row>)
    requires Priced(rows)
    ensures TotalDue(rows) <= TotalCents(rows) * 1_000_000 <= TotalDue(rows) + TokenRows(rows) * 999_999
  {
    if rows != [] {
      RowRounding(rows[0]);
      TotalWithinRounding(rows[1..]);
    }
  }

  /** So in every run from an empty table. */
  lemma RunWithinRounding(ops: seq<Op>, calendar: int -> int)
    ensures var rows := Run([], ops, calendar);
            TotalDue(rows) <= TotalCents(rows) * 1_000_000 <= TotalDue(rows) + TokenRows(rows) * 999_999
  {
    RunIsConsistent([], ops, calendar);
    TotalWithinRounding(Run([], ops, calendar));
  }
}

/**
 * The AI usage table (src/lib/ai-quota.ts): one row per request id, written by a placeholder and a
 * token-bearing back-fill in either order. Times are milliseconds; a period is a UTC month, numbered
 * in order by a calendar given as a parameter.
 */
module UsageLedger {
  import opened Outcomes

  datatype Status = Success | QuotaExhausted | RateLimited | Banned | ApiError | BlockedUnsafe

  predicate Billable(s: Status) { s == Success || s == ApiError }

  /** A row. A request id is a non-empty string. */
  datatype Row = Row(
    requestId: Option<string>, userId: string, period: int, model: string,
    promptTokens: nat, completionTokens: nat, costCents: nat,
    usedByok: bool, status: Status, createdAt: int)

  datatype Params = Params(
    requestId: Option<string>, userId: string, model: string,
    promptTokens: nat, completionTokens: nat, usedByok: bool, status: Status)

  // ---------------------------------------------------------------- prices

  /** Cents per million prompt and completion tokens; unknown models cost like gpt-4o-mini. */
  function Price(model: string): (nat, nat) {
    if model == "gpt-4o" then (250, 1000)
    else if model == "gpt-4" then (3000, 6000)
    else if model == "claude-3-5-sonnet" then (300, 1500)
    else if model == "claude-3-haiku" then (25, 125)
    else (15, 60)
  }

  const MILLION := 1_000_000

  /** The exact price in millionths of a cent. */
  function ExactPrice(model: string, prompt: nat, completion: nat): nat {
    prompt * Price(model).0 + completion * Price(model).1
  }

  /** Rounded up to whole cents. */
  function EstimateCostCents(model: string, prompt: nat, completion: nat): nat {
    (ExactPrice(model, prompt, completion) + MILLION - 1) / MILLION
  }

  // ---------------------------------------------------------------- recording

  predicate HasTokens(p: Params) { p.promptTokens > 0 || p.completionTokens > 0 }

  function NewRow(p: Params, now: int, calendar: int -> int): Row {
    Row(p.requestId, p.userId, calendar(now), p.model, p.promptTokens, p.completionTokens,
        EstimateCostCents(p.model, p.promptTokens, p.completionTokens), p.usedByok, p.status, now)
  }

  /** What the conflict clause overwrites: tokens, cost and model, and only if this call carries tokens. */
  function Filled(r: Row, p: Params): Row {
    if HasTokens(p)
    then r.(promptTokens := p.promptTokens, completionTokens := p.completionTokens, model := p.model,
            costCents := EstimateCostCents(p.model, p.promptTokens, p.completionTokens))
    else r
  }

  function IndexOf(rows: seq<Row>, id: string): (r: Option<nat>)
    ensures r.Some? ==> r.value < |rows| && rows[r.value].requestId == Some(id)
    ensures r.None? ==> forall i :: 0 <= i < |rows| ==> rows[i].requestId != Some(id)
  {
    if rows == [] then None
    else if rows[0].requestId == Some(id) then Some(0)
    else
      var later := IndexOf(rows[1..], id);
      assert rows == [rows[0]] + rows[1..];
      if later.Some? then Some(later.value + 1) else None
  }

  function Recorded(rows: seq<Row>, p: Params, now: int, calendar: int -> int): seq<Row> {
    if p.requestId.Some? && IndexOf(rows, p.requestId.value).Some? then
      var i := IndexOf(rows, p.requestId.value).value;
      rows[i := Filled(rows[i], p)]
    else rows + [NewRow(p, now, calendar)]
  }

  function Failed(r: Row, id: string): Row { if r.requestId == Some(id) then r.(status := ApiError) else r }

  function MarkedFailed(rows: seq<Row>, id: string): (r: seq<Row>)
    ensures |r| == |rows| && forall i :: 0 <= i < |rows| ==> r[i] == Failed(rows[i], id)
  {
    seq(|rows|, i requires 0 <= i < |rows| => Failed(rows[i], id))
  }

  // ---------------------------------------------------------------- the table

  class UsageTable {
    const calendar: int -> int
    var rows: seq<Row>

    constructor (calendar: int -> int)
      ensures this.calendar == calendar && rows == []
    {
      this.calendar := calendar;
      rows := [];
    }

    method RecordAiUsage(p: Params, now: int)
      modifies this
      ensures rows == Recorded(old(rows), p, now, calendar)
    {
      var cost := EstimateCostCents(p.model, p.promptTokens, p.completionTokens);
      var hasTokens := p.promptTokens > 0 || p.completionTokens > 0;
      var values := Row(p.requestId, p.userId, calendar(now), p.model, p.promptTokens, p.completionTokens,
                        cost, p.usedByok, p.status, now);
      if p.requestId.Some? {
        var conflict := IndexOf(rows, p.requestId.value);
        if conflict.Some? {
          var row := rows[conflict.value];
          rows := rows[conflict.value := row.(
            promptTokens := if hasTokens then values.promptTokens else row.promptTokens,
            completionTokens := if hasTokens then values.completionTokens else row.completionTokens,
            costCents := if hasTokens then values.costCents else row.costCents,
            model := if hasTokens then values.model else row.model)];
          return;
        }
      }
      rows := rows + [values];
    }

    method MarkAiUsageFailed(id: string)
      modifies this
      ensures rows == MarkedFailed(old(rows), id)
    {
      for i := 0 to |rows|
        invariant |rows| == |old(rows)|
        invariant forall k :: 0 <= k < |rows| ==> rows[k] == if k < i then Failed(old(rows)[k], id) else old(rows)[k]
      {
        if rows[i].requestId == Some(id) {
          rows := rows[i := rows[i].(status := ApiError)];
        }
      }
    }
  }

  // ---------------------------------------------------------------- runs

  datatype Op = Record(params: Params, now: int) | MarkFailed(id: string)

  function Apply(rows: seq<Row>, op: Op, calendar: int -> int): seq<Row> {
    match op
    case Record(p, now) => Recorded(rows, p, now, calendar)
    case MarkFailed(id) => MarkedFailed(rows, id)
  }

  function Run(rows: seq<Row>, ops: seq<Op>, calendar: int -> int): seq<Row>
    decreases |ops|
  {
    if ops == [] then rows else Run(Apply(rows, ops[0], calendar), ops[1..], calendar)
  }

  /** The unique index on request ids. */
  ghost predicate UniqueIds(rows: seq<Row>) {
    forall i, j :: 0 <= i < j < |rows| && rows[i].requestId.Some? ==> rows[i].requestId != rows[j].requestId
  }

  ghost predicate Priced(rows: seq<Row>) {
    forall i :: 0 <= i < |rows| ==>
      rows[i].costCents == EstimateCostCents(rows[i].model, rows[i].promptTokens, rows[i].completionTokens)
  }

  lemma ApplyKeeps(rows: seq<Row>, op: Op, calendar: int -> int)
    ensures UniqueIds(rows) ==> UniqueIds(Apply(rows, op, calendar))
    ensures Priced(rows) ==> Priced(Apply(rows, op, calendar))
  {
  }

  /** What a row never loses: who made the call, when, its period and key, and a status of `api_error`. */
  predicate Continues(r: Row, r': Row) {
    && r'.requestId == r.requestId && r'.userId == r.userId && r'.period == r.period
    && r'.usedByok == r.usedByok && r'.createdAt == r.createdAt
    && (r'.status == r.status || r'.status == ApiError)
  }

  lemma {:induction false} RunContinues(rows: seq<Row>, ops: seq<Op>, calendar: int -> int)
    ensures |rows| <= |Run(rows, ops, calendar)|
    ensures forall i :: 0 <= i < |rows| ==> Continues(rows[i], Run(rows, ops, calendar)[i])
    decreases |ops|
  {
    if ops != [] {
      var next := Apply(rows, ops[0], calendar);
      assert |rows| <= |next| && forall i :: 0 <= i < |rows| ==> Continues(rows[i], next[i]);
      RunContinues(next, ops[1..], calendar);
    }
  }

  /** In every run the costs match the tokens, ids stay unique, and a row marked failed stays failed. */
  lemma {:induction false} RunIsConsistent(rows: seq<Row>, ops: seq<Op>, calendar: int -> int)
    requires UniqueIds(rows) && Priced(rows)
    ensures UniqueIds(Run(rows, ops, calendar)) && Priced(Run(rows, ops, calendar))
    ensures |rows| <= |Run(rows, ops, calendar)|
    ensures forall i :: 0 <= i < |rows| && rows[i].status == ApiError ==> Run(rows, ops, calendar)[i].status == ApiError
    decreases |ops|
  {
    RunContinues(rows, ops, calendar);
    if ops != [] {
      ApplyKeeps(rows, ops[0], calendar);
      RunIsConsistent(Apply(rows, ops[0], calendar), ops[1..], calendar);
    }
  }

  // ---------------------------------------------------------------- convergence

  /** The token-bearing part of a row. */
  datatype Tokens = Tokens(model: string, prompt: nat, completion: nat)

  function TokensOf(r: Row): Tokens { Tokens(r.model, r.promptTokens, r.completionTokens) }

  /** `op` records tokens for request `id`. */
  predicate Bears(op: Op, id: string) { op.Record? && op.params.requestId == Some(id) && HasTokens(op.params) }

  predicate Mentions(op: Op, id: string) { op.Record? && op.params.requestId == Some(id) }

  ghost predicate AgreeOn(ops: seq<Op>, id: string, t: Tokens) {
    forall i :: 0 <= i < |ops| && Bears(ops[i], id) ==>
      t == Tokens(ops[i].params.model, ops[i].params.promptTokens, ops[i].params.completionTokens)
  }

  ghost predicate EverRecorded(ops: seq<Op>, id: string) { exists i :: 0 <= i < |ops| && Mentions(ops[i], id) }

  ghost predicate EverFilled(ops: seq<Op>, id: string) { exists i :: 0 <= i < |ops| && Bears(ops[i], id) }

  /** The rows of one request. */
  function RowsOf(rows: seq<Row>, id: string): seq<Row> {
    if rows == [] then []
    else if rows[0].requestId == Some(id) then [rows[0]] + RowsOf(rows[1..], id)
    else RowsOf(rows[1..], id)
  }

  lemma {:induction false} RowsOfUnique(rows: seq<Row>, id: string)
    requires UniqueIds(rows)
    ensures RowsOf(rows, id) == if IndexOf(rows, id).Some? then [rows[IndexOf(rows, id).value]] else []
  {
    if rows != [] {
      RowsOfUnique(rows[1..], id);
      if rows[0].requestId == Some(id) {
        assert IndexOf(rows[1..], id).None?;
      }
    }
  }

  lemma IndexUnique(rows: seq<Row>, id: string, i: nat)
    requires UniqueIds(rows) && i < |rows| && rows[i].requestId == Some(id)
    ensures IndexOf(rows, id) == Some(i)
  {
  }

  /** One step: a token-bearing record fixes the row's tokens, anything else leaves an existing row's alone. */
  lemma StepTokens(rows: seq<Row>, op: Op, calendar: int -> int, id: string)
    requires UniqueIds(rows)
    ensures var next := Apply(rows, op, calendar);
            && (Mentions(op, id) || IndexOf(rows, id).Some? <==> IndexOf(next, id).Some?)
            && (Bears(op, id) ==>
                  TokensOf(next[IndexOf(next, id).value])
                      == Tokens(op.params.model, op.params.promptTokens, op.params.completionTokens))
            && (!Bears(op, id) && IndexOf(rows, id).Some? ==>
                  TokensOf(next[IndexOf(next, id).value]) == TokensOf(rows[IndexOf(rows, id).value]))
  {
    var next := Apply(rows, op, calendar);
    ApplyKeeps(rows, op, calendar);
    if IndexOf(rows, id).Some? {
      IndexUnique(next, id, IndexOf(rows, id).value);
    } else if Mentions(op, id) {
      IndexUnique(next, id, |rows|);
    }
  }

  /**
   * However the records of one request are ordered or repeated, and whatever happens to other requests
   * in between: once a token-bearing record has arrived, the request's one row holds its tokens.
   */
  lemma {:induction false} TokensConverge(rows: seq<Row>, ops: seq<Op>, calendar: int -> int, id: string, t: Tokens,
      seen: bool)
    requires UniqueIds(rows) && AgreeOn(ops, id, t)
    requires seen ==> IndexOf(rows, id).Some? && TokensOf(rows[IndexOf(rows, id).value]) == t
    ensures var end := Run(rows, ops, calendar);
            seen || EverFilled(ops, id) ==>
              IndexOf(end, id).Some? && TokensOf(end[IndexOf(end, id).value]) == t
    decreases |ops|
  {
    if ops != [] {
      StepTokens(rows, ops[0], calendar, id);
      ApplyKeeps(rows, ops[0], calendar);
      TokensConverge(Apply(rows, ops[0], calendar), ops[1..], calendar, id, t, seen || Bears(ops[0], id));
      assert ops == [ops[0]] + ops[1..];
    }
  }

  lemma StepExists(rows: seq<Row>, op: Op, calendar: int -> int, id: string)
    requires UniqueIds(rows)
    ensures UniqueIds(Apply(rows, op, calendar))
    ensures IndexOf(Apply(rows, op, calendar), id).Some? <==> IndexOf(rows, id).Some? || Mentions(op, id)
  {
    StepTokens(rows, op, calendar, id);
    ApplyKeeps(rows, op, calendar);
  }

  lemma EverRecordedCons(ops: seq<Op>, id: string)
    requires ops != []
    ensures EverRecorded(ops, id) <==> Mentions(ops[0], id) || EverRecorded(ops[1..], id)
  {
    if EverRecorded(ops, id) && !Mentions(ops[0], id) {
      var i :| 0 <= i < |ops| && Mentions(ops[i], id);
      assert ops[1..][i - 1] == ops[i];
    }
  }

  lemma {:induction false} RowExists(rows: seq<Row>, ops: seq<Op>, calendar: int -> int, id: string)
    requires UniqueIds(rows)
    ensures IndexOf(Run(rows, ops, calendar), id).Some? <==> IndexOf(rows, id).Some? || EverRecorded(ops, id)
    decreases |ops|
  {
    if ops != [] {
      var next := Apply(rows, ops[0], calendar);
      StepExists(rows, ops[0], calendar, id);
      RowExists(next, ops[1..], calendar, id);
      EverRecordedCons(ops, id);
    }
  }

  /**
   * From an empty table: a request that was recorded has exactly one row; if its token-bearing records
   * agree and there is one, the row holds their tokens and the matching cost.
   */
  lemma UpsertConverges(ops: seq<Op>, calendar: int -> int, id: string, t: Tokens)
    requires AgreeOn(ops, id, t)
    ensures var mine := RowsOf(Run([], ops, calendar), id);
            && |mine| == (if EverRecorded(ops, id) then 1 else 0)
            && (EverFilled(ops, id) ==>
                  |mine| == 1 && TokensOf(mine[0]) == t
                  && mine[0].costCents == EstimateCostCents(t.model, t.prompt, t.completion))
  {
    RunIsConsistent([], ops, calendar);
    RowsOfUnique(Run([], ops, calendar), id);
    RowExists([], ops, calendar, id);
    TokensConverge([], ops, calendar, id, t, false);
  }

  /** Rearranging and repeating the operations leaves the request's tokens and cost as they are. */
  lemma OrderDoesNotMatter(ops: seq<Op>, ops': seq<Op>, calendar: int -> int, id: string, t: Tokens)
    requires (forall op :: op in ops <==> op in ops') && AgreeOn(ops, id, t)
    requires EverFilled(ops, id)
    ensures |RowsOf(Run([], ops, calendar), id)| == 1 == |RowsOf(Run([], ops', calendar), id)|
    ensures TokensOf(RowsOf(Run([], ops, calendar), id)[0]) == TokensOf(RowsOf(Run([], ops', calendar), id)[0])
    ensures RowsOf(Run([], ops, calendar), id)[0].costCents == RowsOf(Run([], ops', calendar), id)[0].costCents
  {
    forall j | 0 <= j < |ops'| && Bears(ops'[j], id)
      ensures t == Tokens(ops'[j].params.model, ops'[j].params.promptTokens, ops'[j].params.completionTokens)
    {
      assert ops'[j] in ops;
    }
    var i :| 0 <= i < |ops| && Bears(ops[i], id);
    assert ops[i] in ops';
    var j :| 0 <= j < |ops'| && ops'[j] == ops[i];
    UpsertConverges(ops, calendar, id, t);
    UpsertConverges(ops', calendar, id, t);
  }

  // ---------------------------------------------------------------- status, which order decides

  lemma {:induction false} RunConcat(rows: seq<Row>, ops: seq<Op>, more: seq<Op>, calendar: int -> int)
    ensures Run(rows, ops + more, calendar) == Run(Run(rows, ops, calendar), more, calendar)
    decreases |ops|
  {
    if ops == [] {
      assert [] + more == more;
    } else {
      assert (ops + more)[1..] == ops[1..] + more;
      RunConcat(Apply(rows, ops[0], calendar), ops[1..], more, calendar);
    }
  }

  /** One step on an existing row: only marking this request changes its status. */
  lemma StepStatus(rows: seq<Row>, op: Op, calendar: int -> int, i: nat, id: string)
    requires i < |rows| && rows[i].requestId == Some(id)
    ensures i < |Apply(rows, op, calendar)| && Apply(rows, op, calendar)[i].requestId == Some(id)
    ensures Apply(rows, op, calendar)[i].status == if op == MarkFailed(id) then ApiError else rows[i].status
  {
  }

  lemma {:induction false} StatusStays(rows: seq<Row>, ops: seq<Op>, calendar: int -> int, i: nat, id: string)
    requires i < |rows| && rows[i].requestId == Some(id)
    ensures i < |Run(rows, ops, calendar)| && Run(rows, ops, calendar)[i].requestId == Some(id)
    ensures Run(rows, ops, calendar)[i].status == if MarkFailed(id) in ops then ApiError else rows[i].status
    decreases |ops|
  {
    if ops != [] {
      StepStatus(rows, ops[0], calendar, i, id);
      StatusStays(Apply(rows, ops[0], calendar), ops[1..], calendar, i, id);
      assert ops == [ops[0]] + ops[1..];
    }
  }

  lemma SplitAround(ops: seq<Op>, first: nat)
    requires first < |ops|
    ensures ops == ops[..first] + ([ops[first]] + ops[first + 1..])
    ensures ([ops[first]] + ops[first + 1..])[1..] == ops[first + 1..]
  {
  }

  /** The row made by the first record, at the end of the run. */
  lemma FirstRecordMakesRow(ops: seq<Op>, calendar: int -> int, id: string, first: nat) returns (i: nat)
    requires first < |ops| && Mentions(ops[first], id) && !EverRecorded(ops[..first], id)
    ensures var end := Run([], ops, calendar);
            && i < |end| && end[i].requestId == Some(id)
            && end[i].status == if MarkFailed(id) in ops[first + 1..] then ApiError else ops[first].params.status
  {
    var rows := Run([], ops[..first], calendar);
    RunIsConsistent([], ops[..first], calendar);
    RowExists([], ops[..first], calendar, id);
    i := |rows|;
    StatusStays(Apply(rows, ops[first], calendar), ops[first + 1..], calendar, i, id);
    SplitAround(ops, first);
    RunConcat([], ops[..first], [ops[first]] + ops[first + 1..], calendar);
  }

  /**
   * The status a request ends with: that of its first record, unless it is marked failed after that record.
   * A mark that comes before the first record is lost.
   */
  lemma StatusExactly(ops: seq<Op>, calendar: int -> int, id: string, first: nat)
    requires first < |ops| && Mentions(ops[first], id) && !EverRecorded(ops[..first], id)
    ensures var mine := RowsOf(Run([], ops, calendar), id);
            && |mine| == 1
            && mine[0].status == (if MarkFailed(id) in ops[first + 1..] then ApiError else ops[first].params.status)
  {
    var end := Run([], ops, calendar);
    var i := FirstRecordMakesRow(ops, calendar, id, first);
    RunIsConsistent([], ops, calendar);
    RowsOfUnique(end, id);
    IndexUnique(end, id, i);
  }

  /** A request reads as failed exactly when its first record said so or a mark came after that record. */
  lemma FailedExactly(ops: seq<Op>, calendar: int -> int, id: string, first: nat)
    requires first < |ops| && Mentions(ops[first], id) && !EverRecorded(ops[..first], id)
    ensures var mine := RowsOf(Run([], ops, calendar), id);
            && |mine| == 1
            && (mine[0].status == ApiError
                <==> ops[first].params.status == ApiError || MarkFailed(id) in ops[first + 1..])
  {
    StatusExactly(ops, calendar, id, first);
  }

  /** Every recorded request has such a first record. */
  lemma {:induction false} FirstRecord(ops: seq<Op>, id: string) returns (first: nat)
    requires EverRecorded(ops, id)
    ensures first < |ops| && Mentions(ops[first], id) && !EverRecorded(ops[..first], id)
    decreases |ops|
  {
    if Mentions(ops[0], id) {
      first := 0;
    } else {
      EverRecordedCons(ops, id);
      var later := FirstRecord(ops[1..], id);
      first := later + 1;
      assert ops[..first][1..] == ops[1..][..later] && ops[..first][0] == ops[0];
      EverRecordedCons(ops[..first], id);
    }
  }

  // ---------------------------------------------------------------- tokens without agreement

  lemma {:induction false} TokensStay(rows: seq<Row>, ops: seq<Op>, calendar: int -> int, id: string)
    requires UniqueIds(rows) && IndexOf(rows, id).Some? && !EverFilled(ops, id)
    ensures var end := Run(rows, ops, calendar);
            IndexOf(end, id).Some? && TokensOf(end[IndexOf(end, id).value]) == TokensOf(rows[IndexOf(rows, id).value])
    decreases |ops|
  {
    if ops != [] {
      FilledLater(ops, id, 1);
      StepTokens(rows, ops[0], calendar, id);
      ApplyKeeps(rows, ops[0], calendar);
      TokensStay(Apply(rows, ops[0], calendar), ops[1..], calendar, id);
    }
  }

  function TokensIn(op: Op): Tokens
    requires op.Record?
  {
    Tokens(op.params.model, op.params.promptTokens, op.params.completionTokens)
  }

  lemma RunFrom(ops: seq<Op>, calendar: int -> int, n: nat)
    requires n < |ops|
    ensures Run([], ops, calendar) == Run(Apply(Run([], ops[..n], calendar), ops[n], calendar), ops[n + 1..], calendar)
  {
    SplitAround(ops, n);
    RunConcat([], ops[..n], [ops[n]] + ops[n + 1..], calendar);
  }

  /** The row of a request, and that there is no other. */
  lemma OneRow(ops: seq<Op>, calendar: int -> int, id: string)
    requires IndexOf(Run([], ops, calendar), id).Some?
    ensures var end := Run([], ops, calendar);
            && RowsOf(end, id) == [end[IndexOf(end, id).value]]
            && var r := end[IndexOf(end, id).value];
               r.costCents == EstimateCostCents(r.model, r.promptTokens, r.completionTokens)
  {
    RunIsConsistent([], ops, calendar);
    RowsOfUnique(Run([], ops, calendar), id);
  }

  lemma TokensSettleAt(ops: seq<Op>, calendar: int -> int, id: string, n: nat)
    requires n < |ops| && !EverFilled(ops[n + 1..], id)
    requires Bears(ops[n], id) || (Mentions(ops[n], id) && !EverRecorded(ops[..n], id))
    ensures var end := Run([], ops, calendar);
            IndexOf(end, id).Some? && TokensOf(end[IndexOf(end, id).value]) == TokensIn(ops[n])
  {
    var rows := Run([], ops[..n], calendar);
    RunIsConsistent([], ops[..n], calendar);
    RowExists([], ops[..n], calendar, id);
    StepTokens(rows, ops[n], calendar, id);
    ApplyKeeps(rows, ops[n], calendar);
    if !Bears(ops[n], id) {
      var next := Apply(rows, ops[n], calendar);
      assert next == rows + [NewRow(ops[n].params, ops[n].now, calendar)];
      IndexUnique(next, id, |rows|);
    }
    TokensStay(Apply(rows, ops[n], calendar), ops[n + 1..], calendar, id);
    RunFrom(ops, calendar, n);
  }

  /**
   * Agreeing or not: the request's one row ends with the model, tokens and cost of its last token-bearing
   * record, and with those of its first record if none bears tokens.
   */
  lemma TokensExactly(ops: seq<Op>, calendar: int -> int, id: string, n: nat)
    requires n < |ops| && !EverFilled(ops[n + 1..], id)
    requires Bears(ops[n], id)
             || (Mentions(ops[n], id) && !EverRecorded(ops[..n], id))
    ensures var mine := RowsOf(Run([], ops, calendar), id);
            && |mine| == 1 && TokensOf(mine[0]) == TokensIn(ops[n])
            && mine[0].costCents == EstimateCostCents(mine[0].model, mine[0].promptTokens, mine[0].completionTokens)
  {
    TokensSettleAt(ops, calendar, id, n);
    OneRow(ops, calendar, id);
  }

  /** Every recorded request has a record that settles its tokens so. */
  lemma SettlingRecord(ops: seq<Op>, id: string) returns (n: nat)
    requires EverRecorded(ops, id)
    ensures n < |ops| && !EverFilled(ops[n + 1..], id)
    ensures Bears(ops[n], id) || (Mentions(ops[n], id) && !EverRecorded(ops[..n], id))
  {
    if EverFilled(ops, id) {
      n := LastFill(ops, id);
    } else {
      n := FirstRecord(ops, id);
      FilledLater(ops, id, n + 1);
    }
  }

  lemma FilledLater(ops: seq<Op>, id: string, n: nat)
    requires n <= |ops|
    ensures EverFilled(ops[n..], id) ==> EverFilled(ops, id)
  {
    if EverFilled(ops[n..], id) {
      var j :| 0 <= j < |ops[n..]| && Bears(ops[n..][j], id);
      assert Bears(ops[n + j], id);
    }
  }

  lemma FilledSnoc(ops: seq<Op>, op: Op, id: string)
    ensures EverFilled(ops + [op], id) ==> EverFilled(ops, id) || Bears(op, id)
  {
    if EverFilled(ops + [op], id) {
      var j :| 0 <= j < |ops + [op]| && Bears((ops + [op])[j], id);
      assert j < |ops| ==> Bears(ops[j], id);
    }
  }

  lemma {:induction false} LastFill(ops: seq<Op>, id: string) returns (n: nat)
    requires EverFilled(ops, id)
    ensures n < |ops| && Bears(ops[n], id) && !EverFilled(ops[n + 1..], id)
    decreases |ops|
  {
    var m := |ops| - 1;
    if Bears(ops[m], id) {
      n := m;
    } else {
      var i :| 0 <= i < |ops| && Bears(ops[i], id);
      assert ops[..m][i] == ops[i];
      n := LastFill(ops[..m], id);
      assert ops[n + 1..] == ops[..m][n + 1..] + [ops[m]];
      FilledSnoc(ops[..m][n + 1..], ops[m], id);
    }
  }

  // ---------------------------------------------------------------- who, when and how many

  /** The columns a record writes once, when it makes the row. */
  predicate MadeBy(r: Row, op: Op, calendar: int -> int)
    requires op.Record?
  {
    && r.requestId == op.params.requestId && r.userId == op.params.userId
    && r.usedByok == op.params.usedByok && r.createdAt == op.now && r.period == calendar(op.now)
  }

  /** Without a row for its request a record adds one at the end, with all its columns. */
  lemma RecordAddsRow(rows: seq<Row>, op: Op, calendar: int -> int)
    requires op.Record?
    requires op.params.requestId.None? || forall i :: 0 <= i < |rows| ==> rows[i].requestId != op.params.requestId
    ensures var next := Apply(rows, op, calendar);
            && |next| == |rows| + 1 && next[..|rows|] == rows
            && var r, p := next[|rows|], op.params;
               MadeBy(r, op, calendar) && r.status == p.status && r.model == p.model
               && r.promptTokens == p.promptTokens && r.completionTokens == p.completionTokens
               && r.costCents == EstimateCostCents(p.model, p.promptTokens, p.completionTokens)
  {
  }

  /** With a row for its request a record changes that row alone, and only if it carries tokens. */
  lemma RecordFillsRow(rows: seq<Row>, op: Op, calendar: int -> int, i: nat)
    requires UniqueIds(rows) && op.Record? && op.params.requestId.Some?
    requires i < |rows| && rows[i].requestId == op.params.requestId
    ensures var next, p := Apply(rows, op, calendar), op.params;
            && |next| == |rows| && (forall j :: 0 <= j < |rows| && j != i ==> next[j] == rows[j])
            && next[i] == if p.promptTokens == 0 && p.completionTokens == 0 then rows[i]
               else rows[i].(model := p.model, promptTokens := p.promptTokens, completionTokens := p.completionTokens,
                             costCents := EstimateCostCents(p.model, p.promptTokens, p.completionTokens))
  {
    IndexUnique(rows, op.params.requestId.value, i);
  }

  /** A request's row belongs to the user, key, moment and month of its first record. */
  lemma OriginExactly(ops: seq<Op>, calendar: int -> int, id: string, first: nat)
    requires first < |ops| && Mentions(ops[first], id) && !EverRecorded(ops[..first], id)
    ensures var mine := RowsOf(Run([], ops, calendar), id);
            |mine| == 1 && MadeBy(mine[0], ops[first], calendar)
  {
    var rows, end := Run([], ops[..first], calendar), Run([], ops, calendar);
    RunIsConsistent([], ops[..first], calendar);
    RowExists([], ops[..first], calendar, id);
    var next := Apply(rows, ops[first], calendar);
    assert MadeBy(next[|rows|], ops[first], calendar);
    RunContinues(next, ops[first + 1..], calendar);
    RunFrom(ops, calendar, first);
    RunIsConsistent([], ops, calendar);
    IndexUnique(end, id, |rows|);
    RowsOfUnique(end, id);
  }

  /** How many records come without a request id. */
  function Anonymous(ops: seq<Op>): nat {
    if ops == [] then 0
    else (if ops[0].Record? && ops[0].params.requestId.None? then 1 else 0) + Anonymous(ops[1..])
  }

  /** The request an operation records. */
  function Recording(op: Op): Option<string> { if op.Record? then op.params.requestId else None }

  ghost function RecordedIds(ops: seq<Op>): set<string> {
    set op | op in ops && Recording(op).Some? :: Recording(op).value
  }

  function AsSet<T>(x: Option<T>): set<T> { if x.Some? then {x.value} else {} }

  ghost function IdsOf(rows: seq<Row>): set<string> {
    set r | r in rows && r.requestId.Some? :: r.requestId.value
  }

  lemma IndexTellsIds(rows: seq<Row>, id: string)
    ensures IndexOf(rows, id).Some? <==> id in IdsOf(rows)
  {
    if IndexOf(rows, id).Some? {
      assert rows[IndexOf(rows, id).value] in rows;
    }
  }

  lemma RecordedIdsCons(op: Op, ops: seq<Op>)
    ensures RecordedIds([op] + ops) == AsSet(Recording(op)) + RecordedIds(ops)
  {
  }

  /** What one operation does to the table's size and ids. */
  lemma StepCounts(rows: seq<Row>, op: Op, calendar: int -> int)
    ensures IdsOf(Apply(rows, op, calendar)) == IdsOf(rows) + AsSet(Recording(op))
    ensures |Apply(rows, op, calendar)| == |rows| + Anonymous([op]) + |AsSet(Recording(op)) - IdsOf(rows)|
  {
    var id, ids := Recording(op), IdsOf(rows);
    assert Anonymous([op]) == if op.Record? && id.None? then 1 else 0;
    if op.MarkFailed? {
      SameIds(rows, Apply(rows, op, calendar));
      assert AsSet(id) - ids == {};
    } else if id.Some? && id.value in ids {
      IndexTellsIds(rows, id.value);
      SameIds(rows, Apply(rows, op, calendar));
      assert AsSet(id) - ids == {};
    } else {
      if id.Some? { IndexTellsIds(rows, id.value); }
      IdsSnoc(rows, NewRow(op.params, op.now, calendar));
      assert AsSet(id) - ids == AsSet(id);
    }
  }

  lemma IdsSnoc(rows: seq<Row>, r: Row)
    ensures IdsOf(rows + [r]) == IdsOf(rows) + AsSet(r.requestId)
  {
    assert r in rows + [r];
  }

  lemma SameIds(rows: seq<Row>, next: seq<Row>)
    requires |rows| == |next| && forall i :: 0 <= i < |rows| ==> rows[i].requestId == next[i].requestId
    ensures IdsOf(rows) == IdsOf(next)
  {
    forall r | r in rows ensures exists q :: q in next && q.requestId == r.requestId {
      var i :| 0 <= i < |rows| && rows[i] == r;
      assert next[i] in next;
    }
    forall r | r in next ensures exists q :: q in rows && q.requestId == r.requestId {
      var i :| 0 <= i < |next| && next[i] == r;
      assert rows[i] in rows;
    }
  }

  lemma OneIdLess(recorded: set<string>, later: set<string>, ids: set<string>, id: Option<string>)
    requires recorded == AsSet(id) + later
    ensures |recorded - ids| == |AsSet(id) - ids| + |later - (ids + AsSet(id))|
  {
    assert recorded - ids == (AsSet(id) - ids) + (later - (ids + AsSet(id)));
  }

  /** Every recorded request id gets one row, every record without an id its own, and nothing else makes rows. */
  lemma {:induction false} RowCount(rows: seq<Row>, ops: seq<Op>, calendar: int -> int)
    ensures |Run(rows, ops, calendar)| == |rows| + Anonymous(ops) + |RecordedIds(ops) - IdsOf(rows)|
    decreases |ops|
  {
    if ops == [] {
      assert RecordedIds(ops) - IdsOf(rows) == {};
    } else {
      var op, later := ops[0], ops[1..];
      var next := Apply(rows, op, calendar);
      assert ops == [op] + later;
      StepCounts(rows, op, calendar);
      RowCount(next, later, calendar);
      RecordedIdsCons(op, later);
      OneIdLess(RecordedIds(ops), RecordedIds(later), IdsOf(rows), Recording(op));
    }
  }
}

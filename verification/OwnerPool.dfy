/**
 * The owners' shared quota pools (src/lib/api-quota-pool.ts). A call belongs to the pool of its quota
 * owner; rows from before that column existed belong to the caller's own pool.
 */
module OwnerPool {
  import opened Counting
  import opened Grouping
  import opened Outcomes

  datatype CallRecord = CallRecord(userId: string, quotaOwnerId: Option<string>, periodMonth: string, success: bool)

  /** coalesce(quotaOwnerId, userId): the key that rows are grouped by. */
  function QuotaOwnerKey(r: CallRecord): string { if r.quotaOwnerId.Some? then r.quotaOwnerId.value else r.userId }

  /** The condition on one owner, written as two indexable alternatives. */
  predicate OwnerPoolCondition(r: CallRecord, owner: string) {
    r.quotaOwnerId == Some(owner) || (r.quotaOwnerId.None? && r.userId == owner)
  }

  /** The condition on a list of owners. */
  predicate InPools(r: CallRecord, owners: seq<string>) {
    (r.quotaOwnerId.Some? && r.quotaOwnerId.value in owners) || (r.quotaOwnerId.None? && r.userId in owners)
  }

  predicate Counted(r: CallRecord, month: string) { r.periodMonth == month && r.success }

  function CountOwnerPoolUsage(rows: seq<CallRecord>, owner: string, month: string): nat {
    if rows == [] then 0
    else
      CountOwnerPoolUsage(rows[..|rows| - 1], owner, month)
      + if OwnerPoolCondition(rows[|rows| - 1], owner) && Counted(rows[|rows| - 1], month) then 1 else 0
  }

  /** A successful call of the month that its quota owner answers for, or its user if it names no owner. */
  function ChargedTo(owner: string, month: string): CallRecord -> bool {
    (r: CallRecord) => r.success && r.periodMonth == month
                       && owner == match r.quotaOwnerId { case Some(o) => o case None => r.userId }
  }

  /** A pool's usage is the number of calls charged to its owner. */
  lemma {:induction false} UsageExactly(rows: seq<CallRecord>, owner: string, month: string)
    ensures CountOwnerPoolUsage(rows, owner, month) == HowMany(ChargedTo(owner, month), rows)
  {
    if rows == [] {
      HowManyEmpty(ChargedTo(owner, month));
    } else {
      UsageExactly(rows[..|rows| - 1], owner, month);
      HowManyLast(ChargedTo(owner, month), rows);
    }
  }

  /** The pool keys of the rows that the batch query selects, one per row. */
  function SelectedKeys(rows: seq<CallRecord>, owners: seq<string>, month: string): multiset<string> {
    if rows == [] then multiset{}
    else
      SelectedKeys(rows[..|rows| - 1], owners, month)
      + if InPools(rows[|rows| - 1], owners) && Counted(rows[|rows| - 1], month)
        then multiset{QuotaOwnerKey(rows[|rows| - 1])} else multiset{}
  }

  /** The batch condition and the grouping key together select, per owner, what the single condition selects. */
  lemma {:induction false} GroupSizeIsPoolUsage(rows: seq<CallRecord>, owners: seq<string>, month: string,
      owner: string)
    ensures SelectedKeys(rows, owners, month)[owner]
            == if owner in owners then CountOwnerPoolUsage(rows, owner, month) else 0
  {
    if rows != [] { GroupSizeIsPoolUsage(rows[..|rows| - 1], owners, month, owner); }
  }

  /**
   * One query for a list of owners; `groups` is the database's answer. Every owner of the list, and no
   * other, gets exactly the count it would get alone.
   */
  method CountOwnerPoolUsageByOwner(owners: seq<string>, rows: seq<CallRecord>, month: string,
      groups: seq<(string, nat)>)
    returns (usage: map<string, nat>)
    requires IsGrouping(groups, SelectedKeys(rows, owners, month))
    ensures usage.Keys == set o | o in owners
    ensures forall o :: o in owners ==> usage[o] == CountOwnerPoolUsage(rows, o, month)
  {
    usage := map o | o in owners :: 0;
    ghost var keys := SelectedKeys(rows, owners, month);
    forall o ensures keys[o] == if o in owners then CountOwnerPoolUsage(rows, o, month) else 0 {
      GroupSizeIsPoolUsage(rows, owners, month, o);
    }
    if owners != [] {
      usage := SetCounts(usage, groups, keys);
    }
  }

  /** Writing each group's count over a map that starts at zero leaves the number of rows of every key. */
  method SetCounts<K(!new)>(zero: map<K, nat>, groups: seq<(K, nat)>, ghost keys: multiset<K>)
    returns (usage: map<K, nat>)
    requires IsGrouping(groups, keys)
    requires (forall k :: k in keys ==> k in zero) && (forall k :: k in zero ==> zero[k] == 0)
    ensures usage.Keys == zero.Keys
    ensures forall k :: k in usage ==> usage[k] == keys[k]
  {
    usage := zero;
    for i := 0 to |groups|
      invariant usage.Keys == zero.Keys
      invariant forall k :: k in usage ==> usage[k] == if Listed(groups[..i], k) then keys[k] else 0
    {
      assert groups[i].0 in keys;
      forall k ensures Listed(groups[..i + 1], k) <==> Listed(groups[..i], k) || k == groups[i].0 {
        ListedSnoc(groups[..i], groups[i], k);
        assert groups[..i + 1] == groups[..i] + [groups[i]];
      }
      usage := usage[groups[i].0 := groups[i].1];
    }
    assert groups[..|groups|] == groups;
  }

  // ---------------------------------------------------------------- the pools partition the month

  function CountMonth(rows: seq<CallRecord>, month: string): nat {
    if rows == [] then 0
    else CountMonth(rows[..|rows| - 1], month) + if Counted(rows[|rows| - 1], month) then 1 else 0
  }

  function SumOver(rows: seq<CallRecord>, owners: seq<string>, month: string): nat
    decreases |owners|
  {
    if owners == [] then 0 else CountOwnerPoolUsage(rows, owners[0], month) + SumOver(rows, owners[1..], month)
  }

  predicate NoRepeats(owners: seq<string>) { forall i, j :: 0 <= i < j < |owners| ==> owners[i] != owners[j] }

  /**
   * A counted call adds one to its own pool and nothing to any other, so one to the sum of pools that include
   * its own.
   */
  lemma {:induction false} CallAddsOne(rows: seq<CallRecord>, r: CallRecord, owners: seq<string>, month: string)
    requires NoRepeats(owners)
    ensures SumOver(rows + [r], owners, month)
            == SumOver(rows, owners, month) + if Counted(r, month) && QuotaOwnerKey(r) in owners then 1 else 0
    decreases |owners|
  {
    if owners != [] {
      assert (rows + [r])[..|rows|] == rows;
      assert owners == [owners[0]] + owners[1..];
      CallAddsOne(rows, r, owners[1..], month);
    }
  }

  lemma {:induction false} NoCallsNoUsage(owners: seq<string>, month: string)
    ensures SumOver([], owners, month) == 0
    decreases |owners|
  {
    if owners != [] { NoCallsNoUsage(owners[1..], month); }
  }

  /**
   * Over all owners, each taken once, the pools add up to the successful calls of the month: none is lost or
   * charged twice.
   */
  lemma {:induction false} PoolsPartitionTheMonth(rows: seq<CallRecord>, owners: seq<string>, month: string)
    requires NoRepeats(owners) && forall r :: r in rows && Counted(r, month) ==> QuotaOwnerKey(r) in owners
    ensures SumOver(rows, owners, month) == CountMonth(rows, month)
    decreases |rows|
  {
    if rows == [] {
      NoCallsNoUsage(owners, month);
    } else {
      var n := |rows| - 1;
      assert rows == rows[..n] + [rows[n]];
      CallAddsOne(rows[..n], rows[n], owners, month);
      PoolsPartitionTheMonth(rows[..n], owners, month);
    }
  }

  /** Repeating an owner in the batch changes nothing: the answer depends on the set of owners. */
  lemma BatchIgnoresRepeats(rows: seq<CallRecord>, owners: seq<string>, owners': seq<string>, month: string)
    requires forall o :: o in owners <==> o in owners'
    ensures SelectedKeys(rows, owners, month) == SelectedKeys(rows, owners', month)
  {
    forall o ensures SelectedKeys(rows, owners, month)[o] == SelectedKeys(rows, owners', month)[o] {
      GroupSizeIsPoolUsage(rows, owners, month, o);
      GroupSizeIsPoolUsage(rows, owners', month, o);
    }
  }

  class CallLog {
    var rows: seq<CallRecord>

    constructor ()
      ensures rows == []
    {
      rows := [];
    }

    /** Recording a call: it always names its quota owner, and only that owner's pool of that month grows. */
    method RecordApiCallRecord(userId: string, quotaOwnerId: string, month: string, success: bool)
      modifies this
      ensures rows == old(rows) + [CallRecord(userId, Some(quotaOwnerId), month, success)]
      ensures forall o, m :: CountOwnerPoolUsage(rows, o, m)
                == CountOwnerPoolUsage(old(rows), o, m) + if o == quotaOwnerId && m == month && success then 1 else 0
    {
      rows := rows + [CallRecord(userId, Some(quotaOwnerId), month, success)];
      assert rows[..|rows| - 1] == old(rows);
    }
  }
}

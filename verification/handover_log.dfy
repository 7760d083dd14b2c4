/**
 * The handover audit log (handover_log.py): one INITIATED entry per
 * attempt and a SUCCESS or FAILED entry correlated with it by handover id,
 * plus the admin listing, newest first. The log table is the sequence of its
 * entries in scan order; the clock, the id generator and the outcome of
 * each write are parameters. A failed write is swallowed and leaves the
 * table as it was.
 */
module HandoverLog {
  import opened Options
  import opened Text

  const TtlDays := 90
  const TtlSeconds := TtlDays * 24 * 3600
  const MaxReasonLength := 500

  datatype LogStatus = Initiated | Succeeded | Failed

  function StatusName(s: LogStatus): string {
    match s
    case Initiated => "INITIATED"
    case Succeeded => "SUCCESS"
    case Failed => "FAILED"
  }

  /** One log item. The INITIATED entry alone carries the personal e-mail, a FAILED one may carry a reason. */
  datatype LogEntry = LogEntry(
    handoverId: string,
    timestamp: Option<string>,
    status: LogStatus,
    userId: string,
    uin: string,
    personalEmail: Option<string>,
    reason: Option<string>,
    ttlExpiry: int)

  /** No table name configured, or the table's entries in scan order. */
  datatype LogTable = Unconfigured | Configured(entries: seq<LogEntry>)

  /** A successful write appends; a failed one is swallowed. */
  function Put(table: LogTable, e: LogEntry, writeOk: bool): (t: LogTable)
    requires table.Configured?
    ensures t.Configured? && t.entries == if writeOk then table.entries + [e] else table.entries
  {
    if writeOk then Configured(table.entries + [e]) else table
  }

  /** What `log_initiated` hands back: the id for later correlation, and the table. */
  datatype Initiation = Initiation(handoverId: string, table: LogTable)

  /**
   * `log_initiated`. With no table it returns the empty id; otherwise it
   * returns the fresh id whether or not the write succeeded.
   */
  function LogInitiated(table: LogTable, userId: string, uin: string, personalEmail: string,
                        freshId: string, ts: string, now: int, writeOk: bool): (r: Initiation)
    requires freshId != []
    ensures r.handoverId == [] <==> table.Unconfigured?
    ensures table.Unconfigured? ==> r.table == table
    ensures table.Configured? ==> r.handoverId == freshId && r.table.Configured?
    ensures table.Configured? && !writeOk ==> r.table == table
    ensures table.Configured? && writeOk ==>
              r.table.entries == table.entries + [LogEntry(freshId, Some(ts), Initiated, userId, uin, Some(personalEmail), None, now + TtlSeconds)]
  {
    if table.Unconfigured? then Initiation([], table)
    else
      var e := LogEntry(freshId, Some(ts), Initiated, userId, uin, Some(personalEmail), None, now + TtlSeconds);
      Initiation(freshId, Put(table, e, writeOk))
  }

  /** `log_success`: nothing happens without a table or a handover id. */
  function LogSuccess(table: LogTable, handoverId: string, userId: string, uin: string,
                      ts: string, now: int, writeOk: bool): (t: LogTable)
    ensures table.Unconfigured? || handoverId == [] || !writeOk ==> t == table
    ensures table.Configured? && handoverId != [] && writeOk ==>
              t == Configured(table.entries + [LogEntry(handoverId, Some(ts), Succeeded, userId, uin, None, None, now + TtlSeconds)])
  {
    if table.Unconfigured? || handoverId == [] then table
    else Put(table, LogEntry(handoverId, Some(ts), Succeeded, userId, uin, None, None, now + TtlSeconds), writeOk)
  }

  /** `reason[:500]` when the reason is non-empty; no reason attribute otherwise. */
  function StoredReason(reason: Option<string>): (r: Option<string>)
    ensures r.None? <==> !Truthy(reason)
    ensures r.Some? ==> |r.value| == Min(|reason.value|, MaxReasonLength) && r.value == reason.value[..|r.value|]
  {
    if Truthy(reason) then Some(reason.value[..Min(|reason.value|, MaxReasonLength)]) else None
  }

  /** `log_failed`: like `log_success`, with the reason stored truncated. */
  function LogFailed(table: LogTable, handoverId: string, userId: string, uin: string, reason: Option<string>,
                     ts: string, now: int, writeOk: bool): (t: LogTable)
    ensures table.Unconfigured? || handoverId == [] || !writeOk ==> t == table
    ensures table.Configured? && handoverId != [] && writeOk ==>
              && t.Configured? && |t.entries| == |table.entries| + 1 && t.entries[..|table.entries|] == table.entries
              && var e := t.entries[|table.entries|];
                 && e.handoverId == handoverId && e.status == Failed && e.userId == userId && e.uin == uin
                 && e.timestamp == Some(ts) && e.personalEmail.None? && e.ttlExpiry == now + TtlSeconds
                 && (e.reason.Some? <==> Truthy(reason))
                 && (e.reason.Some? ==> |e.reason.value| <= MaxReasonLength && e.reason.value <= reason.value)
                 && e.reason == StoredReason(reason)
  {
    if table.Unconfigured? || handoverId == [] then table
    else Put(table, LogEntry(handoverId, Some(ts), Failed, userId, uin, None, StoredReason(reason), now + TtlSeconds), writeOk)
  }

  /** The two writes of a completed handover share one id: INITIATED, then SUCCESS. */
  lemma InitiatedThenSucceededCorrelate(table: LogTable, userId: string, uin: string, personalEmail: string,
                                        freshId: string, ts1: string, ts2: string, now1: int, now2: int)
    requires table.Configured? && freshId != []
    ensures var i := LogInitiated(table, userId, uin, personalEmail, freshId, ts1, now1, true);
            var t := LogSuccess(i.table, i.handoverId, userId, uin, ts2, now2, true);
            && t.Configured? && |t.entries| == |table.entries| + 2
            && t.entries[..|table.entries|] == table.entries
            && t.entries[|table.entries|].handoverId == t.entries[|table.entries| + 1].handoverId == freshId
            && t.entries[|table.entries|].status == Initiated && t.entries[|table.entries| + 1].status == Succeeded
  {
    var i := LogInitiated(table, userId, uin, personalEmail, freshId, ts1, now1, true);
    var t := LogSuccess(i.table, i.handoverId, userId, uin, ts2, now2, true);
    assert t.entries == table.entries + [i.table.entries[|table.entries|], t.entries[|table.entries| + 1]];
  }

  /** Without a table, an attempt leaves no trace and its terminal entry is dropped too. */
  lemma UnconfiguredLogIsSilent(userId: string, uin: string, personalEmail: string, reason: Option<string>,
                                freshId: string, ts: string, now: int, ok1: bool, ok2: bool)
    requires freshId != []
    ensures var i := LogInitiated(Unconfigured, userId, uin, personalEmail, freshId, ts, now, ok1);
            && i.handoverId == []
            && LogSuccess(i.table, i.handoverId, userId, uin, ts, now, ok2) == Unconfigured
            && LogFailed(i.table, i.handoverId, userId, uin, reason, ts, now, ok2) == Unconfigured
  {
  }

  // ---- list_recent ----

  function Min(a: int, b: int): int {
    if a <= b then a else b
  }

  /** The sort key: the timestamp, or "" when it is missing. */
  function SortKey(e: LogEntry): string {
    OrEmpty(e.timestamp)
  }

  predicate NewestFirst(s: seq<LogEntry>) {
    forall i, j :: 0 <= i < j < |s| ==> LexLe(SortKey(s[j]), SortKey(s[i]))
  }

  /** The entries of `s` with sort key `k`, in their order in `s`. */
  function WithKey(s: seq<LogEntry>, k: string): seq<LogEntry> {
    if |s| == 0 then []
    else (if SortKey(s[0]) == k then [s[0]] else []) + WithKey(s[1..], k)
  }

  /** Places `x` before the first entry that is not newer than it. */
  function InsertNewest(x: LogEntry, t: seq<LogEntry>): seq<LogEntry> {
    if |t| == 0 || LexLe(SortKey(t[0]), SortKey(x)) then [x] + t
    else [t[0]] + InsertNewest(x, t[1..])
  }

  /** `sort(key=timestamp or "", reverse=True)`: a stable sort, newest first. */
  function SortNewestFirst(s: seq<LogEntry>): seq<LogEntry> {
    if |s| == 0 then [] else InsertNewest(s[0], SortNewestFirst(s[1..]))
  }

  lemma {:induction false} InsertNewestIsPermutation(x: LogEntry, t: seq<LogEntry>)
    ensures multiset(InsertNewest(x, t)) == multiset(t) + multiset{x}
    ensures |InsertNewest(x, t)| == |t| + 1
  {
    if |t| > 0 && !LexLe(SortKey(t[0]), SortKey(x)) {
      InsertNewestIsPermutation(x, t[1..]);
      assert t == [t[0]] + t[1..];
    }
  }

  lemma {:induction false} InsertNewestKeepsOrder(x: LogEntry, t: seq<LogEntry>)
    requires NewestFirst(t)
    ensures NewestFirst(InsertNewest(x, t))
  {
    if |t| == 0 {
    } else if LexLe(SortKey(t[0]), SortKey(x)) {
      forall j | 0 < j < |t| ensures LexLe(SortKey(t[j]), SortKey(x)) {
        LexLeTransitive(SortKey(t[j]), SortKey(t[0]), SortKey(x));
      }
    } else {
      LexLeTotal(SortKey(t[0]), SortKey(x));
      var rest := InsertNewest(x, t[1..]);
      InsertNewestKeepsOrder(x, t[1..]);
      InsertNewestIsPermutation(x, t[1..]);
      forall j | 0 <= j < |rest| ensures LexLe(SortKey(rest[j]), SortKey(t[0])) {
        assert rest[j] in multiset(t[1..]) + multiset{x};
        if rest[j] != x {
          assert rest[j] in t[1..];
        }
      }
    }
  }

  /** Inserting never reorders entries with the same key: `x`, being earliest, goes first among them. */
  lemma {:induction false} InsertNewestIsStable(x: LogEntry, t: seq<LogEntry>, k: string)
    ensures WithKey(InsertNewest(x, t), k) == (if SortKey(x) == k then [x] else []) + WithKey(t, k)
  {
    if |t| == 0 || LexLe(SortKey(t[0]), SortKey(x)) {
      assert ([x] + t)[1..] == t;
    } else {
      LexLeReflexive(SortKey(x));
      InsertNewestIsStable(x, t[1..], k);
      assert ([t[0]] + InsertNewest(x, t[1..]))[1..] == InsertNewest(x, t[1..]);
    }
  }

  /** The sort is a stable, newest-first permutation of its input. */
  lemma {:induction false} SortNewestFirstCorrect(s: seq<LogEntry>)
    ensures NewestFirst(SortNewestFirst(s))
    ensures multiset(SortNewestFirst(s)) == multiset(s)
    ensures forall k :: WithKey(SortNewestFirst(s), k) == WithKey(s, k)
  {
    if |s| > 0 {
      SortNewestFirstCorrect(s[1..]);
      InsertNewestKeepsOrder(s[0], SortNewestFirst(s[1..]));
      InsertNewestIsPermutation(s[0], SortNewestFirst(s[1..]));
      assert s == [s[0]] + s[1..];
      forall k ensures WithKey(SortNewestFirst(s), k) == WithKey(s, k) {
        InsertNewestIsStable(s[0], SortNewestFirst(s[1..]), k);
      }
    }
  }

  /**
   * Where page `page` of the scan ends when it starts at `pos`: it asks for
   * `3 * limit` entries, and the store may return fewer (its 1 MB page cap,
   * given per page as `pageCap`, in entries) but at least one.
   */
  function PageEnd(entries: seq<LogEntry>, limit: int, pageCap: nat -> nat, page: nat, pos: nat): (e: nat)
    requires limit > 0 && pos < |entries|
    ensures pos < e <= |entries| && e - pos <= 3 * limit
  {
    var size := if pageCap(page) == 0 then 1 else Min(pageCap(page), 3 * limit);
    Min(pos + size, |entries|)
  }

  /** The entries read from `pos` on: pages follow while entries remain and fewer than `2 * limit` are in hand. */
  function WindowFrom(entries: seq<LogEntry>, limit: int, pageCap: nat -> nat, page: nat, pos: nat): (w: seq<LogEntry>)
    requires limit > 0 && pos <= |entries|
    decreases |entries| - pos
    ensures pos + |w| <= |entries| && w == entries[pos..pos + |w|]
    ensures pos + |w| == |entries| || pos + |w| >= 2 * limit
    ensures pos < 2 * limit ==> pos + |w| < 5 * limit
    ensures pos >= 2 * limit ==> w == []
  {
    if pos < |entries| && pos < 2 * limit then
      var e := PageEnd(entries, limit, pageCap, page, pos);
      var rest := WindowFrom(entries, limit, pageCap, page + 1, e);
      assert entries[pos..e] + rest == entries[pos..e + |rest|];
      entries[pos..e] + rest
    else []
  }

  /** The entries `list_recent` reads before sorting. */
  function Window(entries: seq<LogEntry>, limit: int, pageCap: nat -> nat): (w: seq<LogEntry>)
    requires limit > 0
    ensures |w| <= |entries| && w == entries[..|w|]
    ensures |w| == |entries| || |w| >= 2 * limit
    ensures |w| < 5 * limit
  {
    WindowFrom(entries, limit, pageCap, 0, 0)
  }

  /** When no page is cut short by the store, the first page already holds everything read. */
  lemma FullPagesReadOnePage(entries: seq<LogEntry>, limit: int, pageCap: nat -> nat)
    requires limit > 0
    requires forall p :: pageCap(p) >= 3 * limit
    ensures Window(entries, limit, pageCap) == entries[..Min(3 * limit, |entries|)]
  {
    if |entries| > 0 {
      var e := PageEnd(entries, limit, pageCap, 0, 0);
      assert e == Min(3 * limit, |entries|);
      assert WindowFrom(entries, limit, pageCap, 1, e) == [];
    }
  }

  /** The paged over-fetch of `list_recent`. */
  method FetchWindow(entries: seq<LogEntry>, limit: int, pageCap: nat -> nat) returns (items: seq<LogEntry>)
    requires limit > 0
    ensures |items| <= |entries| && items == entries[..|items|]
    ensures |items| == |entries| || |items| >= 2 * limit
    ensures items == Window(entries, limit, pageCap)
  {
    items := [];
    var pos := 0;
    var page := 0;
    while pos < |entries| && |items| < 2 * limit
      invariant pos <= |entries| && items == entries[..pos]
      invariant items + WindowFrom(entries, limit, pageCap, page, pos) == Window(entries, limit, pageCap)
      decreases |entries| - pos
    {
      var next := PageEnd(entries, limit, pageCap, page, pos);
      ghost var later := WindowFrom(entries, limit, pageCap, page + 1, next);
      assert WindowFrom(entries, limit, pageCap, page, pos) == entries[pos..next] + later;
      assert items + entries[pos..next] + later == Window(entries, limit, pageCap);
      items := items + entries[pos..next];
      assert items == entries[..next];
      pos := next;
      page := page + 1;
    }
  }

  /**
   * `list_recent`. Empty with no table, a non-positive limit (the store
   * rejects it and the error is swallowed) or a failing scan; otherwise the
   * `limit` newest entries of the window, newest first.
   */
  function ListRecent(table: LogTable, limit: int, pageCap: nat -> nat, scanFails: bool): (r: seq<LogEntry>)
    ensures table.Unconfigured? || limit <= 0 || scanFails ==> r == []
    ensures table.Configured? && limit > 0 && !scanFails ==>
              && |r| == Min(limit, |Window(table.entries, limit, pageCap)|)
              && NewestFirst(r)
              && multiset(r) <= multiset(Window(table.entries, limit, pageCap))
  {
    if table.Unconfigured? || limit <= 0 || scanFails then []
    else
      var sorted := SortNewestFirst(Window(table.entries, limit, pageCap));
      SortNewestFirstCorrect(Window(table.entries, limit, pageCap));
      assert sorted == sorted[..Min(limit, |sorted|)] + sorted[Min(limit, |sorted|)..];
      sorted[..Min(limit, |sorted|)]
  }

  lemma SortedSplit(sorted: seq<LogEntry>, n: nat)
    requires NewestFirst(sorted) && n <= |sorted|
    ensures forall e, x :: e in sorted[n..] && x in sorted[..n] ==> LexLe(SortKey(e), SortKey(x))
  {
    forall e, x | e in sorted[n..] && x in sorted[..n] ensures LexLe(SortKey(e), SortKey(x)) {
      var i :| n <= i < |sorted| && sorted[i] == e;
      var j :| 0 <= j < n && sorted[j] == x;
    }
  }

  lemma MultisetOfSplit(s: seq<LogEntry>, n: nat)
    requires n <= |s|
    ensures multiset(s) - multiset(s[..n]) == multiset(s[n..])
  {
    assert s == s[..n] + s[n..];
  }

  /** Nothing newer is left out: every window entry not returned is no newer than every returned one. */
  lemma ListRecentKeepsNewest(table: LogTable, limit: int, pageCap: nat -> nat)
    requires table.Configured? && limit > 0
    ensures var r := ListRecent(table, limit, pageCap, false);
            forall e, x :: e in multiset(Window(table.entries, limit, pageCap)) - multiset(r) && x in r ==>
              LexLe(SortKey(e), SortKey(x))
  {
    var w := Window(table.entries, limit, pageCap);
    var sorted := SortNewestFirst(w);
    SortNewestFirstCorrect(w);
    var n := Min(limit, |sorted|);
    assert ListRecent(table, limit, pageCap, false) == sorted[..n];
    MultisetOfSplit(sorted, n);
    SortedSplit(sorted, n);
  }

  /** Entries with the same timestamp come back in window order. */
  lemma ListRecentIsStable(table: LogTable, limit: int, pageCap: nat -> nat, k: string)
    requires table.Configured? && limit > 0
    ensures var r := ListRecent(table, limit, pageCap, false);
            WithKey(r, k) <= WithKey(Window(table.entries, limit, pageCap), k)
  {
    var w := Window(table.entries, limit, pageCap);
    var sorted := SortNewestFirst(w);
    SortNewestFirstCorrect(w);
    var n := Min(limit, |sorted|);
    var r := sorted[..n];
    assert ListRecent(table, limit, pageCap, false) == r;
    assert sorted == r + sorted[n..];
    WithKeyDistributes(r, sorted[n..], k);
    assert WithKey(sorted, k) == WithKey(w, k);
  }

  lemma {:induction false} WithKeyDistributes(a: seq<LogEntry>, b: seq<LogEntry>, k: string)
    ensures WithKey(a + b, k) == WithKey(a, k) + WithKey(b, k)
  {
    if |a| > 0 {
      WithKeyDistributes(a[1..], b, k);
      var head := if SortKey(a[0]) == k then [a[0]] else [];
      assert (a + b)[0] == a[0];
      assert (a + b)[1..] == a[1..] + b;
      calc {
        WithKey(a + b, k);
        head + WithKey(a[1..] + b, k);
        head + (WithKey(a[1..], k) + WithKey(b, k));
        (head + WithKey(a[1..], k)) + WithKey(b, k);
        WithKey(a, k) + WithKey(b, k);
      }
    } else {
      assert a + b == b;
    }
  }
}

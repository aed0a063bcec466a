/** The result store of internal/collector/db.go, with SQLite abstracted as
    its one table: an append-only sequence of rows in insertion order plus
    the largest id AUTOINCREMENT has handed out. The queries are what their
    SQL says: filter, order by the timestamp text descending, limit. */
module Db {
  import opened Wrappers
  import opened Text
  import opened Rfc3339
  import opened Protocol

  /** One row of the `results` table. The event timestamp is kept as its
      RFC 3339 text; `createdAt` is the store's own UTC clock reading. */
  datatype Row = Row(
    id: int,
    timestamp: string,
    hostname: string,
    status: string,
    issues: seq<Issue>,
    rawDmesg: string,
    apiLatencyMs: int,
    createdAt: UtcClock)

  datatype Store = Store(rows: seq<Row>, lastId: int)

  /** A reading of the store engine's own clock, which `datetime('now')`
      takes in UTC. */
  type UtcClock = t: Clock | t.offsetMinutes == 0 witness DateTime(1, 1, 1, 0, 0, 0, 0, 0)

  /** A freshly created database. */
  const EmptyStore := Store([], 0)

  /** Ids are positive, handed out in increasing order, never above the
      sequence counter. */
  predicate Valid(db: Store) {
    && db.lastId >= 0
    && (forall i :: 0 <= i < |db.rows| ==> 1 <= db.rows[i].id <= db.lastId)
    && (forall i, j :: 0 <= i < j < |db.rows| ==> db.rows[i].id < db.rows[j].id)
  }

  // ---------------------------------------------------------------------------
  // Insert

  /** InsertResult: one new row built from the record, with the next id; the
      record's own id and creation time are not used. `engineError` is the
      engine's failure, if the statement fails; nothing is written then. */
  function InsertResult(db: Store, r: StoredResult, engineError: Option<string>, createdAt: UtcClock)
    : (out: Result<Store, string>)
    ensures engineError.Some? <==> out.Failure?
    ensures out.Success? ==>
      var rows' := out.value.rows;
      && |rows'| == |db.rows| + 1
      && rows'[..|db.rows|] == db.rows
      && rows'[|db.rows|].id == out.value.lastId
      && rows'[|db.rows|].timestamp == Format(r.timestamp)
      && rows'[|db.rows|].hostname == r.hostname
      && rows'[|db.rows|].status == r.status
      && rows'[|db.rows|].issues == r.issues
      && rows'[|db.rows|].rawDmesg == r.rawDmesg
      && rows'[|db.rows|].apiLatencyMs == r.apiLatencyMs
      && rows'[|db.rows|].createdAt == createdAt
    ensures out.Success? && Valid(db) ==>
      Valid(out.value) && forall i :: 0 <= i < |db.rows| ==> db.rows[i].id < out.value.lastId
  {
    if engineError.Some? then Failure(engineError.value)
    else
      var id := db.lastId + 1;
      var row := Row(id, Format(r.timestamp), r.hostname, r.status, r.issues, r.rawDmesg, r.apiLatencyMs, createdAt);
      assert (db.rows + [row])[..|db.rows|] == db.rows;
      Success(Store(db.rows + [row], id))
  }

  // ---------------------------------------------------------------------------
  // Reading rows back

  /** scanResults for one row: the timestamp text parsed back (a parse
      failure would give the zero time), the creation time read as UTC
      to the second. */
  function Scan(row: Row): (r: StoredResult)
  {
    StoredResult(
      row.id,
      Parse(row.timestamp).GetOr(ZeroTime),
      row.hostname,
      row.status,
      row.issues,
      row.rawDmesg,
      row.apiLatencyMs,
      row.createdAt.(nanos := 0))
  }

  function ScanAll(rows: seq<Row>): (r: seq<StoredResult>)
    ensures |r| == |rows|
    ensures forall i :: 0 <= i < |r| ==> r[i] == Scan(rows[i])
  {
    seq(|rows|, i requires 0 <= i < |rows| => Scan(rows[i]))
  }

  /** The rows a WHERE clause keeps, in table order. */
  function Where(rows: seq<Row>, keep: Row -> bool): (r: seq<Row>)
    ensures forall i :: 0 <= i < |r| ==> keep(r[i])
    ensures multiset(r) <= multiset(rows)
  {
    if |rows| == 0 then []
    else
      assert rows == [rows[0]] + rows[1..];
      (if keep(rows[0]) then [rows[0]] else []) + Where(rows[1..], keep)
  }

  /** Newest first: `a` before `b` only if b's timestamp text is not above a's. */
  ghost predicate SortedDesc(s: seq<Row>) {
    forall i, j :: 0 <= i < j < |s| ==> LexLe(s[j].timestamp, s[i].timestamp)
  }

  /** Puts `x` after every row whose timestamp text is at least its own. */
  function InsertDesc(x: Row, s: seq<Row>): (r: seq<Row>)
    requires SortedDesc(s)
    ensures SortedDesc(r)
    ensures multiset(r) == multiset(s) + multiset{x}
    ensures |r| == |s| + 1
    ensures r[0] == x || (|s| > 0 && r[0] == s[0])
  {
    if |s| == 0 then [x]
    else if LexLess(s[0].timestamp, x.timestamp) then
      SortedAfterGreater(x, s);
      [x] + s
    else
      LexTotal(s[0].timestamp, x.timestamp);
      var rest := InsertDesc(x, s[1..]);
      assert s == [s[0]] + s[1..];
      SortedAfterGreater(s[0], rest);
      [s[0]] + rest
  }

  /** Putting a row in front of a sorted run keeps it sorted when the row's
      timestamp text is at least the run's first. */
  lemma SortedAfterGreater(x: Row, s: seq<Row>)
    requires SortedDesc(s)
    requires |s| > 0 ==> LexLe(s[0].timestamp, x.timestamp)
    ensures SortedDesc([x] + s)
  {
    var r := [x] + s;
    forall i, j | 0 <= i < j < |r| ensures LexLe(r[j].timestamp, r[i].timestamp) {
      if i == 0 {
        assert r[j] == s[j - 1];
        if j > 1 { LexLeTransitive(s[j - 1].timestamp, s[0].timestamp, x.timestamp); }
      } else {
        assert r[i] == s[i - 1] && r[j] == s[j - 1];
      }
    }
  }

  /** ORDER BY timestamp DESC. Rows with equal text keep the newest first. */
  function SortDesc(rows: seq<Row>): (r: seq<Row>)
    ensures SortedDesc(r)
    ensures multiset(r) == multiset(rows)
    ensures |r| == |rows|
  {
    if |rows| == 0 then []
    else
      assert rows == [rows[0]] + rows[1..];
      InsertDesc(rows[0], SortDesc(rows[1..]))
  }

  /** LIMIT n: SQLite treats a negative limit as no limit. */
  function Limit<T>(s: seq<T>, limit: int): (r: seq<T>)
    ensures |r| == if 0 <= limit < |s| then limit else |s|
    ensures r == s[..|r|]
  {
    if limit < 0 || limit >= |s| then s else s[..limit]
  }

  /** Filter, newest first, at most `limit` (none if negative). */
  function Select(db: Store, keep: Row -> bool, limit: int): (r: seq<Row>)
  {
    Limit(SortDesc(Where(db.rows, keep)), limit)
  }

  /** QueryByHostname's rows, before they are scanned. */
  function SelectByHostname(db: Store, hostname: string, limit: int): (r: seq<Row>)
  {
    Select(db, (row: Row) => row.hostname == hostname, limit)
  }

  /** QueryNonOK's rows, before they are scanned. */
  function SelectNonOk(db: Store, limit: int): (r: seq<Row>)
  {
    Select(db, (row: Row) => row.status != StatusOk, limit)
  }

  /** QueryByHostname: the most recent results for one host. */
  function QueryByHostname(db: Store, hostname: string, limit: int): (r: seq<StoredResult>)
    ensures forall i :: 0 <= i < |r| ==> r[i].hostname == hostname
    ensures 0 <= limit ==> |r| <= limit
  {
    SelectSpec(db, (row: Row) => row.hostname == hostname, limit);
    ScanAll(SelectByHostname(db, hostname, limit))
  }

  /** QueryNonOK: the most recent results whose status is not "ok". */
  function QueryNonOk(db: Store, limit: int): (r: seq<StoredResult>)
    ensures forall i :: 0 <= i < |r| ==> r[i].status != StatusOk
    ensures 0 <= limit ==> |r| <= limit
  {
    SelectSpec(db, (row: Row) => row.status != StatusOk, limit);
    ScanAll(SelectNonOk(db, limit))
  }

  // ---------------------------------------------------------------------------
  // Status counts

  function Statuses(rows: seq<Row>): (r: seq<string>)
    ensures |r| == |rows|
    ensures forall i :: 0 <= i < |rows| ==> r[i] == rows[i].status
  {
    if |rows| == 0 then [] else [rows[0].status] + Statuses(rows[1..])
  }

  /** Each distinct string with the number of times it occurs. */
  function Tally(st: seq<string>): (m: map<string, nat>)
  {
    if |st| == 0 then map[]
    else
      var m := Tally(st[1..]);
      m[st[0] := (if st[0] in m then m[st[0]] else 0) + 1]
  }

  /** The tally holds exactly the strings that occur, each with its multiplicity. */
  lemma {:induction false} TallyCounts(st: seq<string>)
    ensures forall s :: s in Tally(st) <==> s in multiset(st)
    ensures forall s :: s in Tally(st) ==> Tally(st)[s] == multiset(st)[s]
    decreases |st|
  {
    if |st| > 0 {
      TallyCounts(st[1..]);
      assert st == [st[0]] + st[1..];
    }
  }

  /** StatusCounts: each status present in the table, with the number of rows
      that carry it (GROUP BY status). */
  function StatusCounts(rows: seq<Row>): (m: map<string, nat>)
    ensures forall s :: s in m <==> exists i :: 0 <= i < |rows| && rows[i].status == s
    ensures forall s :: s in m ==> m[s] == multiset(Statuses(rows))[s]
  {
    var st := Statuses(rows);
    TallyCounts(st);
    assert forall s :: s in multiset(st) <==> exists i :: 0 <= i < |rows| && rows[i].status == s by {
      forall s ensures s in multiset(st) <==> exists i :: 0 <= i < |rows| && rows[i].status == s {
        assert s in multiset(st) <==> s in st;
      }
    }
    Tally(st)
  }

  // ---------------------------------------------------------------------------
  // Lemmas

  /** A prefix of a sorted run is sorted and holds no row older than what
      the rest holds. */
  lemma SortedPrefix(sorted: seq<Row>, n: nat)
    requires SortedDesc(sorted) && n <= |sorted|
    ensures SortedDesc(sorted[..n])
    ensures forall k, i :: n <= k < |sorted| && 0 <= i < n ==>
      LexLe(sorted[k].timestamp, sorted[..n][i].timestamp)
  {
  }

  /** Sorting adds no row. */
  lemma FromSortDesc(rows: seq<Row>, x: Row)
    requires x in SortDesc(rows)
    ensures x in rows
  {
    assert x in multiset(SortDesc(rows));
  }

  /** A filtered row is a row of the table that passes. */
  lemma FromWhere(rows: seq<Row>, keep: Row -> bool, x: Row)
    requires x in Where(rows, keep)
    ensures keep(x) && x in rows
  {
    assert x in multiset(Where(rows, keep));
  }

  lemma SelectedRowsPass(db: Store, keep: Row -> bool, limit: int)
    ensures var r := Select(db, keep, limit);
      && (forall i :: 0 <= i < |r| ==> keep(r[i]) && r[i] in db.rows)
      && multiset(r) <= multiset(Where(db.rows, keep))
  {
    var passing := Where(db.rows, keep);
    var sorted := SortDesc(passing);
    var r := Select(db, keep, limit);
    assert r == sorted[..|r|];
    forall i | 0 <= i < |r| ensures keep(r[i]) && r[i] in db.rows {
      assert r[i] == sorted[i];
      FromSortDesc(passing, r[i]);
      FromWhere(db.rows, keep, r[i]);
    }
    assert sorted == r + sorted[|r|..];
    assert multiset(sorted) == multiset(r) + multiset(sorted[|r|..]);
  }

  /** A row of a sorted run missing from its first `n` rows is not newer
      than any of them. */
  lemma BeyondPrefixIsOlder(sorted: seq<Row>, n: nat, x: Row)
    requires SortedDesc(sorted) && n <= |sorted|
    requires x in sorted && x !in sorted[..n]
    ensures forall i :: 0 <= i < n ==> LexLe(x.timestamp, sorted[i].timestamp)
  {
    assert forall k :: 0 <= k < n ==> sorted[..n][k] == sorted[k];
    var k :| n <= k < |sorted| && sorted[k] == x;
  }

  /** Sorting loses no row. */
  lemma InSortDesc(rows: seq<Row>, x: Row)
    requires x in rows
    ensures x in SortDesc(rows)
  {
    assert x in multiset(rows);
  }

  /** A passing row the limit cut off is not newer than any row returned. */
  lemma LeftOutIsOlder(db: Store, keep: Row -> bool, limit: int, x: Row)
    requires x in db.rows && keep(x) && x !in Select(db, keep, limit)
    ensures var r := Select(db, keep, limit);
      forall i :: 0 <= i < |r| ==> LexLe(x.timestamp, r[i].timestamp)
  {
    var sorted := SortDesc(Where(db.rows, keep));
    var r := Select(db, keep, limit);
    WhereKeepsPassing(db.rows, keep, x);
    InSortDesc(Where(db.rows, keep), x);
    BeyondPrefixIsOlder(sorted, |r|, x);
  }

  lemma NoNewerLeftOut(db: Store, keep: Row -> bool, limit: int)
    ensures var r := Select(db, keep, limit);
      forall x :: x in db.rows && keep(x) && x !in r ==>
        forall i :: 0 <= i < |r| ==> LexLe(x.timestamp, r[i].timestamp)
  {
    forall x | x in db.rows && keep(x) && x !in Select(db, keep, limit) {
      LeftOutIsOlder(db, keep, limit, x);
    }
  }

  /** What every selection returns: only rows of the table that pass the
      filter, newest first, as many as the limit allows of those that pass,
      and no passing row left out is newer than one returned; without a
      limit, every passing row. */
  lemma SelectSpec(db: Store, keep: Row -> bool, limit: int)
    ensures var r := Select(db, keep, limit);
      var passing := Where(db.rows, keep);
      && (forall i :: 0 <= i < |r| ==> keep(r[i]) && r[i] in db.rows)
      && SortedDesc(r)
      && |r| == (if 0 <= limit < |passing| then limit else |passing|)
      && multiset(r) <= multiset(passing)
      && (forall x :: x in db.rows && keep(x) && x !in r ==>
            forall i :: 0 <= i < |r| ==> LexLe(x.timestamp, r[i].timestamp))
      && (limit < 0 ==> forall x :: x in db.rows && keep(x) ==> x in r)
  {
    var sorted := SortDesc(Where(db.rows, keep));
    SortedPrefix(sorted, |Select(db, keep, limit)|);
    SelectedRowsPass(db, keep, limit);
    NoNewerLeftOut(db, keep, limit);
    if limit < 0 {
      forall x | x in db.rows && keep(x) ensures x in Select(db, keep, limit) {
        WhereKeepsPassing(db.rows, keep, x);
        assert x in multiset(Where(db.rows, keep));
        assert x in multiset(sorted);
      }
    }
  }

  /** Selection is only by the filter: rows that fail it are never returned. */
  lemma SelectByHostnameSpec(db: Store, hostname: string, limit: int)
    ensures var r := SelectByHostname(db, hostname, limit);
      var matching := Where(db.rows, (row: Row) => row.hostname == hostname);
      && (forall i :: 0 <= i < |r| ==> r[i].hostname == hostname && r[i] in db.rows)
      && SortedDesc(r)
      && |r| == (if 0 <= limit < |matching| then limit else |matching|)
      && (forall x :: x in db.rows && x.hostname == hostname && x !in r ==>
            forall i :: 0 <= i < |r| ==> LexLe(x.timestamp, r[i].timestamp))
  {
    SelectSpec(db, (row: Row) => row.hostname == hostname, limit);
  }

  lemma SelectNonOkSpec(db: Store, limit: int)
    ensures var r := SelectNonOk(db, limit);
      var matching := Where(db.rows, (row: Row) => row.status != StatusOk);
      && (forall i :: 0 <= i < |r| ==> r[i].status != StatusOk && r[i] in db.rows)
      && SortedDesc(r)
      && |r| == (if 0 <= limit < |matching| then limit else |matching|)
      && (forall x :: x in db.rows && x.status != StatusOk && x !in r ==>
            forall i :: 0 <= i < |r| ==> LexLe(x.timestamp, r[i].timestamp))
  {
    SelectSpec(db, (row: Row) => row.status != StatusOk, limit);
  }

  /** Every row that passes the filter is kept. */
  lemma {:induction false} WhereKeepsPassing(rows: seq<Row>, keep: Row -> bool, x: Row)
    requires x in rows && keep(x)
    ensures x in Where(rows, keep)
    decreases |rows|
  {
    if rows[0] != x {
      assert x in rows[1..];
      WhereKeepsPassing(rows[1..], keep, x);
    }
  }

  lemma {:induction false} WhereNone(rows: seq<Row>, keep: Row -> bool)
    requires forall i :: 0 <= i < |rows| ==> !keep(rows[i])
    ensures Where(rows, keep) == []
    decreases |rows|
  {
    if |rows| > 0 {
      WhereNone(rows[1..], keep);
    }
  }

  lemma {:induction false} WhereAppend(rows: seq<Row>, x: Row, keep: Row -> bool)
    ensures Where(rows + [x], keep) == Where(rows, keep) + (if keep(x) then [x] else [])
    decreases |rows|
  {
    if |rows| == 0 {
      assert rows + [x] == [x];
    } else {
      var xs := rows + [x];
      assert xs[0] == rows[0];
      assert xs[1..] == rows[1..] + [x];
      WhereAppend(rows[1..], x, keep);
      var head := if keep(rows[0]) then [rows[0]] else [];
      assert Where(xs, keep) == head + Where(xs[1..], keep);
      assert Where(rows, keep) == head + Where(rows[1..], keep);
    }
  }

  /** With no earlier row for the host, the inserted row is the only one
      the host's filter keeps. */
  lemma OnlyInsertedRowPasses(db: Store, r: StoredResult, createdAt: UtcClock)
    requires forall i :: 0 <= i < |db.rows| ==> db.rows[i].hostname != r.hostname
    ensures InsertResult(db, r, None, createdAt).Success?
    ensures var db' := InsertResult(db, r, None, createdAt).value;
      Where(db'.rows, (x: Row) => x.hostname == r.hostname) == [db'.rows[|db.rows|]]
  {
    var db' := InsertResult(db, r, None, createdAt).value;
    var row := db'.rows[|db.rows|];
    var keep := (x: Row) => x.hostname == r.hostname;
    assert db'.rows == db.rows + [row];
    WhereNone(db.rows, keep);
    WhereAppend(db.rows, row, keep);
  }

  /** The rows of a one-row selection, whatever the positive or absent limit. */
  lemma SelectSingle(db: Store, hostname: string, limit: int, row: Row)
    requires Where(db.rows, (x: Row) => x.hostname == hostname) == [row]
    requires limit != 0
    ensures SelectByHostname(db, hostname, limit) == [row]
  {
    assert SortDesc([row]) == [row];
  }

  /** Scanning an inserted row gives the record back, its timestamp cut to
      the second and the store's own id and creation time. */
  lemma ScanInserted(db: Store, r: StoredResult, createdAt: UtcClock)
    ensures InsertResult(db, r, None, createdAt).Success?
    ensures var db' := InsertResult(db, r, None, createdAt).value;
      Scan(db'.rows[|db.rows|]) ==
        StoredResult(db.lastId + 1, r.timestamp.(nanos := 0), r.hostname, r.status, r.issues,
                     r.rawDmesg, r.apiLatencyMs, createdAt.(nanos := 0))
  {
    ParseFormat(r.timestamp);
  }

  /** Insert, then ask for the host: with no earlier rows for that host, the
      answer is the one record, with the same status, issues, raw text and
      latency, its timestamp cut to the second, and the new id. */
  lemma InsertThenQueryByHostname(db: Store, r: StoredResult, createdAt: UtcClock, limit: int)
    requires forall i :: 0 <= i < |db.rows| ==> db.rows[i].hostname != r.hostname
    requires limit != 0
    ensures InsertResult(db, r, None, createdAt).Success?
    ensures var db' := InsertResult(db, r, None, createdAt).value;
      QueryByHostname(db', r.hostname, limit) ==
        [StoredResult(db.lastId + 1, r.timestamp.(nanos := 0), r.hostname, r.status, r.issues,
                      r.rawDmesg, r.apiLatencyMs, createdAt.(nanos := 0))]
  {
    var db' := InsertResult(db, r, None, createdAt).value;
    OnlyInsertedRowPasses(db, r, createdAt);
    SelectSingle(db', r.hostname, limit, db'.rows[|db.rows|]);
    ScanInserted(db, r, createdAt);
  }

  /** Whatever else is in the table, an inserted record is found again by an
      unlimited query for its host. */
  lemma InsertedRowIsFound(db: Store, r: StoredResult, createdAt: UtcClock)
    ensures InsertResult(db, r, None, createdAt).Success?
    ensures var db' := InsertResult(db, r, None, createdAt).value;
      db'.rows[|db.rows|] in SelectByHostname(db', r.hostname, -1)
  {
    var db' := InsertResult(db, r, None, createdAt).value;
    var row := db'.rows[|db.rows|];
    var keep := (x: Row) => x.hostname == r.hostname;
    assert db'.rows == db.rows + [row];
    WhereAppend(db.rows, row, keep);
    var passing := Where(db'.rows, keep);
    assert row in multiset(passing);
    assert row in multiset(SortDesc(passing));
  }

  /** The table's contents are only ever extended: each successful insert
      keeps every earlier row as it was and adds exactly one. */
  lemma InsertAppendsOnly(db: Store, r: StoredResult, engineError: Option<string>, createdAt: UtcClock)
    ensures var out := InsertResult(db, r, engineError, createdAt);
      out.Success? ==>
        && |out.value.rows| == |db.rows| + 1
        && forall i :: 0 <= i < |db.rows| ==> out.value.rows[i] == db.rows[i]
  {
    var out := InsertResult(db, r, engineError, createdAt);
    if out.Success? {
      assert out.value.rows[..|db.rows|] == db.rows;
      forall i | 0 <= i < |db.rows| ensures out.value.rows[i] == db.rows[i] {
        assert out.value.rows[..|db.rows|][i] == out.value.rows[i];
      }
    }
  }

  lemma TallyExample()
    ensures Tally(["ok", "ok", "ok", "warning", "critical"]) == map["ok" := 3, "warning" := 1, "critical" := 1]
  {
    var st := ["ok", "ok", "ok", "warning", "critical"];
    assert st[1..] == ["ok", "ok", "warning", "critical"];
    assert st[2..] == ["ok", "warning", "critical"];
    assert st[3..] == ["warning", "critical"];
    assert st[4..] == ["critical"];
    assert st[5..] == [];
  }

  /** The counts of ok, ok, ok, warning, critical. */
  lemma StatusCountsExample(rows: seq<Row>)
    requires |rows| == 5
    requires rows[0].status == "ok" && rows[1].status == "ok" && rows[2].status == "ok"
    requires rows[3].status == "warning" && rows[4].status == "critical"
    ensures StatusCounts(rows) == map["ok" := 3, "warning" := 1, "critical" := 1]
  {
    assert Statuses(rows) == ["ok", "ok", "ok", "warning", "critical"];
    TallyExample();
  }
}

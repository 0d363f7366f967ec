/** The read side of the archive: the `/files` listing, `/download/:id`,
    `/metadata/:id` and `/history`. Each is a pure function of the tables;
    none of them changes the store. */
module ArchiveQueries {
  import opened ArchiveTypes
  import opened Sequences

  // ---------------------------------------------------------------------
  // /files

  /** The query string of `/files`; an absent parameter reads as "". */
  datatype ListQuery = ListQuery(
    order: string,
    filterParam: string,
    author: string,
    filename: string,
    searchType: string)

  /** One row of the listing: `SELECT id, filename, size`. */
  datatype ListRow = ListRow(id: int, filename: string, size: real)

  datatype SortColumn = ById | BySize

  /** `=` for "exact", `LIKE '%…%'` for anything else. */
  datatype MatchMode = Exact | Like

  /** ORDER BY size when asked for, by id otherwise. */
  function SortColumnOf(filterParam: string): SortColumn {
    if filterParam == "size" then BySize else ById
  }

  /** DESC when asked for, ASC otherwise. */
  predicate Descending(order: string) {
    order == "desc"
  }

  function MatchModeOf(searchType: string): MatchMode {
    if searchType == "exact" then Exact else Like
  }

  function IdKey(row: ListRow): real {
    row.id as real
  }

  function SizeKey(row: ListRow): real {
    row.size
  }

  /** The value a listing is ordered by. */
  function ColumnKey(column: SortColumn): ListRow -> real {
    if column == BySize then SizeKey else IdKey
  }

  /** SQLite's LIKE ignores the case of ASCII letters (and only of those). */
  function LowerAscii(c: char): (d: char)
    ensures 'A' <= c <= 'Z' ==> 'a' <= d <= 'z'
  {
    if 'A' <= c <= 'Z' then (c as int + 32) as char else c
  }

  /** Case folding for LIKE: no ASCII capital is left, and every other
      character stays where and what it was. */
  function FoldAscii(s: string): (t: string)
    ensures |t| == |s|
    ensures forall k :: 0 <= k < |t| ==> !('A' <= t[k] <= 'Z')
    ensures forall k :: 0 <= k < |s| && !('A' <= s[k] <= 'Z') ==> t[k] == s[k]
    ensures forall k :: 0 <= k < |s| && 'A' <= s[k] <= 'Z' ==> t[k] as int == s[k] as int + 32
  {
    seq(|s|, k requires 0 <= k < |s| => LowerAscii(s[k]))
  }

  /** Folding a folded string changes nothing. */
  lemma FoldAsciiIdempotent(s: string)
    ensures FoldAscii(FoldAscii(s)) == FoldAscii(s)
  {
  }

  /** A substring search compares folded strings, so folding either side
      first changes no outcome: LIKE ignores ASCII case. */
  lemma LikeIgnoresCase(value: string, filter: string)
    ensures Matches(value, filter, Like) == Matches(FoldAscii(value), FoldAscii(filter), Like)
  {
    FoldAsciiIdempotent(value);
    FoldAsciiIdempotent(filter);
  }

  /** `sub` occurs in `s` as a contiguous piece. */
  predicate IsSubstring(sub: string, s: string) {
    exists i :: 0 <= i <= |s| && sub <= s[i..]
  }

  /** One filter of the WHERE clause: an empty filter is not applied;
      otherwise exact mode asks for equality and substring mode for
      case-insensitive (ASCII) containment. */
  predicate Matches(value: string, filter: string, mode: MatchMode) {
    || filter == ""
    || (mode == Exact && value == filter)
    || (mode == Like && IsSubstring(FoldAscii(filter), FoldAscii(value)))
  }

  /** The WHERE clause of `/files`: a Current row passing both filters. */
  predicate Listed(rec: FileRecord, q: ListQuery) {
    && rec.state == Current
    && Matches(rec.author, q.author, MatchModeOf(q.searchType))
    && Matches(rec.filename, q.filename, MatchModeOf(q.searchType))
  }

  /** What the query parameters select: an empty filter lets every value
      through, "exact" asks for equality, anything else for a folded
      substring. */
  lemma MatchesByParameter(value: string, filter: string, searchType: string)
    ensures filter == "" ==> Matches(value, filter, MatchModeOf(searchType))
    ensures filter != "" && searchType == "exact" ==>
      (Matches(value, filter, MatchModeOf(searchType)) <==> value == filter)
    ensures filter != "" && searchType != "exact" ==>
      (Matches(value, filter, MatchModeOf(searchType)) <==> IsSubstring(FoldAscii(filter), FoldAscii(value)))
  {
  }

  /** Only Current rows are ever listed, and with both filters empty every
      Current row is. */
  lemma ListedCurrent(rec: FileRecord, q: ListQuery)
    ensures Listed(rec, q) ==> rec.state == Current
    ensures q.author == "" && q.filename == "" ==> (Listed(rec, q) <==> rec.state == Current)
  {
  }

  function RowOf(id: int, rec: FileRecord): ListRow {
    ListRow(id, rec.filename, rec.size)
  }

  /** The WHERE clause of `/files` as a row test. */
  function ListedBy(q: ListQuery): FileRecord -> bool {
    rec => Listed(rec, q)
  }

  /** Exact equality is also a substring match: switching a search to
      substring mode never loses a row. */
  lemma ExactImpliesLike(value: string, filter: string)
    ensures Matches(value, filter, Exact) ==> Matches(value, filter, Like)
  {
    if filter != "" && value == filter {
      assert FoldAscii(filter) <= FoldAscii(value)[0..];
    }
  }

  /** The ids in [lo, hi) of rows that `keep` accepts, in ascending order:
      a scan of the table in rowid order. */
  function SelectIds(files: map<int, FileRecord>, lo: int, hi: int, keep: FileRecord -> bool): (ids: seq<int>)
    decreases hi - lo
    ensures forall id :: id in ids <==> lo <= id < hi && id in files && keep(files[id])
    ensures forall i, j :: 0 <= i < j < |ids| ==> ids[i] < ids[j]
  {
    if lo >= hi then []
    else if lo in files && keep(files[lo]) then
      var rest := SelectIds(files, lo + 1, hi, keep);
      assert forall k :: 0 <= k < |rest| ==> lo < rest[k] by {
        forall k | 0 <= k < |rest| ensures lo < rest[k] { assert rest[k] in rest; }
      }
      [lo] + rest
    else SelectIds(files, lo + 1, hi, keep)
  }

  /** Two tables that agree on which ids in [lo, hi) are kept give the
      same scan. */
  lemma {:induction false} SelectIdsAgree(a: map<int, FileRecord>, b: map<int, FileRecord>, lo: int, hi: int,
                                          keepA: FileRecord -> bool, keepB: FileRecord -> bool)
    requires forall id :: lo <= id < hi ==> ((id in a && keepA(a[id])) <==> (id in b && keepB(b[id])))
    ensures SelectIds(a, lo, hi, keepA) == SelectIds(b, lo, hi, keepB)
    decreases hi - lo
  {
    if lo < hi {
      SelectIdsAgree(a, b, lo + 1, hi, keepA, keepB);
    }
  }

  /** The rows of the listed ids, in the order of `ids`. */
  function RowsOf(files: map<int, FileRecord>, ids: seq<int>): (rows: seq<ListRow>)
    requires forall id :: id in ids ==> id in files
    requires forall i, j :: 0 <= i < j < |ids| ==> ids[i] < ids[j]
    ensures Distinct(rows)
    ensures forall row :: row in rows <==> row.id in ids && row == RowOf(row.id, files[row.id])
  {
    var rows := seq(|ids|, k requires 0 <= k < |ids| => RowOf(ids[k], files[ids[k]]));
    assert forall row: ListRow :: row.id in ids && row == RowOf(row.id, files[row.id]) ==> row in rows by {
      forall row: ListRow | row.id in ids && row == RowOf(row.id, files[row.id])
        ensures row in rows
      {
        var k :| 0 <= k < |ids| && ids[k] == row.id;
        assert rows[k] == row;
      }
    }
    rows
  }

  /** Distinct rows each built from its own id's record have distinct ids. */
  lemma RowIdsDistinct(files: map<int, FileRecord>, rows: seq<ListRow>)
    requires Distinct(rows)
    requires forall row :: row in rows ==> row.id in files && row == RowOf(row.id, files[row.id])
    ensures forall i, j :: 0 <= i < j < |rows| ==> rows[i].id != rows[j].id
  {
    forall i, j | 0 <= i < j < |rows|
      ensures rows[i].id != rows[j].id
    {
      assert rows[i] in rows && rows[j] in rows;
    }
  }

  /** `/files`: every Current row that passes the filters, once each,
      ordered by the requested column in the requested direction.
      `bound` is above every id in the table. */
  function ListFiles(files: map<int, FileRecord>, bound: int, q: ListQuery): (rows: seq<ListRow>)
    requires forall id :: id in files ==> 1 <= id < bound
    ensures forall row :: row in rows <==>
      row.id in files && Listed(files[row.id], q) && row == RowOf(row.id, files[row.id])
    ensures forall i, j :: 0 <= i < j < |rows| ==> rows[i].id != rows[j].id
    ensures SortedBy(rows, ColumnKey(SortColumnOf(q.filterParam)), Descending(q.order))
  {
    var ids := SelectIds(files, 1, bound, ListedBy(q));
    assert forall id :: id in ids <==> id in files && Listed(files[id], q);
    var selected := RowsOf(files, ids);
    var rows := SortBy(selected, ColumnKey(SortColumnOf(q.filterParam)), Descending(q.order));
    assert forall row :: row in rows <==>
      row.id in files && Listed(files[row.id], q) && row == RowOf(row.id, files[row.id]) by {
      SameMembers(selected, rows);
    }
    assert forall i, j :: 0 <= i < j < |rows| ==> rows[i].id != rows[j].id by {
      PermutationKeepsDistinct(selected, rows);
      RowIdsDistinct(files, rows);
    }
    rows
  }

  /** The listing depends only on the rows it lists: two tables with the
      same listed rows, holding the same records, list the same. */
  lemma ListFilesAgree(a: map<int, FileRecord>, b: map<int, FileRecord>, bound: int, q: ListQuery)
    requires forall id :: id in a ==> 1 <= id < bound
    requires forall id :: id in b ==> 1 <= id < bound
    requires forall id :: id in a && Listed(a[id], q) ==> id in b && b[id] == a[id]
    requires forall id :: id in b && Listed(b[id], q) ==> id in a && a[id] == b[id]
    ensures ListFiles(a, bound, q) == ListFiles(b, bound, q)
  {
    SelectIdsAgree(a, b, 1, bound, ListedBy(q), ListedBy(q));
    var ids := SelectIds(a, 1, bound, ListedBy(q));
    assert RowsOf(a, ids) == RowsOf(b, ids);
  }

  // ---------------------------------------------------------------------
  // /download/:id and /metadata/:id

  /** `/download/:id`: the stored name and bytes of the row with that id,
      whatever its state; NotFound when there is no such row. */
  function DownloadFile(files: map<int, FileRecord>, id: int): (r: Result<Download>)
    ensures r.Ok? <==> id in files
    ensures r.Ok? ==> r.value == Download(files[id].filename, files[id].data)
    ensures r.Err? ==> r.error == NotFound
  {
    if id in files then Ok(Download(files[id].filename, files[id].data)) else Err(NotFound)
  }

  /** `/metadata/:id`: the whole row with that id (payload included),
      whatever its state; NotFound when there is no such row. */
  function Metadata(files: map<int, FileRecord>, id: int): (r: Result<FileRecord>)
    ensures r.Ok? <==> id in files
    ensures r.Ok? ==> r.value == files[id]
    ensures r.Err? ==> r.error == NotFound
  {
    if id in files then Ok(files[id]) else Err(NotFound)
  }

  // ---------------------------------------------------------------------
  // /history

  /** The `filter` parameter of `/history`; anything unrecognised, and an
      absent filter, selects the default: the ten newest entries. */
  datatype HistoryFilter = LastHour | Today | Yesterday | Last7Days | AllTime | Last10

  function HistoryFilterOf(filter: string): HistoryFilter {
    if filter == "lastHour" then LastHour
    else if filter == "today" then Today
    else if filter == "yesterday" then Yesterday
    else if filter == "last7Days" then Last7Days
    else if filter == "allTime" then AllTime
    else Last10
  }

  const SecondsPerHour: nat := 3600
  const SecondsPerDay: nat := 86400

  /** How many entries the default filter returns. */
  const DefaultHistoryLimit: nat := 10

  /** SQLite's date(): the UTC calendar day a timestamp falls on. */
  function DayOf(t: Timestamp): int {
    t / SecondsPerDay
  }

  /** The WHERE clause of each history filter, with `now` the current time. */
  predicate InWindow(e: HistoryEntry, f: HistoryFilter, now: Timestamp) {
    match f
    case LastHour => e.changeDate >= now - SecondsPerHour
    case Today => DayOf(e.changeDate) == DayOf(now)
    case Yesterday => DayOf(e.changeDate) == DayOf(now) - 1
    case Last7Days => e.changeDate >= now - 7 * SecondsPerDay
    case AllTime => true
    case Last10 => true
  }

  /** Every filter name but the five known ones, the empty (absent) one
      included, selects the ten newest entries. */
  lemma DefaultHistoryFilter(filter: string)
    ensures HistoryFilterOf(filter) == Last10 <==>
      filter != "lastHour" && filter != "today" && filter != "yesterday" && filter != "last7Days" && filter != "allTime"
  {
  }

  /** A timestamp falls on day `d` exactly when it lies in the 86400
      seconds starting at `d * 86400`. */
  lemma DayBounds(t: Timestamp, d: int)
    ensures DayOf(t) == d <==> d * SecondsPerDay <= t < d * SecondsPerDay + SecondsPerDay
  {
    var q, r := t / SecondsPerDay, t % SecondsPerDay;
    assert t == q * SecondsPerDay + r && 0 <= r < SecondsPerDay;
    if d < q {
      assert d * SecondsPerDay + SecondsPerDay <= q * SecondsPerDay;
    } else if q < d {
      assert q * SecondsPerDay + SecondsPerDay <= d * SecondsPerDay;
    }
  }

  /** Each time window as an interval of timestamps: the last 3600 seconds,
      the current UTC day, the day before it, the last 7 * 86400 seconds. */
  lemma WindowBounds(e: HistoryEntry, now: Timestamp)
    ensures InWindow(e, LastHour, now) <==> now - 3600 <= e.changeDate
    ensures InWindow(e, Today, now) <==>
      DayOf(now) * 86400 <= e.changeDate < DayOf(now) * 86400 + 86400
    ensures InWindow(e, Yesterday, now) <==>
      DayOf(now) * 86400 - 86400 <= e.changeDate < DayOf(now) * 86400
    ensures InWindow(e, Last7Days, now) <==> now - 604800 <= e.changeDate
    ensures InWindow(e, AllTime, now)
  {
    DayBounds(e.changeDate, DayOf(now));
    DayBounds(e.changeDate, DayOf(now) - 1);
  }

  function ChangeDateKey(e: HistoryEntry): real {
    e.changeDate as real
  }

  /** The entries of the log inside a filter's window, newest first. */
  function WindowNewestFirst(log: seq<HistoryEntry>, f: HistoryFilter, now: Timestamp): (entries: seq<HistoryEntry>)
    ensures SortedBy(entries, ChangeDateKey, true)
    ensures forall e :: multiset(entries)[e] == if InWindow(e, f, now) then multiset(log)[e] else 0
    ensures multiset(entries) <= multiset(log)
  {
    SortBy(Filter(log, e => InWindow(e, f, now)), ChangeDateKey, true)
  }

  /** The first `n` entries of a newest-first permutation of the log are
      `n` of its newest entries. */
  lemma TakeNewest(log: seq<HistoryEntry>, newest: seq<HistoryEntry>, n: nat)
    requires SortedBy(newest, ChangeDateKey, true)
    requires multiset(newest) == multiset(log)
    requires n <= |newest|
    ensures SortedBy(newest[..n], ChangeDateKey, true)
    ensures multiset(newest[..n]) <= multiset(log)
    ensures forall x, y :: x in newest[..n] && y in multiset(log) - multiset(newest[..n]) ==> y.changeDate <= x.changeDate
  {
    assert newest == newest[..n] + newest[n..];
    SortedPrefixFirst(newest, ChangeDateKey, true, n);
  }

  /** `ORDER BY changeDate DESC LIMIT n`: the `n` newest entries of the
      log (all of it when it is shorter), newest first. */
  function NewestEntries(log: seq<HistoryEntry>, n: nat): (entries: seq<HistoryEntry>)
    ensures SortedBy(entries, ChangeDateKey, true)
    ensures multiset(entries) <= multiset(log)
    ensures |entries| == if |log| < n then |log| else n
    ensures forall x, y :: x in entries && y in multiset(log) - multiset(entries) ==> y.changeDate <= x.changeDate
  {
    var newest := SortBy(log, ChangeDateKey, true);
    var k := if |newest| < n then |newest| else n;
    TakeNewest(log, newest, k);
    newest[..k]
  }

  /** `/history`: entries newest first. A named filter returns exactly the
      entries of the log inside its window; the default returns the ten
      newest (fewer when the log is shorter). */
  function History(log: seq<HistoryEntry>, filter: string, now: Timestamp): (entries: seq<HistoryEntry>)
    ensures SortedBy(entries, ChangeDateKey, true)
    ensures multiset(entries) <= multiset(log)
    ensures HistoryFilterOf(filter) != Last10 ==>
      forall e :: multiset(entries)[e] == if InWindow(e, HistoryFilterOf(filter), now) then multiset(log)[e] else 0
    ensures HistoryFilterOf(filter) == Last10 ==>
      && |entries| == (if |log| < DefaultHistoryLimit then |log| else DefaultHistoryLimit)
      && forall x, y :: x in entries && y in multiset(log) - multiset(entries) ==> y.changeDate <= x.changeDate
  {
    var f := HistoryFilterOf(filter);
    if f == Last10 then NewestEntries(log, DefaultHistoryLimit)
    else WindowNewestFirst(log, f, now)
  }
}

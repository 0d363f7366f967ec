# Archive store

A Dafny model of the storage core of a small self-hosted file archive
(`server.js`). Its three tables are:

- `files`: one row per uploaded version, with a state of Current, Deleted or
  Purged, and a `relatedFiles` version chain;
- `trash`: snapshots taken at deletion;
- `history`: an audit log.

The routes that change the tables are `/upload`, `/delete/:id`, `/replace`,
`/empty-trash`, `/clear-history` and `/check-files`. Each becomes a method of
the class `Archive.ArchiveStore`. The routes that only read are `/files`,
`/download/:id`, `/metadata/:id` and `/history`. Each becomes a pure function
of the table values, in `ArchiveQueries`.

Modules:

- `ArchiveTypes`: rows of the three tables, the uploaded payload, route
  results and errors, the KB size and the "guest" author default.
- `PathNames`: POSIX `path.extname` (the extension stored with every new row),
  and `sanitizeFilename`.
- `Sequences`: ORDER BY as an insertion sort with its ordering and
  permutation proofs, WHERE as a filter, and facts about prefixes and repeats.
- `ArchiveQueries`: the read routes.
- `ArchiveInvariants`: the table invariants, and one lemma per kind of
  statement the routes issue, showing that the statement keeps them.
- `Archive`: the class `ArchiveStore`, whose `Valid()` joins the invariants:
  - ids are dense and match their keys;
  - the version chain is symmetric;
  - the trash holds snapshots of exactly the Deleted files;
  - trash and history ids are fresh.

`datetime('now')` is a `now: Timestamp` parameter (UTC seconds), and SQLite's
`date()` is `now / 86400`. Each AUTOINCREMENT counter is a field that only
grows. An absent request field is the empty string.

Two behaviours of the code are easy to miss; the model reproduces both:

- delete and replace match rows by id only, with no state guard. A Purged or
  Deleted row can therefore be deleted or replaced again; it goes back to
  Deleted and gets one more trash row. The model reproduces this: `Delete`
  and `Replace` accept a row in any state. So Purged is not terminal, and a
  row can have several trash snapshots.
- `/check-files` never changes anything. Its `!file` test cannot succeed on a
  fetched row; `CheckFiles` proves that branch dead and ensures the store is
  unchanged.

## Model

| member | source | states |
|---|---|---|
| Archive.ArchiveStore.constructor | server.js:16-46 | A new database has three empty tables, every AUTOINCREMENT counter at 1, and all invariants hold |
| Archive.ArchiveStore.Upload | server.js:141-169 | No file: BadInput, store unchanged. Otherwise the new id is the counter, absent from and above every existing id. Exactly one row is added: author is the user name or "guest", the name, extension and KB size come from the payload, both dates are now, state Current, empty chain. No other row or trash row changes, one history entry about the new id is appended, and the result is (id, name, size). Invariants are kept |
| Archive.ArchiveStore.Delete | server.js:172-202 | Unknown id: NotFound, nothing changes. Otherwise, in any state, one trash row with the row's id, name and payload is appended, only that row becomes Deleted with modifyDate now, and one history entry with the row's own author and name is appended. Invariants are kept |
| Archive.ArchiveStore.SendToTrash | server.js:183-192 | The trash INSERT then the state UPDATE shared by delete and replace: the snapshot is appended under the next trash id, the row becomes Deleted, and nothing else changes. Invariants are kept |
| Archive.ArchiveStore.Replace | server.js:205-261 | Unknown old id: NotFound, nothing changes. Otherwise: the new id differs from the old id and from every existing id; the old row is Deleted with chain old chain + [newId] and a matching trash snapshot; the new row is Current with the old author and upload date, the new name, extension, size and payload, and chain [oldId]; one history entry is logged against the old id; the result is (newId, new name, old name). Invariants are kept |
| Archive.ArchiveStore.AddSuccessor | server.js:227-251 | Inserts the successor row under the next id, then appends its id to the old row's chain as read at the start of the route. The chain stays symmetric |
| Archive.ArchiveStore.LogChange | server.js:162-166 | One history entry about an existing row is appended under the next history id; files and trash are unchanged |
| Archive.ArchiveStore.EmptyTrash | server.js:303-315 | The trash is empty and the files table becomes PurgeDeleted of its old value; history and counters are unchanged. Invariants are kept |
| Archive.PurgeDeleted | server.js:309-312 | The same ids; every Deleted row becomes Purged with modifyDate now; Current and Purged rows, and all payloads, are untouched |
| Archive.ListingUnchangedByPurge | server.js:118-134 | Emptying the trash leaves every `/files` listing exactly as it was |
| Archive.ArchiveStore.ClearHistory | server.js:81-85 | The log is empty; files, trash and counters are unchanged. Invariants are kept |
| Archive.ArchiveStore.CheckFiles | server.js:283-300 | The fetched rows are all present, so the update branch never runs and the store is unchanged |
| ArchiveQueries.ListFiles | server.js:109-139 | A row is listed iff its record is Current and passes every non-empty filter (equality in exact mode, case-insensitive containment otherwise). Each listed id appears once. Rows are ordered non-strictly by size when asked and by id otherwise, descending only for "desc" |
| ArchiveQueries.ListFilesAgree | server.js:118-134 | Two tables with the same listed rows give the same listing |
| ArchiveQueries.SelectIds | server.js:119-120 | The table scan: exactly the ids in range whose rows pass the test, strictly ascending |
| ArchiveQueries.SelectIdsAgree | server.js:119-120 | Two tables that agree on which ids pass give the same scan |
| ArchiveQueries.RowsOf | server.js:119 | The projection (id, filename, size) of the selected ids: no repeats, and a row is present iff it is the projection of a selected id |
| ArchiveQueries.RowIdsDistinct | server.js:119 | Distinct projected rows have distinct ids |
| ArchiveQueries.ExactImpliesLike | server.js:114-116 | A filter that matches exactly also matches as a substring |
| ArchiveQueries.FoldAscii | server.js:115-116 | Case folding for LIKE keeps the length, leaves no ASCII capital, lowers each capital by 32 and keeps every other character |
| ArchiveQueries.FoldAsciiIdempotent | server.js:115-116 | Folding twice is folding once |
| ArchiveQueries.LikeIgnoresCase | server.js:114-116 | A substring match gives the same answer when the value and the filter are folded first: LIKE ignores ASCII case |
| ArchiveQueries.MatchesByParameter | server.js:112-131 | An empty author or filename filter lets every row through. With searchType "exact" a non-empty filter asks for equality. Any other searchType asks for case-insensitive containment |
| ArchiveQueries.ListedCurrent | server.js:119-131 | Only Current rows pass the WHERE clause, and with both filters empty every Current row passes |
| ArchiveQueries.DefaultHistoryFilter | server.js:50-73 | The ten-newest default is chosen exactly when the filter is none of lastHour, today, yesterday, last7Days or allTime; an absent filter is included |
| ArchiveQueries.DayBounds | server.js:58-62 | date(): a timestamp falls on day d exactly when it lies in [d * 86400, d * 86400 + 86400) |
| ArchiveQueries.WindowBounds | server.js:54-68 | The windows as intervals: lastHour is changeDate >= now - 3600; today is the current UTC day; yesterday is the day before it; last7Days is changeDate >= now - 7 * 86400; allTime is everything |
| ArchiveQueries.DownloadFile | server.js:266-280 | Ok iff the id is in the table, in any state, with that row's stored name and bytes; otherwise NotFound |
| ArchiveQueries.Metadata | server.js:318-330 | Ok iff the id is in the table, in any state, with that whole row; otherwise NotFound |
| ArchiveQueries.WindowNewestFirst | server.js:54-70 | For a named filter: exactly the log entries inside its time window, each as many times as in the log, newest first |
| ArchiveQueries.NewestEntries | server.js:71-72 | The default filter: min(log length, n) entries taken from the log, newest first, none older than an entry left out |
| ArchiveQueries.TakeNewest | server.js:71-72 | A prefix of a newest-first permutation of the log is ordered, is taken from the log, and comes before everything it leaves out |
| ArchiveQueries.History | server.js:49-78 | Entries are from the log, ordered by changeDate non-increasing. A named filter returns exactly its window. Any other or absent filter returns the 10 newest entries, or all when fewer |
| Sequences.InsertBy | server.js:134 | Inserting into an ordered sequence keeps it ordered and adds exactly that element |
| Sequences.SortBy | server.js:134 | ORDER BY: the result is ordered by the key and is a permutation of the input |
| Sequences.Filter | server.js:120-131 | WHERE: each element is kept as many times as in the input when it passes the test, and is dropped otherwise |
| Sequences.SortedPrefixFirst | server.js:72 | In an ordered sequence, every element of a prefix comes before every element left out of it |
| Sequences.HeadFirst | server.js:134 | The head of an ordered sequence comes before each of its members |
| Sequences.ConsSorted | server.js:134 | Putting in front an element that precedes every member keeps a sequence ordered |
| Sequences.MembersAfterAdd | server.js:134 | A sequence with one element added holds only that element and the old members |
| Sequences.SameMembers | server.js:134 | A permutation has the same members |
| Sequences.DistinctMultiplicity | server.js:119 | A sequence without repeats holds each element at most once |
| Sequences.RepeatMultiplicity | server.js:119 | An element at two positions is counted at least twice |
| Sequences.PermutationKeepsDistinct | server.js:134 | Sorting a sequence without repeats introduces none |
| ArchiveTypes.SizeKB | server.js:155 | The size column is exactly the byte length / 1024, never negative |
| ArchiveTypes.AuthorOf | server.js:152 | The user name when given, "guest" otherwise; never empty |
| PathNames.LastIndexOf | server.js:154 | A position in the string, or -1 |
| PathNames.LastIndexOfFound | server.js:154 | -1 iff the character is absent; otherwise that position holds it and no later one does |
| PathNames.TrimTrailingSlashes | server.js:154 | Never longer than the path |
| PathNames.TrimTrailingSlashesShape | server.js:154 | Trimming keeps a prefix, drops only slashes, and leaves no trailing slash |
| PathNames.BaseName | server.js:154 | Never longer than the trimmed path |
| PathNames.BaseNameShape | server.js:154 | The last component has no slash and ends the trimmed path |
| PathNames.BaseNameWhole | server.js:154 | The last component is the whole of what follows the trimmed path's last slash: it starts the trimmed path or comes right after a '/' |
| PathNames.ExtName | server.js:154 | Never longer than the last component |
| PathNames.ExtNameShape | server.js:154 | The extension is empty, or a dot followed by no other dot and no slash, and it ends the last component |
| PathNames.ExtNameExists | server.js:236 | The extension is non-empty iff the last component is not "..", is non-empty, and has a dot after its first character |
| PathNames.SanitizeFilename | server.js:104-106 | Same length; every character is safe; safe characters are kept and every other one becomes '_' |
| PathNames.SanitizeIdempotent | server.js:104-106 | Sanitising twice is sanitising once |
| ArchiveInvariants.ChainKeptWhenLinksKept | server.js:309-312 | State and date updates that leave every chain alone keep the chain symmetric |
| ArchiveInvariants.ChainKeptByInsert | server.js:146-159 | Inserting a new row with an empty chain keeps the chain symmetric |
| ArchiveInvariants.ChainExtendedByReplace | server.js:239-251 | Linking the superseded row to its successor both ways keeps the chain symmetric |
| ArchiveInvariants.IdsDenseAfterInsert | server.js:18 | Inserting under the AUTOINCREMENT id, then advancing it, keeps the ids dense; that id was unused |
| ArchiveInvariants.TrashKeptByInsert | server.js:146-159 | A new Current row keeps the trash a mirror of the Deleted rows |
| ArchiveInvariants.TrashKeptByRelink | server.js:248-251 | Rewriting only a row's chain keeps the trash a mirror of the Deleted rows |
| ArchiveInvariants.TrashKeptBySnapshot | server.js:183-192 | Snapshotting a row in any state and marking it Deleted keeps the trash a mirror of the Deleted rows |
| ArchiveInvariants.TrashIdsAppended | server.js:30 | Appending under the trash counter, then advancing it, keeps trash ids increasing and fresh |
| ArchiveInvariants.HistoryKeptByGrowth | server.js:37-45 | The log stays well formed when rows are only added or changed |
| ArchiveInvariants.HistoryAppended | server.js:37-45 | Appending an entry about an existing row under the history counter keeps the log well formed |

## Left out

- HTTP plumbing (routing, CORS, static files, status codes, the
  `Content-Disposition` header) is not modelled. Routes return `Result`
  values, with `NotFound` for 404 and `BadInput` for 400.
- The upload middleware is not modelled: multer memory storage and its
  latin1 to UTF-8 re-decoding of file names. Its 100 MiB limit appears only
  as a precondition on `Upload` and `Replace`.
- Replace without a file is not modelled. The source crashes on it after the
  trash insert and the state update have already run; `Replace` takes a
  payload instead.
- Non-numeric ids are not modelled. `parseInt` would give NaN, which matches
  no row, the same as any absent id.
- The `%` and `_` wildcards inside a LIKE filter value are not modelled.
  Substring mode is plain ASCII-case-insensitive containment.
- The tie order of ORDER BY is not modelled. Listing and history order are
  proved non-strict only.
- Wall-clock time, and DATETIME as text, are replaced by a `now` parameter in
  seconds.
- The clock is read once per route. Each route takes a single `now`, while
  every SQL statement in the source calls `datetime('now')` itself. The trash
  insert, the state update and the history insert of one delete can
  therefore fall in different seconds there, but not here.
- Floating-point KB values are replaced by exact reals.
- Non-POSIX platforms' `path.extname` is not modelled.
- The read-modify-write race on `relatedFiles` between concurrent replaces is
  not modelled, because each route runs to completion as one method call.
- `public/script.js`, the browser UI, is not part of this model.
- PathNames.SanitizeFilename: works per `char`. A character outside the
  Basic Multilingual Plane counts as one `_` here, where the JavaScript
  regular expression, working on UTF-16 code units, would produce two.

# RhythmRiskAnalytics: ingestion engine and anomaly journal, in Dafny

This project models the two sequential cores of RhythmRiskAnalytics and proves properties of them.

**The ingestion engine (`SQL1.py`).** It reads Sigma detection logs, one JSON-like record per line.
- It pulls eight fields out of each line with pattern searches.
- It normalises the `SystemTime` and drops lines at or before the bookmark.
- It gives each new detection a cluster label (`dbscan_cluster`). The label is the one of a stored detection with the same signature, or the stored maximum plus one.
- It keeps a bookmark file with the newest time ingested.
- It deletes rows older than seven days.

**The anomaly journal (`logger.py`).** Detections labelled `-1` are outliers. They go into the CSV journal `anomaly.csv`.
- An outlier seen within the last hour (keyed by time and provider) is suppressed.
- The journal is rewritten newest first.
- Rows older than seven days move to `anomaly_archive.csv`.

**Modules.**
- `Text`: Python's whitespace class, `str.strip()`, `str.replace(c, "")`, `split('.')[0]`, decimal digits.
- `Stamps`: datetimes, the calendar, `strftime`/`strptime` for `%Y-%m-%d %H:%M:%S` and `%Y-%m-%dT%H:%M:%SZ`, the `SystemTime` normalisation.
- `Scan`: the eight `re.search` patterns as leftmost-match scans.
- `Ingest`: `process_log_file`.
- `Bookmark`: the bookmark file, a class.
- `Store`: the `sigma_alerts` table, a class; the cluster choice; insertion; retention.
- `Monitor`: `monitor_folder`'s start-up pass and polling loop, a class.
- `Journal`: the journal as values: rows, the suppression cache, the stable descending sort, the seven-day partition.
- `AnomalyLog`: `logger.py`'s five functions as a class over the two files. Each method is proved to leave exactly what a specification function says.

**How the environment is modelled.**
- The database is an in-memory sequence of rows.
- Files are `Option` values (None: the file does not exist). A CSV file is its sequence of rows.
- `datetime.now()` is a parameter. So is the listing of the log folder.
- Every Python exception that ends an operation becomes a `None` result, and the state is then left as the source leaves it.

## Model

| member | source | states |
|---|---|---|
| Text.Strip | SQL1.py:146-152 | `strip()` gives a slice of the input whose cut-off margins are all whitespace and which neither starts nor ends with whitespace |
| Text.StripEmptyIffAllSpace | SQL1.py:99-100 | a string strips to nothing exactly when it is all whitespace |
| Text.BlankIffAllSpace | SQL1.py:133-134 | `not line.strip()` holds exactly for lines of whitespace only |
| Text.Without | SQL1.py:147 | `replace('"', "")` leaves no quote and keeps every other character; a string without quotes is unchanged |
| Text.BeforeDotIgnoresFraction | SQL1.py:158 | `split('.')[0]` of `p.x` is `p` whenever `p` has no dot |
| Stamps.TicksFollowCalendar | logger.py:129 | the microsecond count used for datetime subtraction orders datetimes exactly as their field-by-field comparison does, and is injective |
| Stamps.Build | SQL1.py:160 | `strptime`'s final check: a date is accepted exactly when the year is at least 1, the day exists in that month and the second is at most 59 |
| Stamps.FormatStampRoundTrip | SQL1.py:95-119 | what `strftime("%Y-%m-%d %H:%M:%S")` writes, `strptime` with the same format reads back as the same datetime less its microseconds |
| Stamps.IsoRoundTrip | SQL1.py:160 | ISO text `%Y-%m-%dT%H:%M:%S` with a `Z` appended parses back to the same datetime |
| Stamps.SubSecondsIgnored | SQL1.py:158-160 | anything after the first dot of a SystemTime never changes the parsed event time |
| Stamps.IsoSystemTime | SQL1.py:158-160 | a SystemTime in ISO form with a fraction yields exactly its datetime |
| Stamps.ZuluWithoutFractionRejected | SQL1.py:158-160 | a SystemTime that already ends in `Z` and has no dot gets a second `Z` and is rejected |
| Stamps.ParseIso | SQL1.py:160 | `strptime(..., "%Y-%m-%dT%H:%M:%SZ")` accepts only text ending in a digit and `Z`, and yields no microseconds; Stamps.IsoRoundTrip proves that it reads what the ISO format writes |
| Stamps.ParseStamp | SQL1.py:102 | `strptime(..., "%Y-%m-%d %H:%M:%S")` yields no microseconds; Stamps.FormatStampRoundTrip proves that it inverts `FormatStamp` |
| Stamps.FormatStamp | SQL1.py:116 | `strftime("%Y-%m-%d %H:%M:%S")` writes 19 characters that start and end with a digit; Stamps.FormatStampRoundTrip proves that `ParseStamp` reads it back |
| Stamps.NormaliseSystemTime | SQL1.py:158-159 | the cut at the first dot, the appended `Z` and the removal of spaces leave no space in the text |
| Stamps.ParseSystemTime | SQL1.py:158-160 | a normalised SystemTime yields no microseconds; Stamps.IsoSystemTime, Stamps.SubSecondsIgnored and Stamps.ZuluWithoutFractionRejected state which texts it accepts |
| Scan.UpTo | SQL1.py:137 | `(.*?)close` stops at the first `close` and never crosses a newline; no match means every `close` follows a newline |
| Scan.EscapedBody | SQL1.py:139 | the description's capture of escape pairs and plain characters ends at a quote, and the text before that quote is well-escaped |
| Scan.EscapedBodyUnique | SQL1.py:139 | whenever a quote at position `k` has a well-escaped text before it, the scan ends exactly at `k`: it finds every such end, not just some |
| Scan.MatchAt | SQL1.py:137-144 | a capture at a position follows the pattern's prefix there and lies in the line; a lazy capture ends at its first closing character, an escaped one at an unescaped quote, a digit capture at the end of the digit run |
| Scan.LazyComplete | SQL1.py:137-142 | a lazy pattern whose prefix is present fails only when every closing character after the prefix has a newline before it |
| Scan.EscapedComplete | SQL1.py:139 | after the description prefix, a quote preceded by a well-escaped text is a match, and the capture is exactly that text |
| Scan.DigitsComplete | SQL1.py:143 | `(\d+)` matches after its prefix exactly when a digit follows the prefix |
| Scan.Search | SQL1.py:137-144 | the search returns the leftmost position where the pattern matches, and no position before it matches |
| Scan.Find | SQL1.py:137-144 | `re.search(...)` finds nothing exactly when no position of the line matches; otherwise group 1 is the capture of the leftmost matching position |
| Scan.LazyAtStart | SQL1.py:137-142 | a line that starts with a field's prefix yields the text up to the first closing character |
| Scan.EscapedAtStart | SQL1.py:139 | a line that starts with the description prefix, then a well-escaped text and a quote, yields exactly that text |
| Ingest.CleanTags | SQL1.py:147 | cleaned tags are present exactly when captured, contain no quote and are stripped |
| Ingest.ExtractFields | SQL1.py:137-152 | the event id is a non-empty digit run; title, tags and description are stripped; tags have no quotes; the SystemTime is the raw capture |
| Ingest.Classify | SQL1.py:132-171 | the fate of one line: blank, dropped, stale or a fresh record. It has no contract of its own; Ingest.LineEmittedIff states when a line is fresh |
| Ingest.Emitted | SQL1.py:132-171 | the records of a file, line by line. It has no contract of its own; Ingest.EmittedAfterBookmark and Ingest.EmittedWithinLatest bound them |
| Ingest.Latest | SQL1.py:125-164 | the running `latest_time`. It has no contract of its own; Ingest.LatestIsMaximum proves that it is the maximum of the bookmark and the parsed times |
| Ingest.ProcessLogFile | SQL1.py:122-178 | the loop over the lines returns exactly the records and latest time of the line-by-line definitions; an unreadable file gives no records and the bookmark passed in |
| Ingest.LineEmittedIff | SQL1.py:132-171 | a line yields a record exactly when it is not blank, its SystemTime is present and parses, and that time is later than the bookmark; the record carries that time |
| Ingest.IsoLineTime | SQL1.py:140-160 | a line whose SystemTime is ISO text with a fraction carries exactly that datetime |
| Ingest.SystemTimeAtStart | SQL1.py:140-160 | a line that starts with a SystemTime field is not blank, and its event time is the parse of that field's text |
| Ingest.EmittedAfterBookmark | SQL1.py:161-162 | every emitted record is strictly later than the bookmark |
| Ingest.NothingNewBeforeBookmark | SQL1.py:161-164 | when no parsed time is later than the bookmark, nothing is emitted and the latest time is the bookmark |
| Ingest.LatestIsMaximum | SQL1.py:125-164 | the returned latest time is not earlier than the bookmark nor any parsed time, and is one of them: the bookmark only moves forward |
| Ingest.EmittedWithinLatest | SQL1.py:161-171 | no emitted record is later than the returned latest time |
| Ingest.DescriptionKeepsEscapedQuotes | SQL1.py:139 | every quote inside a captured description follows a backslash: the capture does not stop at an escaped quote |
| Bookmark.ReadBookmark | SQL1.py:95-109 | a bookmark is read only from an existing, non-blank file, and has no microseconds |
| Bookmark.BookmarkFile.Read | SQL1.py:95-109 | reading the file gives the bookmark its content stands for |
| Bookmark.BookmarkFile.Update | SQL1.py:112-119 | a datetime replaces the content with its stamp; a missing time leaves the file as it was |
| Bookmark.BookmarkRoundTrip | SQL1.py:95-119 | a written bookmark reads back as the same time less microseconds, so a time without microseconds reads back exactly |
| Bookmark.NoBookmarkWhenBlank | SQL1.py:97-109 | a missing or whitespace-only bookmark file means no bookmark |
| Store.Matches | SQL1.py:187-188 | the WHERE clause: title, tags, computer, user and event id all equal under SQL `=`. It has no contract of its own; Store.ClusterIgnoresOtherFields and Store.NullSignatureGetsNewCluster state which fields it reads and how NULL behaves |
| Store.ExistingCluster | SQL1.py:181-202 | a reused cluster is that of a stored row matching on title, tags, computer, user and event id; whenever a matching row exists, the result is the cluster of one; with no match there is none |
| Store.FirstMatch | SQL1.py:186-194 | `LIMIT 1` over the table in order returns the first matching row's cluster, whatever later matching rows hold |
| Store.MaxStored | SQL1.py:205-212 | `MAX(dbscan_cluster)` is absent exactly when every cluster is null; otherwise it bounds every cluster and is one of them |
| Store.Clustered | SQL1.py:232 | one insert call writes one row per record, in order, each with the given cluster |
| Store.Retain | SQL1.py:243-257 | the retention delete keeps exactly the rows with a null time or a time not before the cutoff |
| Store.AssignCluster | SQL1.py:284-289 | the cluster given to a record. It has no contract of its own; Store.ClusterReused states its two cases |
| Store.IngestAll | SQL1.py:283-290 | the table after one-at-a-time ingestion. It has no contract of its own; Store.IngestAppends and Store.IngestKeepsClustersConsistent state what it keeps |
| Store.Cutoff | SQL1.py:248-250 | the retention cutoff is `now` less seven days, cut to whole seconds as `strftime` writes it, so it lies within one second before the exact instant |
| Store.AlertStore.InsertData | SQL1.py:221-240 | the table grows by the clustered rows; an empty batch adds nothing |
| Store.AlertStore.Ingest | SQL1.py:283-290 | records are inserted one at a time, each clustered against the table as it stands |
| Store.AlertStore.Truncate | SQL1.py:243-257 | the table becomes the retained rows for `now` less seven days |
| Store.ClusterReused | SQL1.py:284-289 | a cluster found on a matching row is reused; otherwise the new cluster exceeds every stored one, and is 1 on an empty or unclustered table |
| Store.ClusterIgnoresOtherFields | SQL1.py:186-191 | description, provider and time do not affect the cluster |
| Store.NullSignatureGetsNewCluster | SQL1.py:186-191 | a record with a null signature field never matches (SQL `=` on NULL), so it gets the maximum plus one |
| Store.IngestKeepsClustersConsistent | SQL1.py:283-290 | sequential ingestion keeps every row clustered and gives rows with the same signature the same cluster |
| Store.IngestAppends | SQL1.py:283-290 | ingestion keeps the old rows and appends one clustered row per record, in order |
| Store.RetentionBoundary | SQL1.py:248-250 | a row with a null time stays; a timed row stays exactly when it is not before the cutoff; a row exactly at the cutoff stays |
| Monitor.InNewNames | SQL1.py:301-306 | a name is new exactly when some regular file of the listing carries it and it was not processed |
| Monitor.Monitor.Start | SQL1.py:270-297 | with a bookmark on file nothing is read; without one every file is ingested in order and the final in-memory bookmark is written |
| Monitor.Monitor.Poll | SQL1.py:299-322 | a poll as written: new files are read against the unchanged bookmark, and each one writes its latest time to the file |
| Monitor.Monitor.PollAdvancing | SQL1.py:299-322 | the corrected poll: each new file's latest time also becomes the bookmark for the next file |
| Monitor.InitialPass | SQL1.py:277-294 | the start-up pass over the sorted listing. It has no contract of its own; Monitor.InitialPassCovers bounds its bookmark |
| Monitor.PollRows | SQL1.py:304-320 | the table after one poll as written. It has no contract of its own; Monitor.PollBookmarkRegresses uses it |
| Monitor.PollBookmark | SQL1.py:304-320 | the bookmark file after one poll as written. It has no contract of its own; Monitor.PollBookmarkRegresses shows that it can move backwards |
| Monitor.AdvancingPoll | SQL1.py:304-320 | the corrected poll. It has no contract of its own; Monitor.AdvancingPollCovers proves that its bookmark never moves back |
| Monitor.InitialPassCovers | SQL1.py:277-294 | after start-up the bookmark is not earlier than where it began nor than any row the pass added |
| Monitor.AdvancingPollCovers | SQL1.py:304-320 | in the corrected poll the bookmark never moves back, the file holds it, and it covers every row added |
| Monitor.PollBookmarkRegresses | SQL1.py:304-320 | as written, a fresh file followed by a file with nothing new leaves the start-up bookmark on file, so a restart ingests the same detection twice |
| Monitor.PollBookmarkRegressesExample | SQL1.py:308-320 | the regression with concrete times: a 10:00 detection is ingested while 08:00 stays on file |
| Monitor.AdvancingPollKeepsLatest | SQL1.py:308-320 | for the same two files the corrected poll leaves the detection's time on file |
| Journal.FetchAnomalies | logger.py:29-47 | the outliers of the `-1` rows, in table order, no more of them than rows. Journal.FetchedIff, Journal.FetchAppend and Journal.FetchOne state which rows it keeps |
| Journal.FetchAppend | logger.py:34-40 | fetching a concatenation of tables fetches each part in turn: the query is an order-preserving filter |
| Journal.FetchOne | logger.py:37 | a single row yields its outlier exactly when its cluster is -1, and nothing otherwise: one outlier per `-1` row |
| Journal.FetchedIff | logger.py:29-41 | an outlier is fetched exactly when some row of the table has cluster -1 and carries it |
| Journal.JournalRowOf | logger.py:127-133 | a journal row has eight fields: the formatted event time, then the provider and the other columns |
| Journal.RowsOf | logger.py:133 | one journal row per accepted outlier, in order |
| Journal.Entries | logger.py:80 | the sort key of every row, one per row. Journal.EntriesIff states when they exist and what each key is |
| Journal.EntriesIff | logger.py:80 | the sort keys exist exactly when every row's time parses, and are then each row's time |
| Journal.CacheOf | logger.py:57-62 | the dictionary built from the journal's rows, a later row overriding an earlier one. It has no contract of its own; Journal.LoadedCache states its keys and values |
| Journal.Accept | logger.py:129-133 | one step of the suppression loop. It has no contract of its own; Journal.SuppressedIff states when it skips and when it caches |
| Journal.LoadCache | logger.py:49-63 | a missing journal gives an empty cache; a journal without a header row raises |
| Journal.LoadedCache | logger.py:49-63 | the rebuilt cache exists exactly when every row has two fields and a parsable time; its keys are exactly the rows' (time text, provider), each mapped to the parsed event time |
| Journal.NullProviderNeverCached | logger.py:59-62 | an outlier with a null provider never finds its key in a rebuilt cache, whose keys all hold a provider string |
| Journal.LogScan | logger.py:126-134 | the loop completes exactly when every outlier has a time; every picked outlier comes from the input |
| Journal.PickedDistinct | logger.py:129-133 | every accepted outlier is cached at `now`, and no two accepted outliers share a key: a repeat in the same batch is suppressed |
| Journal.Suppressed | logger.py:129 | the skip test: the key is cached and `now` minus its cached time is at most one hour. It has no contract of its own; Journal.SuppressedIff states how the loop uses it |
| Journal.SuppressedIff | logger.py:129-132 | an outlier is skipped exactly when its key is cached and `now` minus the cached time is at most one hour; otherwise it is kept and cached at `now` |
| Journal.StaleOutlierRejournaled | logger.py:58-62 | the rebuilt cache holds the event time, so an outlier whose event is over an hour old is journaled again on every run |
| Journal.Insert | logger.py:80 | one insertion step of the sort adds exactly the one entry |
| Journal.SortDesc | logger.py:80 | the sort is a permutation of its input |
| Journal.SortDescending | logger.py:80 | the sorted journal has no entry earlier than a later one |
| Journal.SortStable | logger.py:80 | among entries with the same time, the sort keeps their input order |
| Journal.SortRows | logger.py:80 | the sorted rows are a permutation of the input rows |
| Journal.ExistingLogs | logger.py:69-74 | a missing journal has no rows; an existing one has its rows after the header |
| Journal.Rewritten | logger.py:65-85 | the rewritten journal starts with the fixed header |
| Journal.RewriteKeepsEverything | logger.py:65-85 | the rewritten body is exactly the new and the existing rows as a multiset, newest first, and among equal times the new rows come first, each side in its own order |
| Journal.EntriesCarryStamps | logger.py:80 | each sort key is the parsed time of its own row |
| Journal.SortedRowsNewestFirst | logger.py:80 | the sorted rows all have a parsable time, and no row is older than a row after it |
| Journal.RewrittenNewestFirst | logger.py:76-84 | every row of a rewritten journal after the header has a parsable time, and no row is older than a row after it |
| Journal.OldRows | logger.py:99-104 | the rows `anomalies_to_archive` collects, in journal order. It has no contract of its own; Journal.ArchivedExactlyOld and Journal.SplitAppend state what it keeps |
| Journal.KeptRows | logger.py:99-104 | the rows `anomalies_to_keep` collects, in journal order. It has no contract of its own; Journal.KeptExactlyRecent and Journal.SplitAppend state what it keeps |
| Journal.SplitAppend | logger.py:99-104 | both halves of the split distribute over concatenation: the split of `a + b` is the split of `a` followed by the split of `b`, so each half keeps the journal's relative order |
| Journal.SplitOne | logger.py:100-104 | a single row goes to exactly one half: to the archived rows when it is before the cutoff, otherwise to the kept rows |
| Journal.SplitKeepsNewestFirst | logger.py:99-110 | splitting a newest-first journal leaves both the kept and the archived rows newest first |
| Journal.PartitionCounts | logger.py:99-104 | archived and kept rows together are exactly the journal's rows |
| Journal.ArchivedExactlyOld | logger.py:99-104 | a row is archived exactly when its time is before the cutoff |
| Journal.KeptExactlyRecent | logger.py:99-104 | a row is kept exactly when its time is not before the cutoff |
| Journal.ArchiveBoundary | logger.py:92-101 | with the cutoff seven days before now, a row is archived exactly when it is more than seven days old; a row at the cutoff is kept |
| AnomalyLog.LogScanStops | logger.py:126-127 | an outlier without a time ends the loop: later outliers change nothing |
| AnomalyLog.Logged | logger.py:121-137 | the journal after `log_anomalies`. It has no contract of its own; AnomalyLog.LoggedKeepsRows states what it holds |
| AnomalyLog.LoggedKeepsRows | logger.py:121-137 | with no accepted outlier the journal is untouched; otherwise it is the header and exactly the old and accepted rows |
| AnomalyLog.LoggedKeepsOrder | logger.py:121-137 | logging keeps a newest-first journal newest first |
| AnomalyLog.LoggedTimed | logger.py:121-137 | when the journal loaded, logging leaves either no journal or one whose rows after the header all have a parsable time |
| AnomalyLog.Archived | logger.py:87-90 | archiving without a journal is a no-op; a journal without a header raises |
| AnomalyLog.ArchivedIff | logger.py:87-104 | archiving succeeds exactly when there is no journal, or the journal has a header and every row after it has a parsable time |
| AnomalyLog.Appended | logger.py:113-119 | the archive after the append. It has no contract of its own; AnomalyLog.AppendOnly states what it keeps |
| AnomalyLog.AppendOnly | logger.py:113-119 | the archive keeps its rows and gains exactly the moved ones; a new archive starts with the header; nothing to move writes nothing |
| AnomalyLog.ArchiveSplitsJournal | logger.py:87-119 | the journal keeps its header and exactly its recent rows, in journal order; the old rows go to the archive in journal order; no row is lost or duplicated; a newest-first journal leaves both halves newest first |
| AnomalyLog.ArchivedKeepsOrder | logger.py:99-110 | archiving keeps a newest-first journal newest first |
| AnomalyLog.ArchiveLeavesRecent | logger.py:99-110 | after archiving, every journal row's time is not before the cutoff |
| AnomalyLog.ArchiveAfterLogging | logger.py:141-144 | once the journal has loaded and logging has succeeded, archiving cannot raise |
| AnomalyLog.Cycle | logger.py:139-144 | the two files after one run: load, log, archive. It has no contract of its own; the lemmas below state its effect |
| AnomalyLog.CycleFailsBeforeWriting | logger.py:139-144 | a run raises exactly when loading the cache or logging raises; archiving never does |
| AnomalyLog.CycleKeepsOrder | logger.py:139-144 | a run keeps a newest-first journal newest first |
| AnomalyLog.CycleLeavesRecent | logger.py:139-144 | after a full run every journal row's time is not before the cutoff |
| AnomalyLog.AnomalyFiles.LoadLoggedAnomalies | logger.py:49-63 | the loop over the journal builds exactly the rebuilt cache, and fails where the source raises |
| AnomalyLog.AnomalyFiles.SaveLoggedAnomalies | logger.py:65-85 | the journal becomes exactly the rewritten journal, or is left untouched where the sort raises |
| AnomalyLog.AnomalyFiles.LogAnomalies | logger.py:121-137 | the loop leaves the cache of the suppression scan and the journal `Logged` describes; where the rewrite raises, the journal is left untouched |
| AnomalyLog.AnomalyFiles.ArchiveOldAnomalies | logger.py:87-119 | the loop leaves the two files exactly as `Archived` says; where reading the journal raises, both are left untouched |
| AnomalyLog.AnomalyFiles.DetectAndLogAnomalies | logger.py:139-144 | one run leaves the files exactly as `Cycle` says: load, log, archive; when the run raises, both files are left as they were |

## Left out

- The MySQL plumbing is not modelled: connections, commits and their error paths. The table is an in-memory sequence, and a failed query is not modelled.
- The schema set-up (SQL1.py:29-92), `initializer_db.py` and DBSCAN.py are not part of this model.
- The scheduler threads and sleep loops (SQL1.py:259-265, 324-330, 338-345; logger.py:147-154) are left out. A poll is one pass of the loop, and a run of `logger.py` is one call.
- The read-max-then-insert race between threads is left out: the model is single-threaded.
- Directory listing, file reading and `os.path.isfile` are left out. The listing and each file's lines are parameters.
- CSV quoting is not modelled: a CSV file is its sequence of rows. Python's `None` is written as the empty field.
- `datetime.now()` is a parameter.
- AnomalyLog.AnomalyFiles.ArchiveOldAnomalies: takes the cutoff `now - timedelta(days=7)` as a parameter. Journal.ArchiveBoundary relates it to `now`.
- AnomalyLog.AnomalyFiles.DetectAndLogAnomalies: takes that cutoff as a parameter too, beside `now`.
- AnomalyLog.AnomalyFiles.LoadLoggedAnomalies, SaveLoggedAnomalies, LogAnomalies and ArchiveOldAnomalies: take `strptime` as a parameter. DetectAndLogAnomalies passes the model of `strptime` (`Stamps.ParseStamp`), so the whole run is proved with it.
- `strptime` accepts ASCII digits only; Python's `\d` also accepts other Unicode digits.
- `strftime` is modelled with `%Y` padded to four digits; some C libraries do not pad years below 1000.
- Stamps.ParseIso: the `%z`, `%f` and other directives the program does not use are not modelled.
- The regular-expression engine is not modelled. Each pattern is a hand-written leftmost-match scan.
- `LIMIT 1` without `ORDER BY` returns some matching row. The model takes the first in table order.
- Journal.FetchAnomalies: `fetch_anomalies` has no `ORDER BY` either (logger.py:34-38), so MySQL may return the outliers in any order. The model takes table order, and the order of accepted rows among equal times follows it.
- Store.SqlEq: compares strings exactly. MySQL's default collation compares `VARCHAR` and `TEXT` case-insensitively and ignores trailing spaces, so `DESKTOP-1` and `desktop-1` would share a cluster in MySQL but not in the model. The collation is a server setting, not part of the source.
- The table's auto-increment id is not kept.
- Journal.SortDesc: Python's sort algorithm (timsort) is replaced by insertion sort. Only its result is specified: a stable, descending permutation.
- The `isinstance(item, datetime)` conversion (logger.py:78) is left out: the new rows already hold the time as text.
- The `logging` calls are left out.
- `fetch_anomalies` returning `[]` on a database error is not modelled. The table is a parameter.
- Monitor.Monitor.Poll: the iteration order of the set of new names is given by the listing order.

## Findings

| source | as written | input that shows it | evidently intended | confidence | as-written member | corrected member |
|---|---|---|---|---|---|---|
| SQL1.py:308-320 | each new file in a poll is read against the start-up `last_processed_time`, which the loop never advances, and its latest time is written to the bookmark file | bookmark 08:00; new file `a.json` with a detection at 10:00, then new file `b.json` with no later detection: `b.json` returns 08:00, which overwrites 10:00 on file, and after a restart the 10:00 detection is ingested again | advance `last_processed_time` after each file, as at start-up (SQL1.py:291), so the bookmark never moves backwards | high (proved; not executed) | Monitor.Monitor.Poll, Monitor.PollBookmarkRegresses, Monitor.PollBookmarkRegressesExample | Monitor.Monitor.PollAdvancing, Monitor.AdvancingPollCovers, Monitor.AdvancingPollKeepsLatest |
